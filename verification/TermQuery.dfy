/** The query grammar of os/search_terms_core.c: a query is split at separators into groups,
    equal groups (after ASCII folding) are kept once, and each kept group is built into a
    KMP pattern. */
module TermQuery {
  import opened Bytes
  import opened Kmp
  import opened TermLines
  import opened SearchTerms
  import EditorText
  import Utf8

  const QUERY_MAX: nat := 1023
  const WORD_MAX: nat := 255

  datatype Slot = Slot(offset: nat, length: nat)

  datatype Parsed = Invalid | Slots(slots: seq<Slot>)

  /** query_separator */
  predicate Separator(b: Byte) {
    b == TAB || (b < 0x80 && !Word(b))
  }

  predicate LegalByte(b: Byte) {
    b != 0 && (b >= 0x20 || b == TAB) && b != 0x7F
  }

  // ----- the definition

  /** The first index at or after `at` whose byte is (or is not) a separator. */
  function Scan(q: seq<Byte>, at: nat, separator: bool): (i: nat)
    requires at <= |q|
    ensures at <= i <= |q|
    ensures forall k | at <= k < i :: Separator(q[k]) != separator
    ensures i < |q| ==> Separator(q[i]) == separator
    decreases |q| - at
  {
    if at == |q| || Separator(q[at]) == separator then at else Scan(q, at + 1, separator)
  }

  /** The maximal runs of non-separators from `at` on. */
  function Runs(q: seq<Byte>, at: nat): seq<Slot>
    requires at <= |q|
    decreases |q| - at
  {
    var start := Scan(q, at, false);
    if start == |q| then []
    else
      var end := Scan(q, start, true);
      [Slot(start, end - start)] + Runs(q, end)
  }

  predicate Inside(q: seq<Byte>, s: Slot) {
    1 <= s.length && s.offset + s.length <= |q|
  }

  function Raw(q: seq<Byte>, s: Slot): seq<Byte>
    requires Inside(q, s)
  {
    q[s.offset..s.offset + s.length]
  }

  predicate AllInside(q: seq<Byte>, slots: seq<Slot>) {
    forall k | 0 <= k < |slots| :: Inside(q, slots[k])
  }

  predicate Known(q: seq<Byte>, slots: seq<Slot>, s: Slot)
    requires AllInside(q, slots) && Inside(q, s)
  {
    exists k | 0 <= k < |slots| :: FoldAll(Raw(q, slots[k])) == FoldAll(Raw(q, s))
  }

  /** The first of every set of runs that fold to the same bytes. */
  function Distinct(q: seq<Byte>, runs: seq<Slot>): (r: seq<Slot>)
    requires AllInside(q, runs)
    ensures AllInside(q, r)
  {
    if runs == [] then []
    else
      var before := Distinct(q, runs[..|runs| - 1]);
      var last := runs[|runs| - 1];
      if Known(q, before, last) then before else before + [last]
  }

  /** No more than 255 word characters follow each other. */
  predicate WordsFit(q: seq<Byte>, from: nat, to: nat)
    requires to <= |q|
  {
    forall i | from <= i < to - WORD_MAX :: Broken(q, i)
  }

  /** The 256 bytes from i on are not all word characters. */
  predicate Broken(q: seq<Byte>, i: nat)
    requires i + WORD_MAX < |q|
  {
    exists j | i <= j <= i + WORD_MAX :: !Word(q[j])
  }

  predicate RunsFit(q: seq<Byte>, runs: seq<Slot>)
    requires AllInside(q, runs)
  {
    forall k | 0 <= k < |runs| :: WordsFit(q, runs[k].offset, runs[k].offset + runs[k].length)
  }

  lemma {:induction false} RunsInside(q: seq<Byte>, at: nat)
    requires at <= |q|
    ensures AllInside(q, Runs(q, at))
    decreases |q| - at
  {
    hide Scan;
    var start := Scan(q, at, false);
    if start < |q| { RunsInside(q, Scan(q, start, true)); }
  }

  ghost predicate LegalQuery(q: seq<Byte>) {
    RunsInside(q, 0);
    && 1 <= |q| <= QUERY_MAX
    && (forall i | 0 <= i < |q| :: LegalByte(q[i]))
    && Utf8.ValidUtf8(q)
    && RunsFit(q, Runs(q, 0))
    && 1 <= |Distinct(q, Runs(q, 0))| <= GROUP_MAX
  }

  // ----- what the definition means

  /** What no separator is: a word character, or a byte of a scalar above ASCII. */
  lemma SeparatorMeaning(b: Byte)
    ensures !Separator(b) <==> Word(b) || b >= 0x80
    ensures LegalByte(b) <==> b == TAB || (0x20 <= b && b != 0x7F)
  {
  }

  /** Every run is maximal, and the runs are ordered and apart. */
  lemma {:induction false} RunsAreMaximal(q: seq<Byte>, at: nat)
    requires at <= |q|
    ensures forall k | 0 <= k < |Runs(q, at)| :: Maximal(q, at, Runs(q, at)[k])
    ensures forall k | 0 <= k < |Runs(q, at)| - 1 :: Before(Runs(q, at)[k], Runs(q, at)[k + 1])
    decreases |q| - at
  {
    hide Scan;
    var start := Scan(q, at, false);
    if start < |q| {
      var end := Scan(q, start, true);
      RunsAreMaximal(q, end);
      var rest := Runs(q, end);
      var runs := Runs(q, at);
      assert runs[0] == Slot(start, end - start) && runs[1..] == rest;
      assert forall k | 0 <= k < |rest| :: Maximal(q, end, rest[k]);
      FirstRun(q, at, start, end);
      forall k | 1 <= k < |runs| ensures Maximal(q, at, runs[k]) && runs[k].offset > end {
        assert runs[k] == rest[k - 1];
        Later(q, at, end, rest[k - 1]);
      }
      forall k | 0 <= k < |runs| - 1 ensures Before(runs[k], runs[k + 1]) {
        assert runs[k + 1] == rest[k];
        if k > 0 { assert runs[k] == rest[k - 1]; }
      }
    }
  }

  lemma FirstRun(q: seq<Byte>, at: nat, start: nat, end: nat)
    requires at <= |q| && start == Scan(q, at, false) < |q| && end == Scan(q, start, true)
    ensures start < end && Maximal(q, at, Slot(start, end - start))
  {
    hide Scan, Separator;
    assert Separator(q[start]) == false;
    if start > at { assert Separator(q[start - 1]) != false; }
    assert forall i | start <= i < end :: Separator(q[i]) != true;
  }

  lemma Later(q: seq<Byte>, at: nat, end: nat, s: Slot)
    requires at <= end <= |q| && Maximal(q, end, s) && (end < |q| ==> Separator(q[end]))
    ensures Maximal(q, at, s) && s.offset > end
  {
    assert !Separator(q[s.offset]);
  }

  /** Together the runs hold every byte that is not a separator. */
  lemma {:induction false} RunsCover(q: seq<Byte>, at: nat, i: nat)
    requires at <= i < |q| && !Separator(q[i])
    ensures Covered(Runs(q, at), i)
    decreases |q| - at
  {
    hide Scan;
    var start := Scan(q, at, false);
    var end := Scan(q, start, true);
    var runs := Runs(q, at);
    if i < end {
      assert runs[0].offset <= i < runs[0].offset + runs[0].length;
    } else {
      RunsCover(q, end, i);
      var rest := Runs(q, end);
      var k :| 0 <= k < |rest| && rest[k].offset <= i < rest[k].offset + rest[k].length;
      assert runs[k + 1] == rest[k];
    }
  }

  predicate Covered(runs: seq<Slot>, i: nat) {
    exists k | 0 <= k < |runs| :: runs[k].offset <= i < runs[k].offset + runs[k].length
  }

  predicate Before(s: Slot, t: Slot) {
    s.offset + s.length < t.offset
  }

  predicate Maximal(q: seq<Byte>, at: nat, s: Slot) {
    && Inside(q, s) && at <= s.offset
    && (forall i | s.offset <= i < s.offset + s.length :: !Separator(q[i]))
    && (s.offset == at || Separator(q[s.offset - 1]))
    && (s.offset + s.length == |q| || Separator(q[s.offset + s.length]))
  }

  lemma KnownMore(q: seq<Byte>, some: seq<Slot>, all: seq<Slot>, s: Slot)
    requires AllInside(q, all) && some <= all && Inside(q, s)
    ensures AllInside(q, some) && (Known(q, some, s) ==> Known(q, all, s))
  {
    hide FoldAll, Raw;
    assert AllInside(q, some);
    if Known(q, some, s) {
      var m :| 0 <= m < |some| && FoldAll(Raw(q, some[m])) == FoldAll(Raw(q, s));
      assert all[m] == some[m];
    }
  }

  /** The kept groups fold to different bytes, and every run folds to one of them. */
  lemma {:induction false} DistinctKeepsOne(q: seq<Byte>, runs: seq<Slot>)
    requires AllInside(q, runs)
    ensures forall i, j | 0 <= i < j < |Distinct(q, runs)| ::
              FoldAll(Raw(q, Distinct(q, runs)[i])) != FoldAll(Raw(q, Distinct(q, runs)[j]))
    ensures forall k | 0 <= k < |runs| :: Known(q, Distinct(q, runs), runs[k])
    ensures forall k | 0 <= k < |Distinct(q, runs)| :: Distinct(q, runs)[k] in runs
  {
    hide FoldAll, Raw;
    if runs != [] {
      DistinctKeepsOne(q, runs[..|runs| - 1]);
      var before := Distinct(q, runs[..|runs| - 1]);
      var r := Distinct(q, runs);
      assert before <= r;
      forall k | 0 <= k < |runs| ensures Known(q, r, runs[k]) {
        if k < |runs| - 1 {
          assert Known(q, before, runs[..|runs| - 1][k]);
          KnownMore(q, before, r, runs[k]);
        } else if r != before {
          assert r[|before|] == runs[k];
        }
      }
    }
  }

  // ----- yan_search_terms_parse

  method Parse(q: seq<Byte>) returns (r: Parsed)
    ensures r.Slots? <==> LegalQuery(q)
    ensures r.Slots? ==> AllInside(q, Runs(q, 0)) && r.slots == Distinct(q, Runs(q, 0))
  {
    RunsInside(q, 0);
    if |q| == 0 || |q| > QUERY_MAX {
      return Invalid;
    }
    for i := 0 to |q|
      invariant forall k | 0 <= k < i :: LegalByte(q[k])
    {
      var byte := q[i];
      if byte == 0 || (byte < 0x20 && byte != TAB) || byte == 0x7F {
        assert !LegalByte(q[i]);
        return Invalid;
      }
    }
    var utf8 := EditorText.Utf8Valid(q);
    if !utf8 {
      return Invalid;
    }
    var fits, slots := Split(q);
    if !fits || |slots| == 0 {
      return Invalid;
    }
    return Slots(slots);
  }

  /** The runs before `at` have been taken and deduplicated. */
  ghost predicate Taken(q: seq<Byte>, runs: seq<Slot>, at: nat, slots: seq<Slot>) {
    && at <= |q| && Runs(q, 0) == runs + Runs(q, at)
    && AllInside(q, runs) && RunsFit(q, runs)
    && slots == Distinct(q, runs)
  }

  /** The group loop of yan_search_terms_parse. */
  method Split(q: seq<Byte>) returns (fits: bool, slots: seq<Slot>)
    requires AllInside(q, Runs(q, 0))
    ensures fits <==> RunsFit(q, Runs(q, 0)) && |Distinct(q, Runs(q, 0))| <= GROUP_MAX
    ensures fits ==> slots == Distinct(q, Runs(q, 0))
  {
    hide Runs, Distinct, RunsFit, Known, WordsFit, Scan;
    slots := [];
    var at := 0;
    ghost var runs: seq<Slot> := [];
    TakenNone(q);
    while at < |q|
      invariant Taken(q, runs, at, slots) && |slots| <= GROUP_MAX
    {
      while at < |q| && Separator(q[at])
        invariant Taken(q, runs, at, slots)
        decreases |q| - at
      {
        SkipOne(q, at);
        at := at + 1;
      }
      if at >= |q| {
        break;
      }
      var start := at;
      var wordsFit;
      at, wordsFit := TakeRun(q, start);
      TakenMore(q, runs, start, slots);
      if !wordsFit {
        return false, slots;
      }
      var slot := Slot(start, at - start);
      var duplicate := IsKnown(q, slots, slot);
      runs := runs + [slot];
      if !duplicate {
        if |slots| >= GROUP_MAX {
          return false, slots;
        }
        slots := slots + [slot];
      }
    }
    TakenAll(q, runs, slots);
    fits := true;
  }

  lemma TakenNone(q: seq<Byte>)
    ensures Taken(q, [], 0, [])
  {
  }

  lemma TakenAll(q: seq<Byte>, runs: seq<Slot>, slots: seq<Slot>)
    requires Taken(q, runs, |q|, slots)
    ensures runs == Runs(q, 0)
    ensures AllInside(q, Runs(q, 0)) && slots == Distinct(q, Runs(q, 0)) && RunsFit(q, Runs(q, 0))
  {
    hide Distinct, RunsFit;
    assert Runs(q, |q|) == [];
    assert runs + [] == runs;
  }

  /** The run at start is the next one of the definition. */
  lemma {:induction false} TakenMore(q: seq<Byte>, runs: seq<Slot>, start: nat, slots: seq<Slot>)
    requires Taken(q, runs, start, slots) && start < |q| && !Separator(q[start]) && AllInside(q, Runs(q, 0))
    ensures var end := Scan(q, start, true);
            var slot := Slot(start, end - start);
            && start < end && Inside(q, slot) && AllInside(q, slots)
            && (!WordsFit(q, start, end) ==> !RunsFit(q, Runs(q, 0)))
            && |Distinct(q, Runs(q, 0))| >= |slots| + (if Known(q, slots, slot) then 0 else 1)
            && (WordsFit(q, start, end) ==>
                  Taken(q, runs + [slot], end, if Known(q, slots, slot) then slots else slots + [slot]))
  {
    hide WordsFit, Known, Scan, Runs, Distinct, Separator;
    var end := Scan(q, start, true);
    var slot := Slot(start, end - start);
    HeadRun(q, start);
    var more := runs + [slot];
    var rest := Runs(q, end);
    assert Runs(q, 0) == runs + ([slot] + rest) == more + rest;
    assert Runs(q, 0)[|runs|] == slot;
    DistinctSnoc(q, runs, slot);
    DistinctGrows(q, more, rest, Runs(q, 0));
  }

  lemma {:induction false} DistinctSnoc(q: seq<Byte>, runs: seq<Slot>, slot: Slot)
    requires AllInside(q, runs) && Inside(q, slot)
    ensures AllInside(q, runs + [slot])
    ensures var before := Distinct(q, runs);
            Distinct(q, runs + [slot]) == if Known(q, before, slot) then before else before + [slot]
  {
    hide Known;
    assert (runs + [slot])[..|runs|] == runs;
  }

  lemma {:induction false} SkipOne(q: seq<Byte>, at: nat)
    requires at < |q| && Separator(q[at])
    ensures Runs(q, at) == Runs(q, at + 1)
  {
    assert Scan(q, at, false) == Scan(q, at + 1, false);
  }

  lemma {:induction false} HeadRun(q: seq<Byte>, start: nat)
    requires start < |q| && !Separator(q[start])
    ensures var end := Scan(q, start, true);
            start < end && Runs(q, start) == [Slot(start, end - start)] + Runs(q, end)
  {
    assert Scan(q, start, false) == start;
  }

  lemma {:induction false} DistinctGrows(q: seq<Byte>, some: seq<Slot>, rest: seq<Slot>, all: seq<Slot>)
    requires all == some + rest && AllInside(q, all)
    ensures AllInside(q, some) && |Distinct(q, some)| <= |Distinct(q, all)|
    decreases rest
  {
    hide Known;
    forall k | 0 <= k < |some| ensures Inside(q, some[k]) {
      assert all[k] == some[k];
    }
    if rest == [] {
      assert all == some;
    } else {
      assert all[..|all| - 1] == some + rest[..|rest| - 1];
      DistinctGrows(q, some, rest[..|rest| - 1], all[..|all| - 1]);
    }
  }

  /** The inner loop: the end of the run, unless a word in it is too long. */
  method TakeRun(q: seq<Byte>, start: nat) returns (at: nat, fits: bool)
    requires start < |q| && !Separator(q[start])
    ensures fits <==> WordsFit(q, start, Scan(q, start, true))
    ensures fits ==> at == Scan(q, start, true)
  {
    hide Scan;
    at := start;
    ghost var end := Scan(q, start, true);
    var word := 0;
    while at < |q| && !Separator(q[at])
      invariant start <= at <= end
      invariant WordsFit(q, start, at)
      invariant word <= WORD_MAX && word <= at - start
      invariant forall k | at - word <= k < at :: Word(q[k])
      invariant word < at - start ==> !Word(q[at - word - 1])
    {
      WordsStep(q, start, at);
      if Word(q[at]) {
        word := word + 1;
        if word > WORD_MAX {
          assert !Broken(q, at - WORD_MAX);
          return at, false;
        }
        if at >= start + WORD_MAX {
          assert Broken(q, at - WORD_MAX) by { assert !Word(q[at + 1 - word - 1]); }
        }
      } else {
        word := 0;
        if at >= start + WORD_MAX { assert Broken(q, at - WORD_MAX); }
      }
      at := at + 1;
    }
    fits := true;
  }

  lemma WordsStep(q: seq<Byte>, start: nat, at: nat)
    requires start <= at < |q|
    ensures WordsFit(q, start, at + 1) <==>
              WordsFit(q, start, at) && (at - WORD_MAX >= start ==> Broken(q, at - WORD_MAX))
  {
  }

  /** The duplicate loop with group_equal. */
  method IsKnown(q: seq<Byte>, slots: seq<Slot>, s: Slot) returns (known: bool)
    requires AllInside(q, slots) && Inside(q, s)
    ensures known <==> Known(q, slots, s)
  {
    for g := 0 to |slots|
      invariant forall k | 0 <= k < g :: FoldAll(Raw(q, slots[k])) != FoldAll(Raw(q, s))
    {
      var equal := GroupEqual(q, s, slots[g]);
      if equal {
        return true;
      }
    }
    known := false;
  }

  /** group_equal */
  method GroupEqual(q: seq<Byte>, a: Slot, b: Slot) returns (equal: bool)
    requires Inside(q, a) && Inside(q, b)
    ensures equal <==> FoldAll(Raw(q, a)) == FoldAll(Raw(q, b))
  {
    if a.length != b.length {
      assert |FoldAll(Raw(q, a))| != |FoldAll(Raw(q, b))|;
      return false;
    }
    for i := 0 to a.length
      invariant forall k | 0 <= k < i :: FoldAll(Raw(q, a))[k] == FoldAll(Raw(q, b))[k]
    {
      assert FoldAll(Raw(q, a))[i] == Fold(q[a.offset + i]) && FoldAll(Raw(q, b))[i] == Fold(q[b.offset + i]);
      if Fold(q[a.offset + i]) != Fold(q[b.offset + i]) {
        return false;
      }
    }
    equal := true;
  }

  // ----- yan_search_terms_pattern_build

  function GroupOf(q: seq<Byte>, s: Slot): Group
    requires Inside(q, s)
  {
    Group(FoldAll(Raw(q, s)), Word(q[s.offset]), Word(q[s.offset + s.length - 1]))
  }

  function GroupsOf(q: seq<Byte>, slots: seq<Slot>): (r: seq<Group>)
    requires AllInside(q, slots)
    ensures |r| == |slots| && forall k | 0 <= k < |slots| :: r[k] == GroupOf(q, slots[k])
  {
    seq(|slots|, k requires 0 <= k < |slots| => GroupOf(q, slots[k]))
  }

  function TotalLength(slots: seq<Slot>): nat {
    if slots == [] then 0 else TotalLength(slots[..|slots| - 1]) + slots[|slots| - 1].length
  }

  lemma {:induction false} TotalPrefix(slots: seq<Slot>, k: nat)
    requires k < |slots|
    ensures TotalLength(slots[..k]) + slots[k].length == TotalLength(slots[..k + 1]) <= TotalLength(slots)
    decreases |slots|
  {
    assert slots[..k + 1][..k] == slots[..k];
    if k + 1 < |slots| {
      TotalPrefix(slots[..|slots| - 1], k);
      assert slots[..|slots| - 1][..k] == slots[..k] && slots[..|slots| - 1][..k + 1] == slots[..k + 1];
    } else {
      assert slots[..k + 1] == slots;
    }
  }

  /** The groups of a legal query are fit for the scanner: short enough for its ring, and
      free of LF, so no match crosses a line. */
  lemma LegalGroups(q: seq<Byte>)
    requires LegalQuery(q)
    ensures AllInside(q, Runs(q, 0))
    ensures var slots := Distinct(q, Runs(q, 0));
            forall k | 0 <= k < |slots| :: LegalGroup(GroupOf(q, slots[k]))
  {
    hide Runs, Distinct, LegalGroup;
    RunsInside(q, 0);
    RunsAreMaximal(q, 0);
    var slots := Distinct(q, Runs(q, 0));
    DistinctKeepsOne(q, Runs(q, 0));
    forall k | 0 <= k < |slots| ensures LegalGroup(GroupOf(q, slots[k])) {
      assert slots[k] in Runs(q, 0);
      var j :| 0 <= j < |Runs(q, 0)| && Runs(q, 0)[j] == slots[k];
      assert Maximal(q, 0, Runs(q, 0)[j]);
      MaximalLegal(q, slots[k]);
    }
  }

  lemma MaximalLegal(q: seq<Byte>, s: Slot)
    requires Maximal(q, 0, s) && |q| <= QUERY_MAX
    ensures LegalGroup(GroupOf(q, s))
  {
    var raw := Raw(q, s);
    forall i | 0 <= i < s.length ensures FoldAll(raw)[i] != LF {
      assert !Separator(q[s.offset + i]);
      assert raw[i] == q[s.offset + i];
    }
  }

  /** Every group is folded and its table built behind the previous one; null is INVALID. */
  method PatternBuild(q: seq<Byte>, slots: seq<Slot>, folded: array<Byte>, prefix: array<nat>) returns (r: Pattern?)
    requires AllInside(q, slots)
    modifies folded, prefix
    ensures r == null <==> slots == [] || TotalLength(slots) > folded.Length || TotalLength(slots) > prefix.Length
    ensures r != null ==> fresh(r) && r.folded == folded && r.prefix == prefix && r.groups == GroupsOf(q, slots)
    ensures r != null && |slots| <= GROUP_MAX && (forall k | 0 <= k < |slots| :: LegalGroup(GroupOf(q, slots[k]))) ==> r.Valid()
  {
    hide FoldAll, Word, Raw, Built, TotalLength;
    if |slots| == 0 {
      return null;
    }
    var total := Total(slots);
    if total > folded.Length || total > prefix.Length {
      return null;
    }
    var foldStart: seq<nat> := [];
    var at := 0;
    assert TotalLength(slots[..0]) == 0 by { NoLength(slots); }
    for g := 0 to |slots|
      invariant at == TotalLength(slots[..g]) && |foldStart| == g
      invariant forall k | 0 <= k < g :: foldStart[k] + slots[k].length <= at
      invariant forall k | 0 <= k < g :: Built(folded, prefix, foldStart[k], GroupOf(q, slots[k]))
    {
      TotalPrefix(slots, g);
      BuildGroup(q, slots, g, foldStart, folded, prefix, at);
      foldStart := foldStart + [at];
      at := at + slots[g].length;
    }
    r := new Pattern(folded, prefix, foldStart, GroupsOf(q, slots));
  }

  lemma NoLength(slots: seq<Slot>)
    ensures TotalLength(slots[..0]) == 0
  {
  }

  method Total(slots: seq<Slot>) returns (total: nat)
    ensures total == TotalLength(slots)
  {
    total := 0;
    for g := 0 to |slots|
      invariant total == TotalLength(slots[..g])
    {
      assert slots[..g + 1][..g] == slots[..g];
      total := total + slots[g].length;
    }
    assert slots[..|slots|] == slots;
  }

  method FoldGroup(q: seq<Byte>, slot: Slot, folded: array<Byte>, at: nat)
    requires Inside(q, slot) && at + slot.length <= folded.Length
    modifies folded
    ensures folded[at..at + slot.length] == FoldAll(Raw(q, slot))
    ensures forall i | 0 <= i < folded.Length && !(at <= i < at + slot.length) :: folded[i] == old(folded[i])
  {
    hide Fold;
    ghost var raw := Raw(q, slot);
    for j := 0 to slot.length
      invariant forall i | 0 <= i < folded.Length && !(at <= i < at + slot.length) :: folded[i] == old(folded[i])
      invariant forall i | at <= i < at + j :: folded[i] == Fold(raw[i - at])
    {
      assert raw[j] == q[slot.offset + j];
      folded[at + j] := Fold(q[slot.offset + j]);
    }
  }

  method BuildGroup(q: seq<Byte>, slots: seq<Slot>, g: nat, ghost foldStart: seq<nat>,
                    folded: array<Byte>, prefix: array<nat>, at: nat)
    requires AllInside(q, slots) && g < |slots| && |foldStart| == g
    requires at + slots[g].length <= folded.Length && at + slots[g].length <= prefix.Length
    requires forall k | 0 <= k < g :: foldStart[k] + slots[k].length <= at
    requires forall k | 0 <= k < g :: Built(folded, prefix, foldStart[k], GroupOf(q, slots[k]))
    modifies folded, prefix
    ensures Built(folded, prefix, at, GroupOf(q, slots[g]))
    ensures forall k | 0 <= k < g :: Built(folded, prefix, foldStart[k], GroupOf(q, slots[k]))
  {
    hide Table, Word, Fold, FoldAll;
    ghost var f, p := folded[..], prefix[..];
    var length := slots[g].length;
    FoldGroup(q, slots[g], folded, at);
    Build(folded, prefix, at, length);
    forall k | 0 <= k < g ensures Built(folded, prefix, foldStart[k], GroupOf(q, slots[k])) {
      var base, n := foldStart[k], slots[k].length;
      assert forall i | base <= i < base + n :: folded[i] == f[i] && prefix[i] == p[i];
      assert folded[base..base + n] == f[base..base + n];
      assert prefix[base..base + n] == p[base..base + n];
    }
  }
}
