/** What a term query asks for, read off the query, the line and the file alone: a group is found where its
    bytes stand, up to ASCII case, without cutting a word. */
module QueryLines {
  import opened Bytes
  import opened SearchRank
  import opened TermLines
  import opened TermQuery

  // ----- one group in one text

  /** The bytes `raw` end at position e of the text, up to case, and neither end of them cuts a word. */
  predicate Stands(text: seq<Byte>, raw: seq<Byte>, e: nat)
    requires e <= |text|
  {
    var n := |raw|;
    && 1 <= n <= e && SameUpToCase(text[e - n..e], raw)
    && !(e > n && Word(text[e - n - 1]) && Word(text[e - n]))
    && !(e < |text| && Word(text[e - 1]) && Word(text[e]))
  }

  predicate SameUpToCase(a: seq<Byte>, b: seq<Byte>) {
    |a| == |b| && forall i | 0 <= i < |a| :: SameLetter(a[i], b[i])
  }

  /** Equal, or the upper-case and lower-case form of one ASCII letter. */
  predicate SameLetter(a: Byte, b: Byte) {
    || a == b
    || ('a' as int <= a <= 'z' as int && b == a - 'a' as int + 'A' as int)
    || ('a' as int <= b <= 'z' as int && a == b - 'a' as int + 'A' as int)
  }

  lemma FoldMeaning(a: Byte, b: Byte)
    ensures Fold(a) == Fold(b) <==> SameLetter(a, b)
    ensures SameLetter(a, b) ==> (Word(a) <==> Word(b)) && (a == LF <==> b == LF)
  {
  }

  lemma FoldAllMeaning(a: seq<Byte>, b: seq<Byte>)
    ensures FoldAll(a) == FoldAll(b) <==> SameUpToCase(a, b)
  {
    hide Fold, SameLetter;
    if FoldAll(a) == FoldAll(b) {
      forall i | 0 <= i < |a|
        ensures SameLetter(a[i], b[i])
      {
        assert FoldAll(a)[i] == FoldAll(b)[i];
        FoldMeaning(a[i], b[i]);
      }
    }
    if SameUpToCase(a, b) {
      forall i | 0 <= i < |a|
        ensures FoldAll(a)[i] == FoldAll(b)[i]
      {
        FoldMeaning(a[i], b[i]);
      }
    }
  }

  /** The boundary flags of a built group forbid exactly the occurrences that cut a word. */
  lemma GroupStands(q: seq<Byte>, s: Slot, text: seq<Byte>, e: nat)
    requires Inside(q, s) && e <= |text|
    ensures EndsAt(text, GroupOf(q, s), e) <==> Stands(text, Raw(q, s), e)
  {
    hide Fold, FoldAll, Word, SameLetter;
    var raw, n := Raw(q, s), s.length;
    if n <= e {
      var t := text[e - n..e];
      FoldAllMeaning(t, raw);
      if SameUpToCase(t, raw) {
        assert raw[0] == q[s.offset] && raw[n - 1] == q[s.offset + n - 1];
        assert t[0] == text[e - n] && t[n - 1] == text[e - 1];
        FoldMeaning(t[0], raw[0]);
        FoldMeaning(t[n - 1], raw[n - 1]);
      }
    }
  }

  /** The places where the group ends. */
  function Ends(text: seq<Byte>, raw: seq<Byte>): set<nat> {
    EndsBy(text, raw, |text|)
  }

  function EndsBy(text: seq<Byte>, raw: seq<Byte>, e: nat): set<nat>
    requires e <= |text|
  {
    set f: nat | f <= e && Stands(text, raw, f)
  }

  /** The counted occurrences are those places; overlapping ones count each. */
  lemma {:induction false} OccurrencesAreEnds(q: seq<Byte>, s: Slot, text: seq<Byte>, e: nat)
    requires Inside(q, s) && e <= |text|
    ensures Occurrences(text, GroupOf(q, s), e) == |EndsBy(text, Raw(q, s), e)|
  {
    hide EndsAt, Stands, GroupOf;
    var raw := Raw(q, s);
    assert !Stands(text, raw, 0) by { NeverAtZero(text, raw); }
    if e == 0 {
      assert EndsBy(text, raw, 0) == {};
    } else {
      OccurrencesAreEnds(q, s, text, e - 1);
      GroupStands(q, s, text, e);
      if Stands(text, raw, e) {
        assert EndsBy(text, raw, e) == EndsBy(text, raw, e - 1) + {e};
      } else {
        assert EndsBy(text, raw, e) == EndsBy(text, raw, e - 1);
      }
    }
  }

  lemma NeverAtZero(text: seq<Byte>, raw: seq<Byte>)
    ensures !Stands(text, raw, 0)
  {
  }

  // ----- all groups in one line

  /** Every group is found in the line. */
  predicate Wanted(text: seq<Byte>, q: seq<Byte>, slots: seq<Slot>)
    requires AllInside(q, slots)
  {
    slots != [] && forall k | 0 <= k < |slots| :: Ends(text, Raw(q, slots[k])) != {}
  }

  /** The sum over the groups of the places found, each counted up to 255. */
  function Worth(text: seq<Byte>, q: seq<Byte>, slots: seq<Slot>): nat
    requires AllInside(q, slots)
  {
    if slots == [] then 0
    else
      var n := |Ends(text, Raw(q, slots[0]))|;
      (if n < 255 then n else 255) + Worth(text, q, slots[1..])
  }

  /** Some group stands at s. */
  predicate Begins(text: seq<Byte>, q: seq<Byte>, slots: seq<Slot>, s: nat)
    requires AllInside(q, slots)
  {
    exists k | 0 <= k < |slots| :: BeginsOne(text, Raw(q, slots[k]), s)
  }

  predicate BeginsOne(text: seq<Byte>, raw: seq<Byte>, s: nat) {
    s + |raw| <= |text| && Stands(text, raw, s + |raw|)
  }

  lemma CompleteIsWanted(text: seq<Byte>, q: seq<Byte>, slots: seq<Slot>)
    requires AllInside(q, slots)
    ensures Complete(text, GroupsOf(q, slots)) <==> Wanted(text, q, slots)
  {
    hide GroupOf, EndsBy, Occurrences, Raw;
    forall k | 0 <= k < |slots|
      ensures Occurrences(text, GroupsOf(q, slots)[k], |text|) > 0 <==> Ends(text, Raw(q, slots[k])) != {}
    {
      OccurrencesAreEnds(q, slots[k], text, |text|);
    }
  }

  lemma {:induction false} ScoreIsWorth(text: seq<Byte>, q: seq<Byte>, slots: seq<Slot>)
    requires AllInside(q, slots)
    ensures Score(text, GroupsOf(q, slots)) == Worth(text, q, slots)
  {
    hide GroupOf, EndsBy, Occurrences, Raw;
    if slots != [] {
      var front, last := slots[..|slots| - 1], slots[|slots| - 1];
      ScoreIsWorth(text, q, front);
      assert GroupsOf(q, slots)[..|slots| - 1] == GroupsOf(q, front);
      OccurrencesAreEnds(q, last, text, |text|);
      WorthSnoc(text, q, front, last);
      assert front + [last] == slots;
    }
  }

  lemma {:induction false} WorthSnoc(text: seq<Byte>, q: seq<Byte>, front: seq<Slot>, last: Slot)
    requires AllInside(q, front) && Inside(q, last)
    ensures AllInside(q, front + [last])
    ensures Worth(text, q, front + [last])
            == Worth(text, q, front) + (if |Ends(text, Raw(q, last))| < 255 then |Ends(text, Raw(q, last))| else 255)
  {
    hide EndsBy, Ends, Raw;
    if front != [] {
      WorthSnoc(text, q, front[1..], last);
      assert (front + [last])[1..] == front[1..] + [last];
    } else {
      assert ([last])[1..] == [];
    }
  }

  lemma {:induction false} SpanIsBegins(text: seq<Byte>, q: seq<Byte>, slots: seq<Slot>, k: nat, s: nat, f: nat)
    requires AllInside(q, slots) && k < |slots| && f <= |text|
    ensures Spans(text, GroupsOf(q, slots), k, s, f) <==> f == s + |Raw(q, slots[k])| && BeginsOne(text, Raw(q, slots[k]), s)
  {
    hide Stands, EndsAt;
    GroupStands(q, slots[k], text, f);
  }

  lemma {:induction false} StartsIsBegins(text: seq<Byte>, q: seq<Byte>, slots: seq<Slot>, s: nat)
    requires AllInside(q, slots)
    ensures Starts(text, GroupsOf(q, slots), s, |text|) <==> Begins(text, q, slots, s)
  {
    hide Stands, EndsAt, Spans, BeginsOne, GroupOf, Raw;
    var gs := GroupsOf(q, slots);
    if Starts(text, gs, s, |text|) {
      var k, f :| 0 <= k < |gs| && 0 <= f <= |text| && Spans(text, gs, k, s, f);
      SpanIsBegins(text, q, slots, k, s, f);
    }
    if Begins(text, q, slots, s) {
      var k :| 0 <= k < |slots| && BeginsOne(text, Raw(q, slots[k]), s);
      var f := s + |Raw(q, slots[k])|;
      Fits(text, Raw(q, slots[k]), s);
      SpanIsBegins(text, q, slots, k, s, f);
    }
  }

  lemma Fits(text: seq<Byte>, raw: seq<Byte>, s: nat)
    requires BeginsOne(text, raw, s)
    ensures s + |raw| <= |text|
  {
  }

  // ----- lines of a file

  /** l is a line of the file: it lies between line feeds or ends of the file, with its number. */
  predicate LineOf(file: seq<Byte>, l: TermLine) {
    && l.start < |file| && l.start + |l.text| <= |file| && l.text == file[l.start..l.start + |l.text|]
    && LF !in l.text
    && (l.start == 0 || file[l.start - 1] == LF)
    && (l.start + |l.text| == |file| || file[l.start + |l.text|] == LF)
    && l.number == 1 + Count(file[..l.start], LF)
  }

  predicate AllLines(file: seq<Byte>, lines: seq<TermLine>, from: nat) {
    && (forall k | 0 <= k < |lines| :: LineOf(file, lines[k]) && lines[k].start >= from)
    && (forall j, k | 0 <= j < k < |lines| :: lines[j].start < lines[k].start && lines[j].number < lines[k].number)
    && (forall p | from <= p < |file| && (p == from || file[p - 1] == LF) :: LineAtStart(lines, p))
  }

  predicate LineAtStart(lines: seq<TermLine>, p: nat) {
    exists k :: 0 <= k < |lines| && lines[k].start == p
  }

  /** The scanned lines are the lines of the file, all of them, in order. */
  lemma {:induction false} TermLinesAreLines(file: seq<Byte>, start: nat)
    requires start <= |file| && (start == 0 || start == |file| || file[start - 1] == LF)
    ensures AllLines(file, TermLinesFrom(file, start, 1 + Count(file[..start], LF)), start)
    decreases |file| - start
  {
    hide Count, LineOf, AllLines;
    if start == |file| { NothingLeft(file); }
    if start < |file| {
      var number := 1 + Count(file[..start], LF);
      var lf := IndexFrom(file, LF, start);
      var next := if lf < |file| then lf + 1 else lf;
      var l := TermLine(start, file[start..lf], number);
      var rest := TermLinesFrom(file, next, number + 1);
      assert TermLinesFrom(file, start, number) == [l] + rest;
      LineHere(file, start, lf);
      if lf < |file| {
        CountLine(file, start, lf);
        TermLinesAreLines(file, next);
      } else {
        assert rest == [];
      }
      Consed(file, l, rest, lf, next);
    }
  }

  lemma NothingLeft(file: seq<Byte>)
    ensures AllLines(file, [], |file|)
  {
  }

  lemma LineHere(file: seq<Byte>, start: nat, lf: nat)
    requires start < |file| && lf == IndexFrom(file, LF, start) && (start == 0 || file[start - 1] == LF)
    ensures LineOf(file, TermLine(start, file[start..lf], 1 + Count(file[..start], LF)))
  {
    hide Count;
  }

  lemma CountLine(file: seq<Byte>, start: nat, lf: nat)
    requires start <= lf < |file| && file[lf] == LF && forall k | start <= k < lf :: file[k] != LF
    ensures Count(file[..lf + 1], LF) == Count(file[..start], LF) + 1
  {
    hide Count;
    assert file[..lf + 1] == file[..start] + (file[start..lf] + [LF]);
    CountConcat(file[..start], file[start..lf] + [LF], LF);
    CountConcat(file[start..lf], [LF], LF);
    NoneThere(file[start..lf]);
    OneThere();
  }

  lemma {:induction false} NoneThere(s: seq<Byte>)
    requires LF !in s
    ensures Count(s, LF) == 0
  {
    if s != [] { NoneThere(s[..|s| - 1]); }
  }

  lemma OneThere()
    ensures Count([LF], LF) == 1
  {
    assert [LF][..0] == [];
  }

  lemma Consed(file: seq<Byte>, l: TermLine, rest: seq<TermLine>, lf: nat, next: nat)
    requires LineOf(file, l) && l.start <= lf <= |file| && (forall k | l.start <= k < lf :: file[k] != LF)
    requires next == (if lf < |file| then lf + 1 else lf) && (lf < |file| ==> file[lf] == LF)
    requires lf == |file| ==> rest == []
    requires lf < |file| ==> AllLines(file, rest, next) && 1 + Count(file[..next], LF) == l.number + 1
    ensures AllLines(file, [l] + rest, l.start)
  {
    hide Count, LineOf;
    var lines := [l] + rest;
    assert forall k | 1 <= k < |lines| :: lines[k] == rest[k - 1];
    forall k | 0 <= k < |rest|
      ensures l.start < rest[k].start && l.number < rest[k].number
    {
      assert LineOf(file, rest[k]) && rest[k].start >= next;
      LaterNumber(file, rest[k], next);
    }
    forall p | l.start <= p < |file| && (p == l.start || file[p - 1] == LF)
      ensures LineAtStart(lines, p)
    {
      if p == l.start {
        assert lines[0].start == p;
      } else {
        assert p >= next;
        assert LineAtStart(rest, p);
        var k :| 0 <= k < |rest| && rest[k].start == p;
        assert lines[k + 1].start == p;
      }
    }
  }

  lemma LaterNumber(file: seq<Byte>, l: TermLine, next: nat)
    requires LineOf(file, l) && l.start >= next
    ensures l.number >= 1 + Count(file[..next], LF)
  {
    hide Count;
    assert file[..l.start] == file[..next] + file[next..l.start];
    CountConcat(file[..next], file[next..l.start], LF);
  }

  // ----- the entries of one file

  /** The line is entered with its name, slot, size, number, worth, and the first place of any group. */
  predicate Entered(c: Candidate, name: seq<Byte>, slot: nat, file: seq<Byte>, q: seq<Byte>, slots: seq<Slot>, l: TermLine)
    requires AllInside(q, slots)
  {
    && c.name == name && c.slot == slot && c.fileSize == |file| && c.lineNumber == l.number
    && c.score == Worth(l.text, q, slots)
    && c.anchor >= l.start && Begins(l.text, q, slots, c.anchor - l.start)
    && forall s | 0 <= s < c.anchor - l.start :: !Begins(l.text, q, slots, s)
  }

  lemma EntryEntered(c: Candidate, name: seq<Byte>, slot: nat, file: seq<Byte>, q: seq<Byte>, slots: seq<Slot>, l: TermLine)
    requires AllInside(q, slots) && EntryOf(c, name, slot, |file|, GroupsOf(q, slots), l)
    ensures Entered(c, name, slot, file, q, slots, l)
  {
    hide Score, Worth, Starts, Begins;
    ScoreIsWorth(l.text, q, slots);
    StartsIsBegins(l.text, q, slots, c.anchor - l.start);
    forall s: nat | s < c.anchor - l.start
      ensures !Begins(l.text, q, slots, s)
    {
      StartsIsBegins(l.text, q, slots, s);
    }
  }

  /** Some wanted line of the file has this entry. */
  ghost predicate FromLine(c: Candidate, name: seq<Byte>, slot: nat, file: seq<Byte>, q: seq<Byte>, slots: seq<Slot>)
    requires AllInside(q, slots)
  {
    exists l :: LineOf(file, l) && Wanted(l.text, q, slots) && Entered(c, name, slot, file, q, slots, l)
  }

  /** The line has an entry. */
  ghost predicate HasEntry(entries: seq<Candidate>, name: seq<Byte>, slot: nat, file: seq<Byte>, q: seq<Byte>, slots: seq<Slot>, l: TermLine)
    requires AllInside(q, slots)
  {
    exists i :: 0 <= i < |entries| && Entered(entries[i], name, slot, file, q, slots, l)
  }

  /** The entries are, in line order, one for each wanted line of the file. */
  ghost predicate RanksFile(entries: seq<Candidate>, name: seq<Byte>, slot: nat, file: seq<Byte>, q: seq<Byte>, slots: seq<Slot>)
    requires AllInside(q, slots)
  {
    && (forall i | 0 <= i < |entries| :: FromLine(entries[i], name, slot, file, q, slots))
    && (forall l | LineOf(file, l) && Wanted(l.text, q, slots) :: HasEntry(entries, name, slot, file, q, slots, l))
    && (forall i, j | 0 <= i < j < |entries| :: entries[i].lineNumber < entries[j].lineNumber)
  }

  // ----- the entries of the scan are those of the definition

  ghost predicate Among(c: Candidate, name: seq<Byte>, slot: nat, size: nat, groups: seq<Group>, lines: seq<TermLine>) {
    exists j :: 0 <= j < |lines| && Complete(lines[j].text, groups) && EntryOf(c, name, slot, size, groups, lines[j])
  }

  ghost predicate EntryFor(entries: seq<Candidate>, name: seq<Byte>, slot: nat, size: nat, groups: seq<Group>, l: TermLine) {
    exists i :: 0 <= i < |entries| && EntryOf(entries[i], name, slot, size, groups, l)
  }

  predicate NumbersAscend(lines: seq<TermLine>) {
    forall j, k | 0 <= j < k < |lines| :: lines[j].number < lines[k].number
  }

  function Earlier(entries: seq<Candidate>, groups: seq<Group>, lines: seq<TermLine>): seq<Candidate>
    requires lines != []
  {
    if Complete(lines[|lines| - 1].text, groups) && entries != [] then entries[..|entries| - 1] else entries
  }

  /** The last line and the lines before it. */
  lemma EntriesStep(entries: seq<Candidate>, name: seq<Byte>, slot: nat, size: nat, groups: seq<Group>, lines: seq<TermLine>)
    requires Entries(entries, name, slot, size, groups, lines) && lines != []
    ensures Entries(Earlier(entries, groups, lines), name, slot, size, groups, lines[..|lines| - 1])
    ensures Complete(lines[|lines| - 1].text, groups) ==>
              && entries != [] && entries == Earlier(entries, groups, lines) + [entries[|entries| - 1]]
              && EntryOf(entries[|entries| - 1], name, slot, size, groups, lines[|lines| - 1])
    ensures !Complete(lines[|lines| - 1].text, groups) ==> entries == Earlier(entries, groups, lines)
  {
    hide Complete, EntryOf;
  }

  /** Every entry is that of a complete line, and the entries ascend. */
  lemma {:induction false} EntriesAmong(entries: seq<Candidate>, name: seq<Byte>, slot: nat, size: nat, groups: seq<Group>, lines: seq<TermLine>)
    requires Entries(entries, name, slot, size, groups, lines) && NumbersAscend(lines)
    ensures forall i | 0 <= i < |entries| :: Among(entries[i], name, slot, size, groups, lines)
    ensures forall i, j | 0 <= i < j < |entries| :: entries[i].lineNumber < entries[j].lineNumber
    decreases lines
  {
    hide Complete, EntryOf, Entries, Among, Earlier;
    if lines != [] {
      var before, last := Earlier(entries, groups, lines), lines[|lines| - 1];
      EntriesStep(entries, name, slot, size, groups, lines);
      EntriesAmong(before, name, slot, size, groups, lines[..|lines| - 1]);
      forall i | 0 <= i < |before|
        ensures Among(before[i], name, slot, size, groups, lines) && before[i].lineNumber < last.number
      {
        AmongMore(before[i], name, slot, size, groups, lines);
      }
      if Complete(last.text, groups) {
        AmongLast(entries[|entries| - 1], name, slot, size, groups, lines);
      }
    } else {
      assert entries == [] by { NoEntries(entries, name, slot, size, groups); }
    }
  }

  lemma NoEntries(entries: seq<Candidate>, name: seq<Byte>, slot: nat, size: nat, groups: seq<Group>)
    requires Entries(entries, name, slot, size, groups, [])
    ensures entries == []
  {
  }

  lemma AmongLast(c: Candidate, name: seq<Byte>, slot: nat, size: nat, groups: seq<Group>, lines: seq<TermLine>)
    requires lines != [] && Complete(lines[|lines| - 1].text, groups) && EntryOf(c, name, slot, size, groups, lines[|lines| - 1])
    ensures Among(c, name, slot, size, groups, lines) && c.lineNumber == lines[|lines| - 1].number
  {
    hide Complete;
  }

  /** Every complete line has an entry. */
  lemma {:induction false} EntriesCover(entries: seq<Candidate>, name: seq<Byte>, slot: nat, size: nat, groups: seq<Group>, lines: seq<TermLine>, j: nat)
    requires Entries(entries, name, slot, size, groups, lines) && j < |lines| && Complete(lines[j].text, groups)
    ensures EntryFor(entries, name, slot, size, groups, lines[j])
    decreases lines
  {
    hide Complete, EntryOf, Entries;
    EntriesStep(entries, name, slot, size, groups, lines);
    if j < |lines| - 1 {
      var before := Earlier(entries, groups, lines);
      EntriesCover(before, name, slot, size, groups, lines[..|lines| - 1], j);
      var i :| 0 <= i < |before| && EntryOf(before[i], name, slot, size, groups, lines[j]);
      assert entries[i] == before[i];
    }
  }

  lemma AmongMore(c: Candidate, name: seq<Byte>, slot: nat, size: nat, groups: seq<Group>, lines: seq<TermLine>)
    requires lines != [] && Among(c, name, slot, size, groups, lines[..|lines| - 1]) && NumbersAscend(lines)
    ensures Among(c, name, slot, size, groups, lines) && c.lineNumber < lines[|lines| - 1].number
  {
    hide Complete;
    var before := lines[..|lines| - 1];
    var j :| 0 <= j < |before| && Complete(before[j].text, groups) && EntryOf(c, name, slot, size, groups, before[j]);
    assert lines[j] == before[j];
  }

  /** What the scan of a file with the pattern of a query adds to the ranking. */
  lemma ScanRanksFile(entries: seq<Candidate>, name: seq<Byte>, slot: nat, file: seq<Byte>, q: seq<Byte>, slots: seq<Slot>)
    requires AllInside(q, slots) && Entries(entries, name, slot, |file|, GroupsOf(q, slots), TermLinesFrom(file, 0, 1))
    ensures RanksFile(entries, name, slot, file, q, slots)
  {
    hide Entries, Complete, EntryOf, Wanted, Entered, LineOf, TermLinesFrom;
    var gs, lines := GroupsOf(q, slots), TermLinesFrom(file, 0, 1);
    assert file[..0] == [];
    TermLinesAreLines(file, 0);
    EntriesAmong(entries, name, slot, |file|, gs, lines);
    forall i | 0 <= i < |entries|
      ensures FromLine(entries[i], name, slot, file, q, slots)
    {
      assert Among(entries[i], name, slot, |file|, gs, lines);
      var j :| 0 <= j < |lines| && Complete(lines[j].text, gs) && EntryOf(entries[i], name, slot, |file|, gs, lines[j]);
      CompleteIsWanted(lines[j].text, q, slots);
      EntryEntered(entries[i], name, slot, file, q, slots, lines[j]);
      assert LineOf(file, lines[j]);
    }
    forall l | LineOf(file, l) && Wanted(l.text, q, slots)
      ensures HasEntry(entries, name, slot, file, q, slots, l)
    {
      var j := LineListed(file, l, lines);
      CompleteIsWanted(l.text, q, slots);
      EntriesCover(entries, name, slot, |file|, gs, lines, j);
      var i :| 0 <= i < |entries| && EntryOf(entries[i], name, slot, |file|, gs, lines[j]);
      EntryEntered(entries[i], name, slot, file, q, slots, lines[j]);
    }
  }

  lemma LineListed(file: seq<Byte>, l: TermLine, lines: seq<TermLine>) returns (j: nat)
    requires AllLines(file, lines, 0) && LineOf(file, l)
    ensures j < |lines| && lines[j] == l
  {
    hide Count;
    assert LineAtStart(lines, l.start);
    var k :| 0 <= k < |lines| && lines[k].start == l.start;
    j := k;
    assert LineOf(file, lines[j]);
    SameEnd(file, l, lines[j]);
  }

  /** Two lines that start together are one. */
  lemma SameEnd(file: seq<Byte>, l: TermLine, m: TermLine)
    requires LineOf(file, l) && LineOf(file, m) && l.start == m.start
    ensures l == m
  {
    hide Count;
    EndOf(file, l);
    EndOf(file, m);
  }

  lemma EndOf(file: seq<Byte>, l: TermLine)
    requires LineOf(file, l)
    ensures l.start + |l.text| == IndexFrom(file, LF, l.start)
  {
    hide Count;
    var e := IndexFrom(file, LF, l.start);
    assert forall k | l.start <= k < l.start + |l.text| :: file[k] == l.text[k - l.start];
  }
}
