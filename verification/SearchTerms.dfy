/** os/search_terms_core.c: one pass over a file, with one KMP machine per group, a history
    ring for the left word boundary, one byte of lookahead for the right one, and per-line
    counters, must rank exactly the lines TermLines defines. */
module SearchTerms {
  import opened Bytes
  import opened Kmp
  import opened SearchRank
  import opened TermLines
  import FileSource
  import LegalText
  import Utf8

  datatype Status = Ok | Protocol | Failed(code: nat)

  const RING: nat := 1024
  const CHUNK: nat := 4096
  const GROUP_MAX: nat := 16

  // ----- one group at one byte

  lemma FoldAllSnoc(s: seq<Byte>, b: Byte)
    ensures FoldAll(s + [b]) == FoldAll(s) + [Fold(b)]
  {
  }

  /** The machine's full match is an occurrence of the folded group. */
  lemma FullMatch(file: seq<Byte>, g: Group, e: nat)
    requires e <= |file|
    ensures var n := |g.folded|;
            EndsWith(FoldAll(file[..e]), g.folded, n) <==> n <= e && FoldAll(file[e - n..e]) == g.folded
  {
    var n := |g.folded|;
    if n <= e {
      var t := FoldAll(file[..e]);
      assert t[e - n..] == FoldAll(file[e - n..e]);
      assert g.folded[..n] == g.folded;
    }
  }

  lemma NoMatchOnLf(t: seq<Byte>, g: Group)
    requires LegalGroup(g) && t != [] && t[|t| - 1] == LF
    ensures !EndsWith(t, g.folded, |g.folded|)
  {
    var n := |g.folded|;
    assert g.folded[..n] == g.folded && g.folded[n - 1] != LF;
    if n <= |t| { assert t[|t| - n..][n - 1] == LF; }
  }

  // ----- the earliest start, group by group

  /** Starts of occurrences that end by e, or at e + 1 for the first g groups. */
  predicate Seen(text: seq<Byte>, groups: seq<Group>, s: nat, e: nat, g: nat)
    requires e <= |text| && g <= |groups| && (g > 0 ==> e < |text|)
  {
    || Starts(text, groups, s, e)
    || (exists k | 0 <= k < g :: SpansNext(text, groups, k, s, e))
  }

  predicate SpansNext(text: seq<Byte>, groups: seq<Group>, k: nat, s: nat, e: nat)
    requires k < |groups| && e < |text|
  {
    Spans(text, groups, k, s, e + 1)
  }

  /** have and anchor describe the least start seen, if any. */
  ghost predicate AnchorIs(text: seq<Byte>, groups: seq<Group>, have: bool, anchor: int, e: nat, g: nat)
    requires e <= |text| && g <= |groups| && (g > 0 ==> e < |text|)
  {
    && (have ==> anchor >= 0 && Seen(text, groups, anchor, e, g))
    && (forall s: nat :: Seen(text, groups, s, e, g) ==> have && anchor <= s)
  }

  lemma AnchorNext(text: seq<Byte>, groups: seq<Group>, have: bool, anchor: int, e: nat, g: nat,
                   have': bool, anchor': int)
    requires e < |text| && g < |groups| && AnchorIs(text, groups, have, anchor, e, g)
    requires var hit := EndsAt(text, groups[g], e + 1);
             var s := e + 1 - |groups[g].folded|;
             have' == (have || hit) && anchor' == if hit && (!have || s < anchor) then s else anchor
    ensures AnchorIs(text, groups, have', anchor', e, g + 1)
  {
    var hit := EndsAt(text, groups[g], e + 1);
    var g1 := g + 1;
    forall r: nat
      ensures Seen(text, groups, r, e, g1) <==> Seen(text, groups, r, e, g) || SpansNext(text, groups, g, r, e)
    {
      SeenSnoc(text, groups, r, e, g);
    }
    if hit && e + 1 - |groups[g].folded| >= 0 {
      assert SpansNext(text, groups, g, e + 1 - |groups[g].folded|, e);
    }
    if have { assert Seen(text, groups, anchor, e, g); }
  }

  lemma SeenSnoc(text: seq<Byte>, groups: seq<Group>, s: nat, e: nat, g: nat)
    requires e < |text| && g < |groups|
    ensures Seen(text, groups, s, e, g + 1) <==> Seen(text, groups, s, e, g) || SpansNext(text, groups, g, s, e)
  {
    hide Starts, SpansNext;
  }

  lemma AnchorCarry(text: seq<Byte>, groups: seq<Group>, have: bool, anchor: int, e: nat)
    requires e < |text| && AnchorIs(text, groups, have, anchor, e, |groups|)
    ensures AnchorIs(text, groups, have, anchor, e + 1, 0)
  {
    hide Seen;
    var e1 := e + 1;
    forall s: nat ensures Seen(text, groups, s, e1, 0) <==> Seen(text, groups, s, e, |groups|) {
      SeenCarry(text, groups, s, e);
    }
    if have { assert Seen(text, groups, anchor, e, |groups|); }
  }

  lemma SeenCarry(text: seq<Byte>, groups: seq<Group>, s: nat, e: nat)
    requires e < |text|
    ensures Seen(text, groups, s, e + 1, 0) <==> Seen(text, groups, s, e, |groups|)
  {
    if Starts(text, groups, s, e) {
      var k, f :| 0 <= k < |groups| && 0 <= f <= e && Spans(text, groups, k, s, f);
      assert Starts(text, groups, s, e + 1);
    }
    if k :| 0 <= k < |groups| && SpansNext(text, groups, k, s, e) {
      assert Spans(text, groups, k, s, e + 1);
    }
    if Starts(text, groups, s, e + 1) {
      var k, f :| 0 <= k < |groups| && 0 <= f <= e + 1 && Spans(text, groups, k, s, f);
      if f <= e { assert Starts(text, groups, s, e); } else { assert SpansNext(text, groups, k, s, e); }
    }
  }

  /** Initially nothing has been seen: an occurrence ends past the line start. */
  lemma AnchorStart(text: seq<Byte>, groups: seq<Group>, anchor: int)
    requires forall k | 0 <= k < |groups| :: LegalGroup(groups[k])
    ensures AnchorIs(text, groups, false, anchor, 0, 0)
  {
  }

  // ----- the ring of word flags

  predicate RingHolds(ring: seq<bool>, file: seq<Byte>, pos: nat) {
    |ring| == RING && pos <= |file| &&
    forall k | 0 <= k < pos && pos <= k + RING :: ring[k % RING] == Word(file[k])
  }

  lemma RingStep(ring: seq<bool>, file: seq<Byte>, pos: nat)
    requires RingHolds(ring, file, pos) && pos < |file|
    ensures RingHolds(ring[pos % RING := Word(file[pos])], file, pos + 1)
  {
    var next := ring[pos % RING := Word(file[pos])];
    forall k | 0 <= k < pos + 1 && pos + 1 <= k + RING ensures next[k % RING] == Word(file[k]) {
      if k < pos { DistinctCells(k, pos); }
    }
  }

  lemma DistinctCells(k: nat, pos: nat)
    requires k < pos < k + RING
    ensures k % RING != pos % RING
  {
  }

  // ----- the scanner

  /** A group and its table lie at base in the two shared buffers. */
  ghost predicate Built(folded: array<Byte>, prefix: array<nat>, base: nat, g: Group)
    reads folded, prefix
  {
    var n := |g.folded|;
    && base + n <= folded.Length && base + n <= prefix.Length
    && folded[base..base + n] == g.folded
    && Table(g.folded, prefix[base..base + n], n)
  }

  /** The built pattern: every group's folded bytes and table lie in two shared buffers. */
  class Pattern {
    const folded: array<Byte>
    const prefix: array<nat>
    const foldStart: seq<nat>
    const groups: seq<Group>

    constructor (folded: array<Byte>, prefix: array<nat>, foldStart: seq<nat>, groups: seq<Group>)
      ensures this.folded == folded && this.prefix == prefix && this.foldStart == foldStart && this.groups == groups
    {
      this.folded, this.prefix, this.foldStart, this.groups := folded, prefix, foldStart, groups;
    }

    ghost predicate GroupBuilt(k: nat)
      requires k < |groups| == |foldStart|
      reads folded, prefix
    {
      Built(folded, prefix, foldStart[k], groups[k])
    }

    ghost predicate Valid()
      reads folded, prefix
    {
      && 1 <= |groups| <= GROUP_MAX && |foldStart| == |groups|
      && (forall k | 0 <= k < |groups| :: LegalGroup(groups[k]))
      && (forall k | 0 <= k < |groups| :: GroupBuilt(k))
    }
  }

  function Reach(current: nat, lf: nat, pos: nat): nat
    requires current <= lf && current <= pos
  {
    Min(pos, lf) - current
  }

  /** One group's machine and counter after the file bytes before pos. */
  predicate Tracks(file: seq<Byte>, current: nat, lf: nat, g: Group, state: nat, count: nat, pos: nat)
    requires current <= lf <= |file| && current <= pos <= |file|
  {
    && Longest(FoldAll(file[..pos]), g.folded, state, |g.folded|)
    && count == Min(COUNT_CAP, Occurrences(file[current..lf], g, Reach(current, lf, pos)))
  }

  /** At a full match the boundary checks on the ring and on the next byte decide whether an
      occurrence of the line's text ends here. */
  lemma Boundary(file: seq<Byte>, g: Group, ring: seq<bool>, current: nat, lf: nat, pos: nat)
    requires LegalGroup(g) && pos < lf && LineAround(file, current, lf, pos)
    requires RingHolds(ring, file, pos + 1)
    requires EndsWith(FoldAll(file[..pos + 1]), g.folded, |g.folded|)
    ensures var start := pos + 1 - |g.folded|;
            && start >= current
            && (start > 0 ==> ring[(start - 1) % RING] == Word(file[start - 1]))
            && (EndsAt(file[current..lf], g, pos + 1 - current) <==>
                && (g.leftWord ==> start == 0 || !Word(file[start - 1]))
                && (g.rightWord ==> pos + 1 == |file| || !Word(file[pos + 1])))
  {
    hide FoldAll, Word, EndsWith, RingHolds, EndsAt;
    FullMatch(file, g, pos + 1);
    LineLocal(file, g, current, lf, pos + 1);
    StartInLine(file, g, current, pos);
    AtFullMatch(file, g, pos + 1);
    if pos + 1 > |g.folded| { RingRead(ring, file, pos + 1, pos - |g.folded|); }
  }

  lemma AtFullMatch(file: seq<Byte>, g: Group, e: nat)
    requires e <= |file| && |g.folded| <= e && FoldAll(file[e - |g.folded|..e]) == g.folded
    ensures var start := e - |g.folded|;
            EndsAt(file, g, e) <==>
              && (g.leftWord ==> start == 0 || !Word(file[start - 1]))
              && (g.rightWord ==> e == |file| || !Word(file[e]))
  {
    hide FoldAll, Word;
  }

  lemma RingRead(ring: seq<bool>, file: seq<Byte>, pos: nat, k: nat)
    requires RingHolds(ring, file, pos) && k < pos <= k + RING
    ensures ring[k % RING] == Word(file[k])
  {
  }

  lemma StartInLine(file: seq<Byte>, g: Group, current: nat, pos: nat)
    requires LegalGroup(g) && current <= pos < |file| && (current > 0 ==> file[current - 1] == LF)
    requires |g.folded| <= pos + 1
    ensures FoldAll(file[pos + 1 - |g.folded|..pos + 1]) == g.folded ==> pos + 1 - |g.folded| >= current
  {
    var start := pos + 1 - |g.folded|;
    if start < current {
      assert FoldAll(file[start..pos + 1])[current - 1 - start] == Fold(file[current - 1]) == LF;
    }
  }

  lemma NotFull(file: seq<Byte>, g: Group, current: nat, lf: nat, pos: nat)
    requires LegalGroup(g) && pos < lf && LineAround(file, current, lf, pos)
    requires !EndsWith(FoldAll(file[..pos + 1]), g.folded, |g.folded|)
    ensures !EndsAt(file[current..lf], g, pos + 1 - current)
  {
    FullMatch(file, g, pos + 1);
    LineLocal(file, g, current, lf, pos + 1);
  }

  /** The counter and the machine after the byte at pos. */
  lemma TrackNext(file: seq<Byte>, current: nat, lf: nat, g: Group, count: nat, pos: nat, kmp: nat, hit: bool)
    requires pos < |file| && LineAround(file, current, lf, pos)
    requires count == Min(COUNT_CAP, Occurrences(file[current..lf], g, Reach(current, lf, pos)))
    requires Longest(FoldAll(file[..pos + 1]), g.folded, kmp, |g.folded|)
    requires hit == (pos < lf && EndsAt(file[current..lf], g, pos + 1 - current))
    ensures Tracks(file, current, lf, g, kmp, if hit && count < COUNT_CAP then count + 1 else count, pos + 1)
  {
    hide EndsAt, Longest, FoldAll, Occurrences;
    if pos < lf { StepOccurrences(file[current..lf], g, pos - current); }
  }

  class Scanner {
    const pattern: Pattern
    const ring: array<bool>
    const rank: Rank
    const name: seq<Byte>
    const slot: nat
    const fileSize: nat
    var pos: nat
    var lineNumber: nat
    var counts: seq<nat>
    var state: seq<nat>
    var anchor: nat
    var haveAnchor: bool
    var lineActive: bool

    ghost const file: seq<Byte>
    ghost var current: nat               // where the current line starts
    ghost var lf: nat                    // where it ends
    ghost var lines: seq<TermLine>       // the lines already ended
    ghost const before: seq<Candidate>   // the ranking history before this file
    ghost var entries: seq<Candidate>    // what this file added to it

    constructor (pattern: Pattern, ring: array<bool>, rank: Rank, name: seq<Byte>, slot: nat, ghost file: seq<Byte>, fileSize: nat)
      requires ring.Length == RING && pattern.Valid() && fileSize == |file|
      ensures this.pattern == pattern && this.ring == ring && this.rank == rank
      ensures this.name == name && this.slot == slot && this.fileSize == fileSize && this.file == file
      ensures before == rank.history && pos == 0 && lineNumber == 1 && !haveAnchor && anchor == 0 && !lineActive
      ensures current == 0 && lf == IndexFrom(file, LF, 0) && lines == [] && entries == []
      ensures counts == state == seq(|pattern.groups|, _ => 0)
    {
      this.pattern, this.ring, this.rank := pattern, ring, rank;
      this.name, this.slot, this.fileSize, this.file := name, slot, fileSize, file;
      pos, lineNumber, anchor := 0, 1, 0;
      counts, state := seq(|pattern.groups|, _ => 0), seq(|pattern.groups|, _ => 0);
      haveAnchor, lineActive := false, false;
      current, lf, lines, before, entries := 0, IndexFrom(file, LF, 0), [], rank.history, [];
    }

    /** The clean state a scan begins with. */
    method Start()
      requires pattern.Valid() && ring.Length == RING && rank.Valid() && rank.history == before && fileSize == |file|
      requires pos == 0 && lineNumber == 1 && !haveAnchor && anchor == 0 && !lineActive
      requires current == 0 && lf == IndexFrom(file, LF, 0) && lines == [] && entries == []
      requires counts == state == seq(|pattern.groups|, _ => 0)
      modifies ring
      ensures Between()
    {
      hide IndexFrom, TermLinesFrom, Rank.Valid, AnchorIs;
      forall i | 0 <= i < RING {
        ring[i] := false;
      }
      assert rank.history == before + [];
      AnchorStart(Text(), pattern.groups, 0);
      forall k | 0 <= k < |state| ensures Tracks(file, 0, lf, pattern.groups[k], 0, 0, 0) {
        assert Longest(FoldAll(file[..0]), pattern.groups[k].folded, 0, |pattern.groups[k].folded|);
        FreshCounter(file, 0, lf, pattern.groups[k], 0);
      }
    }

    ghost function Text(): seq<Byte>
      requires current <= lf <= |file|
      reads `current, `lf
    {
      file[current..lf]
    }

    /** The byte positions agree with the current line. */
    ghost predicate Placed()
      reads `pos, `current, `lf, ring
    {
      && ring.Length == RING && fileSize == |file|
      && LineAround(file, current, lf, pos)
    }

    /** The first g groups have taken the byte at pos, the others have not. */
    ghost predicate Tracking(g: nat)
      requires current <= lf <= |file| && current <= pos && g <= |pattern.groups|
      requires g > 0 ==> pos < |file|
      requires pos <= |file|
      reads `pos, `current, `lf, `state, `counts
    {
      && |state| == |counts| == |pattern.groups|
      && (forall k | 0 <= k < g :: Tracks(file, current, lf, pattern.groups[k], state[k], counts[k], pos + 1))
      && (forall k | g <= k < |state| :: Tracks(file, current, lf, pattern.groups[k], state[k], counts[k], pos))
    }

    ghost predicate Anchored(g: nat)
      requires current <= pos <= lf <= |file| && g <= |pattern.groups| && (g > 0 ==> pos < lf)
      reads `pos, `current, `lf, `anchor, `haveAnchor
    {
      AnchorIs(Text(), pattern.groups, haveAnchor, anchor - current, pos - current, g)
    }

    /** What the finished lines have contributed. */
    ghost predicate Filed()
      reads `lines, `entries, `current, `lineNumber, rank, rank.candidate
    {
      && rank.Valid() && rank.history == before + entries
      && Entries(entries, name, slot, fileSize, pattern.groups, lines)
      && current <= |file|
      && TermLinesFrom(file, 0, 1) == lines + TermLinesFrom(file, current, lineNumber)
    }

    /** One group takes the byte at pos. */
    method MatchGroup(g: nat, byte: Byte, next: Byte, nextEof: bool)
      requires pattern.Valid() && g < |pattern.groups| && Placed() && pos < |file| && byte == file[pos]
      requires nextEof <==> pos + 1 == |file|
      requires !nextEof ==> next == file[pos + 1]
      requires RingHolds(ring[..], file, pos + 1)
      requires Tracking(g)
      requires if pos < lf then Anchored(g) else Anchored(0)
      modifies this`state, this`counts, this`anchor, this`haveAnchor
      ensures Tracking(g + 1)
      ensures if pos < lf then Anchored(g + 1) else Anchored(0)
    {
      hide Longest, EndsWith, Occurrences, EndsAt, Table, AnchorIs, FoldAll, Fold, RingHolds, Word;
      var group := pattern.groups[g];
      var base, length := pattern.foldStart[g], |group.folded|;
      ghost var t := FoldAll(file[..pos]);
      assert pattern.GroupBuilt(g);
      assert Tracks(file, current, lf, group, state[g], counts[g], pos);
      var kmp := Advance(pattern.folded, pattern.prefix, base, length, state[g], Fold(byte), t, length);
      FoldAllSnoc(file[..pos], byte);
      assert file[..pos] + [byte] == file[..pos + 1];
      Conclude(g, kmp, next, nextEof);
    }

    /** What scan_byte does with the machine's new state. */
    method Conclude(g: nat, advanced: nat, next: Byte, nextEof: bool)
      requires pattern.Valid() && g < |pattern.groups| && Placed() && pos < |file|
      requires nextEof <==> pos + 1 == |file|
      requires !nextEof ==> next == file[pos + 1]
      requires RingHolds(ring[..], file, pos + 1)
      requires Tracking(g)
      requires if pos < lf then Anchored(g) else Anchored(0)
      requires Longest(FoldAll(file[..pos + 1]), pattern.groups[g].folded, advanced, |pattern.groups[g].folded| + 1)
      modifies this`state, this`counts, this`anchor, this`haveAnchor
      ensures Tracking(g + 1)
      ensures if pos < lf then Anchored(g + 1) else Anchored(0)
    {
      hide Longest, EndsWith, Occurrences, EndsAt, Table, AnchorIs, FoldAll, Fold, RingHolds, Word, Min;
      var group := pattern.groups[g];
      var base, length := pattern.foldStart[g], |group.folded|;
      ghost var t := FoldAll(file[..pos + 1]);
      assert pattern.GroupBuilt(g);
      assert Tracks(file, current, lf, group, state[g], counts[g], pos);
      FullOrNot(t, group.folded, advanced);
      var kmp := advanced;
      ghost var hit := false;
      if kmp == length {
        hit := Hit(g, next, nextEof);
        FromFull(t, group.folded, pattern.prefix[base..base + length]);
        kmp := pattern.prefix[base + length - 1];
      } else {
        if pos < lf {
          NotFull(file, group, current, lf, pos);
          AnchorNext(Text(), pattern.groups, haveAnchor, anchor - current, pos - current, g, haveAnchor, anchor - current);
        }
      }
      TrackNext(file, current, lf, group, old(counts[g]), pos, kmp, hit);
      state := state[g := kmp];
    }

    /** The boundary checks at a full match: whether an occurrence of the line ends here. */
    method AtBoundary(group: Group, next: Byte, nextEof: bool) returns (accepted: bool)
      requires LegalGroup(group) && Placed() && pos < |file|
      requires nextEof <==> pos + 1 == |file|
      requires !nextEof ==> next == file[pos + 1]
      requires RingHolds(ring[..], file, pos + 1)
      requires EndsWith(FoldAll(file[..pos + 1]), group.folded, |group.folded|)
      ensures pos < lf && accepted == EndsAt(Text(), group, pos + 1 - current)
    {
      hide EndsWith, EndsAt, FoldAll, RingHolds, Word;
      if pos == lf {
        EndOfLine(file, group, pos);
      }
      Boundary(file, group, ring[..], current, lf, pos);
      var start := pos + 1 - |group.folded|;
      accepted := true;
      if group.leftWord && start > 0 && ring[(start - 1) % RING] {
        accepted := false;
      }
      if accepted && group.rightWord && !nextEof && Word(next) {
        accepted := false;
      }
    }

    /** A full match: the boundary checks, the counter and the anchor. */
    method Hit(g: nat, next: Byte, nextEof: bool) returns (ghost hit: bool)
      requires pattern.Valid() && g < |pattern.groups| && Placed() && pos < |file|
      requires nextEof <==> pos + 1 == |file|
      requires !nextEof ==> next == file[pos + 1]
      requires RingHolds(ring[..], file, pos + 1)
      requires g < |counts|
      requires if pos < lf then Anchored(g) else Anchored(0)
      requires EndsWith(FoldAll(file[..pos + 1]), pattern.groups[g].folded, |pattern.groups[g].folded|)
      modifies this`counts, this`anchor, this`haveAnchor
      ensures pos < lf && hit == EndsAt(Text(), pattern.groups[g], pos + 1 - current)
      ensures counts == if hit && old(counts)[g] < COUNT_CAP then old(counts)[g := old(counts)[g] + 1] else old(counts)
      ensures Anchored(g + 1)
    {
      hide EndsWith, EndsAt, AnchorIs, FoldAll, RingHolds, Word, LegalGroup, Pattern.GroupBuilt, LineAround;
      var group := pattern.groups[g];
      assert LegalGroup(group);
      Bounds();
      var accepted := AtBoundary(group, next, nextEof);
      StartsHere(group);
      var start := pos + 1 - |group.folded|;
      hit := accepted;
      if accepted {
        if counts[g] < COUNT_CAP {
          counts := counts[g := counts[g] + 1];
        }
        if !haveAnchor || start < anchor {
          anchor := start;
          haveAnchor := true;
        }
      }
      AnchorNext(Text(), pattern.groups, old(haveAnchor), old(anchor) - current, pos - current, g,
                 haveAnchor, anchor - current);
    }

    lemma StartsHere(group: Group)
      requires pos < |file| && EndsWith(FoldAll(file[..pos + 1]), group.folded, |group.folded|)
      ensures |group.folded| <= pos + 1
    {
    }

    /** Between bytes. */
    ghost predicate Between()
      reads this, ring, rank, rank.candidate
    {
      && Placed() && RingHolds(ring[..], file, pos)
      && Tracking(0) && Anchored(0) && Filed()
      && (lineActive <==> pos > current)
    }

    /** The loop over the groups in scan_byte. */
    method MatchAll(byte: Byte, next: Byte, nextEof: bool)
      requires pattern.Valid() && Placed() && pos < |file| && byte == file[pos]
      requires nextEof <==> pos + 1 == |file|
      requires !nextEof ==> next == file[pos + 1]
      requires RingHolds(ring[..], file, pos + 1) && Tracking(0) && Anchored(0)
      modifies this`state, this`counts, this`anchor, this`haveAnchor
      ensures Tracking(|pattern.groups|)
      ensures if pos < lf then Anchored(|pattern.groups|) else Anchored(0)
    {
      hide RingHolds, AnchorIs, Tracks, LineAround;
      assert current <= pos <= lf <= |file| by { Bounds(); }
      for g := 0 to |pattern.groups|
        invariant Tracking(g)
        invariant if pos < lf then Anchored(g) else Anchored(0)
      {
        MatchGroup(g, byte, next, nextEof);
      }
    }

    lemma Bounds()
      requires Placed()
      ensures current <= pos <= lf <= |file|
      ensures pos < |file| ==> (pos == lf <==> file[pos] == LF)
    {
    }

    /** scan_finalize: a line in which every group was counted enters the ranking. */
    method Finalize()
      requires pattern.Valid() && Placed() && pos == lf && rank.Valid()
      requires Counted() && Anchored(0)
      modifies rank`count, rank`total, rank`history, rank.candidate
      ensures rank.Valid()
      ensures if Complete(Text(), pattern.groups) then
                exists c :: rank.history == old(rank.history) + [c]
                            && EntryOf(c, name, slot, fileSize, pattern.groups, TermLine(current, Text(), lineNumber))
              else rank.history == old(rank.history)
    {
      hide AnchorIs, Longest, LineAround, FoldAll, Occurrences, EntryOf;
      Bounds();
      ghost var text := Text();
      var score := 0;
      var complete := |pattern.groups| > 0;
      assert pattern.groups[..0] == [];
      for g := 0 to |pattern.groups|
        invariant complete
        invariant score == Score(text, pattern.groups[..g])
        invariant forall k | 0 <= k < g :: Occurrences(text, pattern.groups[k], |text|) > 0
      {
        if counts[g] == 0 {
          complete := false;
          break;
        }
        score := score + counts[g];
        assert pattern.groups[..g + 1][..g] == pattern.groups[..g];
      }
      if complete {
        assert pattern.groups[..|pattern.groups|] == pattern.groups;
        var c := Candidate(name, slot, lineNumber, fileSize, anchor, score);
        EarliestAnchor(text, pattern.groups, haveAnchor, anchor - current);
        EntryIs(c, name, slot, fileSize, pattern.groups, TermLine(current, text, lineNumber));
        rank.Add(c);
      }
    }

    /** scan_byte */
    method ScanByte(byte: Byte, next: Byte, nextEof: bool)
      requires pattern.Valid() && Between() && pos < |file| && byte == file[pos]
      requires nextEof <==> pos + 1 == |file|
      requires !nextEof ==> next == file[pos + 1]
      modifies this, ring, rank`count, rank`total, rank`history, rank.candidate
      ensures Between() && pos == old(pos) + 1
    {
      hide Tracks, AnchorIs, RingHolds, Word, LineAround, Entries, TermLinesFrom, Rank.Valid;
      Bounds();
      RingStep(ring[..], file, pos);
      ghost var wasRing := ring[..];
      ring[pos % RING] := Word(byte);
      assert ring[..] == wasRing[pos % RING := Word(byte)];
      MatchAll(byte, next, nextEof);
      if byte == LF {
        EndLine();
      } else {
        AdvanceInLine();
        lineActive := true;
      }
    }

    /** The scan moves on within a line. */
    method AdvanceInLine()
      requires pattern.Valid() && Placed() && pos < lf && RingHolds(ring[..], file, pos + 1)
      requires Tracking(|pattern.groups|) && Anchored(|pattern.groups|) && Filed()
      modifies this`pos
      ensures Placed() && RingHolds(ring[..], file, pos) && Tracking(0) && Anchored(0) && Filed()
      ensures pos == old(pos) + 1
    {
      hide AnchorIs, RingHolds, Tracks;
      AnchorCarry(Text(), pattern.groups, haveAnchor, anchor - current, pos - current);
      pos := pos + 1;
    }

    /** The LF branch of scan_byte. */
    method EndLine()
      requires pattern.Valid() && Placed() && pos == lf < |file| && RingHolds(ring[..], file, pos + 1)
      requires Tracking(|pattern.groups|) && Anchored(0) && Filed()
      modifies this, rank`count, rank`total, rank`history, rank.candidate
      ensures Between() && pos == old(pos) + 1
    {
      hide AnchorIs, RingHolds, Tracks, LineAround, Entries, TermLinesFrom, Min, Occurrences, Rank.Valid;
      Bounds();
      CountedAtLf();
      MachinesAtLf();
      CloseLine();
      OpenLine();
    }

    /** The per-line state is cleared; the machines keep running. */
    method OpenLine()
      requires pattern.Valid() && Placed() && pos == lf < |file| && RingHolds(ring[..], file, pos + 1)
      requires |state| == |counts| == |pattern.groups| && MachinesRead(pos + 1)
      requires rank.Valid() && rank.history == before + entries
      requires Entries(entries, name, slot, fileSize, pattern.groups, lines)
      requires TermLinesFrom(file, 0, 1) == lines + TermLinesFrom(file, lf + 1, lineNumber + 1)
      modifies this
      ensures Between() && pos == old(pos) + 1
    {
      hide AnchorIs, RingHolds, Longest, FoldAll, Tracks, LineAround, Entries, TermLinesFrom, Min, Occurrences, Rank.Valid;
      Bounds();
      lineNumber := lineNumber + 1;
      counts := seq(|counts|, _ => 0);
      haveAnchor := false;
      anchor := 0;
      lineActive := false;
      pos := pos + 1;
      NewLine(file, pos);
      current, lf := pos, IndexFrom(file, LF, pos);
      AnchorStart(Text(), pattern.groups, anchor - current);
      forall k | 0 <= k < |state| ensures Tracks(file, current, lf, pattern.groups[k], state[k], counts[k], pos) {
        FreshCounter(file, current, lf, pattern.groups[k], state[k]);
      }
    }

    /** Every machine has read the file up to q. */
    ghost predicate MachinesRead(q: nat)
      requires q <= |file| && |state| == |pattern.groups|
      reads `state
    {
      forall k | 0 <= k < |state| ::
        Longest(FoldAll(file[..q]), pattern.groups[k].folded, state[k], |pattern.groups[k].folded|)
    }

    lemma CountedAtLf()
      requires Placed() && pos == lf < |file| && current <= lf && Tracking(|pattern.groups|)
      ensures Counted()
    {
      hide Longest, FoldAll, Occurrences, LineAround;
    }

    lemma MachinesAtLf()
      requires current <= lf && pos == lf < |file| && Tracking(|pattern.groups|)
      ensures MachinesRead(pos + 1)
    {
      hide Longest, FoldAll, Occurrences;
    }

    /** scan_finalize on the line that ends at lf, and its entry in the definition. */
    method CloseLine()
      requires pattern.Valid() && Placed() && pos == lf && current < |file| && Filed()
      requires Counted() && Anchored(0)
      modifies this`lines, this`entries, rank`count, rank`total, rank`history, rank.candidate
      ensures rank.Valid() && rank.history == before + entries
      ensures Entries(entries, name, slot, fileSize, pattern.groups, lines)
      ensures TermLinesFrom(file, 0, 1) == lines + TermLinesFrom(file, if lf < |file| then lf + 1 else lf, lineNumber + 1)
    {
      hide AnchorIs, Counted, Complete, EntryOf, Entries, LineAround, TermLinesFrom, Rank.Valid, RingHolds;
      Bounds();
      ghost var line := TermLine(current, Text(), lineNumber);
      SplitHere();
      ghost var rest := TermLinesFrom(file, if lf < |file| then lf + 1 else lf, lineNumber + 1);
      Finalize();
      EntriesSnoc(entries, name, slot, fileSize, pattern.groups, lines, line);
      if Complete(line.text, pattern.groups) {
        ghost var c :| rank.history == before + entries + [c]
                       && EntryOf(c, name, slot, fileSize, pattern.groups, line);
        EntriesAdd(entries, c, name, slot, fileSize, pattern.groups, lines, line);
        assert before + (entries + [c]) == before + entries + [c];
        entries := entries + [c];
      }
      assert lines + ([line] + rest) == lines + [line] + rest;
      lines := lines + [line];
    }

    lemma SplitHere()
      requires Placed() && current < |file| && current <= pos == lf <= |file|
      ensures TermLinesFrom(file, current, lineNumber)
              == [TermLine(current, Text(), lineNumber)]
                 + TermLinesFrom(file, if lf < |file| then lf + 1 else lf, lineNumber + 1)
    {
      LineIs(file, current, lf, lineNumber);
    }

    /** The last line, when the file does not end in LF. */
    method Finish()
      requires pattern.Valid() && Between() && pos == |file|
      modifies this`lines, this`entries, rank`count, rank`total, rank`history, rank.candidate
      ensures rank.Valid() && rank.history == before + entries
      ensures Entries(entries, name, slot, fileSize, pattern.groups, TermLinesFrom(file, 0, 1))
    {
      hide AnchorIs, RingHolds, Tracks, LineAround, Entries, Rank.Valid, Counted;
      Bounds();
      if lineActive {
        CountedAtEof();
        CloseLine();
        assert TermLinesFrom(file, |file|, lineNumber + 1) == [];
        assert lines + [] == lines;
      } else {
        assert TermLinesFrom(file, |file|, lineNumber) == [];
        assert lines + [] == lines;
      }
    }

    lemma CountedAtEof()
      requires pos == |file| && current <= pos <= lf <= |file| && Tracking(0)
      ensures Counted()
    {
      hide Longest, FoldAll, Occurrences;
    }

    /** A read's bytes are scanned, all but the last, which waits for its successor. */
    method ScanChunk(chunk: seq<Byte>)
      requires pattern.Valid() && Between()
      requires chunk != [] && pos <= |file| && chunk <= file[pos..]
      modifies this, ring, rank`count, rank`total, rank`history, rank.candidate
      ensures Between() && pos == old(pos) + |chunk| - 1
    {
      hide Between;
      ghost var from := pos;
      for i := 0 to |chunk| - 1
        invariant Between() && pos == from + i
      {
        assert chunk[i] == file[from..][i] && chunk[i + 1] == file[from..][i + 1];
        ScanByte(chunk[i], chunk[i + 1], false);
      }
    }

    /** One read: the byte held back, then the new bytes but the last. */
    method TakeRead(chunk: seq<Byte>, offset: nat, havePending: bool, pending: Byte)
      requires pattern.Valid() && Between() && offset < |file|
      requires chunk != [] && chunk <= file[offset..]
      requires havePending <==> offset > 0
      requires pos == if havePending then offset - 1 else 0
      requires havePending ==> pending == file[offset - 1]
      modifies this, ring, rank`count, rank`total, rank`history, rank.candidate
      ensures Between() && pos == offset + |chunk| - 1
    {
      hide Between;
      assert chunk[0] == file[offset..][0];
      if havePending {
        ScanByte(pending, chunk[0], false);
      }
      ScanChunk(chunk);
    }

    lemma Between0()
      requires Between()
      ensures pos <= |file| && fileSize == |file| && rank.Valid() && rank.history == before + entries
    {
    }

    /** Every counter holds the whole line. */
    ghost predicate Counted()
      requires current <= lf <= |file|
      reads `current, `lf, `counts
    {
      && |counts| == |pattern.groups|
      && forall k | 0 <= k < |counts| :: counts[k] == Min(COUNT_CAP, Occurrences(Text(), pattern.groups[k], |Text()|))
    }
  }

  lemma EndOfLine(file: seq<Byte>, g: Group, pos: nat)
    requires LegalGroup(g) && pos < |file| && file[pos] == LF
    ensures !EndsWith(FoldAll(file[..pos + 1]), g.folded, |g.folded|)
  {
    NoMatchOnLf(FoldAll(file[..pos + 1]), g);
  }

  lemma EntryIs(c: Candidate, name: seq<Byte>, slot: nat, size: nat, groups: seq<Group>, line: TermLine)
    requires c.name == name && c.slot == slot && c.fileSize == size && c.lineNumber == line.number
    requires c.score == Score(line.text, groups)
    requires c.anchor >= line.start && Earliest(line.text, groups, c.anchor - line.start)
    ensures EntryOf(c, name, slot, size, groups, line)
  {
  }

  lemma {:induction false} SomeEnd(text: seq<Byte>, g: Group, e: nat) returns (f: nat)
    requires e <= |text| && Occurrences(text, g, e) > 0
    ensures f <= e && EndsAt(text, g, f)
  {
    hide EndsAt;
    if EndsAt(text, g, e) { f := e; } else { f := SomeEnd(text, g, e - 1); }
  }

  /** On a complete line the anchor is set, and is the earliest accepted start. */
  lemma EarliestAnchor(text: seq<Byte>, groups: seq<Group>, have: bool, anchor: int)
    requires Complete(text, groups) && AnchorIs(text, groups, have, anchor, |text|, 0)
    ensures anchor >= 0 && Earliest(text, groups, anchor)
  {
    var f := SomeEnd(text, groups[0], |text|);
    var s := f - |groups[0].folded|;
    assert Spans(text, groups, 0, s, f);
    assert Seen(text, groups, s, |text|, 0);
    forall r: nat ensures Seen(text, groups, r, |text|, 0) <==> Starts(text, groups, r, |text|) {}
  }

  lemma FreshCounter(file: seq<Byte>, current: nat, lf: nat, g: Group, state: nat)
    requires current <= lf <= |file| && Longest(FoldAll(file[..current]), g.folded, state, |g.folded|)
    ensures Tracks(file, current, lf, g, state, 0, current)
  {
    hide Longest, FoldAll, EndsAt;
  }

  lemma NewLine(file: seq<Byte>, start: nat)
    requires 0 < start <= |file| && file[start - 1] == LF
    ensures LineAround(file, start, IndexFrom(file, LF, start), start)
  {
    hide IndexFrom;
  }

  lemma {:induction false} LineIs(file: seq<Byte>, start: nat, lf: nat, number: nat)
    requires start < |file| && LineAround(file, start, lf, lf)
    ensures TermLinesFrom(file, start, number)
            == [TermLine(start, file[start..lf], number)]
               + TermLinesFrom(file, if lf < |file| then lf + 1 else lf, number + 1)
  {
    hide IndexFrom;
    assert IndexFrom(file, LF, start) == lf;
    hide LineAround;
  }

  lemma EntriesSnoc(entries: seq<Candidate>, name: seq<Byte>, slot: nat, size: nat, groups: seq<Group>,
                    lines: seq<TermLine>, line: TermLine)
    requires Entries(entries, name, slot, size, groups, lines)
    ensures !Complete(line.text, groups) ==> Entries(entries, name, slot, size, groups, lines + [line])
  {
    hide Complete, EntryOf;
    assert (lines + [line])[..|lines|] == lines;
  }

  lemma EntriesAdd(entries: seq<Candidate>, c: Candidate, name: seq<Byte>, slot: nat, size: nat, groups: seq<Group>,
                   lines: seq<TermLine>, line: TermLine)
    requires Entries(entries, name, slot, size, groups, lines)
    requires Complete(line.text, groups) && EntryOf(c, name, slot, size, groups, line)
    ensures Entries(entries + [c], name, slot, size, groups, lines + [line])
  {
    hide Complete, EntryOf;
    assert (lines + [line])[..|lines|] == lines;
    assert (entries + [c])[..|entries|] == entries;
  }

  // ----- a whole file

  /** yan_search_terms_core_preflight: the file is skipped exactly when it holds a NUL or is
      not UTF-8, wherever the reads cut it. */
  method Preflight(file: seq<Byte>) returns (r: Status, skip: bool)
    ensures r.Ok? ==> (skip <==> 0 in file || !Utf8.ValidUtf8(file))
  {
    hide Utf8.Encode, Utf8.EncodeAll, Utf8.Expected;
    skip := false;
    var carry: seq<Byte> := [];
    var offset := 0;
    ghost var done: seq<Utf8.Scalar> := [];
    assert Utf8.EncodeAll([]) == [] by { Utf8.EncodeAllLength([]); }
    while offset < |file|
      invariant offset <= |file| && Carried(file, offset, done, carry)
    {
      var remaining := |file| - offset;
      var request := if remaining < CHUNK then remaining else CHUNK;
      var got := FileSource.ReadUntrusted(file, offset, request);
      if got.Failed? {
        return Failed(got.code), false;
      }
      if |got.bytes| > request || |got.bytes| == 0 {
        return Protocol, false;
      }
      for i := 0 to |got.bytes|
        invariant Carried(file, offset + i, done, carry)
      {
        var byte := got.bytes[i];
        ghost var at := offset + i;
        assert byte == file[offset..][i] == file[at];
        if byte == 0 {
          return Ok, true;
        }
        var broken;
        carry, broken, done := CarryByte(file, at, done, carry, byte);
        if broken {
          return Ok, true;
        }
      }
      offset := offset + |got.bytes|;
    }
    assert file[..offset] == file;
    if |carry| != 0 {
      CarryLeft(file, done, carry);
      skip := true;
    } else {
      assert Utf8.EncodeAll(done) + [] == Utf8.EncodeAll(done);
    }
    r := Ok;
  }

  /** The bytes before `at` are whole scalars and an unfinished one, without NUL. */
  ghost predicate Carried(file: seq<Byte>, at: nat, done: seq<Utf8.Scalar>, carry: seq<Byte>) {
    && at <= |file| && file[..at] == Utf8.EncodeAll(done) + carry
    && (carry != [] ==> Utf8.Expected(carry) > |carry|)
    && forall k | 0 <= k < at :: file[k] != 0
  }

  /** One byte of the preflight. */
  method CarryByte(ghost file: seq<Byte>, ghost at: nat, ghost done: seq<Utf8.Scalar>, carry: seq<Byte>, byte: Byte)
    returns (carry': seq<Byte>, broken: bool, ghost done': seq<Utf8.Scalar>)
    requires Carried(file, at, done, carry) && at < |file| && byte == file[at] != 0
    ensures broken ==> !Utf8.ValidUtf8(file)
    ensures !broken ==> Carried(file, at + 1, done', carry')
  {
    hide Utf8.Encode, Utf8.EncodeAll, Utf8.Expected;
    if |carry| == 0 && byte < 0x80 {
      CarryAscii(file, at, done);
      return [], false, done + [byte as Utf8.Scalar];
    }
    carry', done' := carry + [byte], done;
    assert file[..at + 1] == file[..at] + [byte];
    var need := Utf8.Expected(carry');
    if need == 0 {
      CarryBroken(file, at + 1, done, carry');
      return carry', true, done';
    }
    if |carry'| >= need {
      CarryWhole(file, at + 1, done, carry');
      done' := done + [Utf8.Payload(Utf8.Completed(carry')) as Utf8.Scalar];
      carry' := carry'[need..];
    }
    broken := false;
  }

  lemma CarryAscii(file: seq<Byte>, at: nat, done: seq<Utf8.Scalar>)
    requires Carried(file, at, done, []) && at < |file| && 0 < file[at] < 0x80
    ensures Carried(file, at + 1, done + [file[at] as Utf8.Scalar], [])
  {
    hide Utf8.Encode, Utf8.EncodeAll;
    LegalText.EncodeAllAscii(file[at]);
    Utf8.EncodeAllSnoc(done, file[at]);
    assert file[..at + 1] == file[..at] + [file[at]];
  }

  lemma CarryBroken(file: seq<Byte>, at: nat, done: seq<Utf8.Scalar>, carry: seq<Byte>)
    requires at <= |file| && file[..at] == Utf8.EncodeAll(done) + carry && carry != [] && Utf8.Expected(carry) == 0
    ensures !Utf8.ValidUtf8(file)
  {
    hide Utf8.Encode, Utf8.EncodeAll;
    forall vs: seq<Utf8.Scalar> ensures Utf8.EncodeAll(vs) != file {
      if Utf8.EncodeAll(vs) == file {
        var more := file[at..];
        assert file == Utf8.EncodeAll(done) + (carry + more);
        Utf8.Cancel(done, carry + more, vs);
        var next := vs[|done|..];
        FirstScalar(next, carry, more);
        Utf8.BeginsExpected(carry, next[0]);
      }
    }
  }

  lemma FirstScalar(next: seq<Utf8.Scalar>, carry: seq<Byte>, more: seq<Byte>)
    requires carry != [] && Utf8.EncodeAll(next) == carry + more
    ensures next != [] && Utf8.Begins(carry, next[0])
  {
    hide Utf8.Encode;
    LegalText.BeginsOfPrefix(carry, more, next[0], Utf8.EncodeAll(next[1..]));
  }

  lemma CarryWhole(file: seq<Byte>, at: nat, done: seq<Utf8.Scalar>, carry: seq<Byte>)
    requires 0 < at <= |file| && file[..at] == Utf8.EncodeAll(done) + carry && carry != []
    requires 0 < Utf8.Expected(carry) <= |carry|
    requires |carry| == 1 || Utf8.Expected(carry[..|carry| - 1]) > |carry| - 1
    requires forall k | 0 <= k < at :: file[k] != 0
    ensures Utf8.Expected(carry) == |carry|
    ensures Utf8.IsScalar(Utf8.Payload(Utf8.Completed(carry)))
    ensures Carried(file, at, done + [Utf8.Payload(Utf8.Completed(carry)) as Utf8.Scalar], [])
  {
    assert |carry| > 1 ==> carry[..|carry| - 1][0] == carry[0];
    Utf8.CompletedEncodes(carry);
    assert Utf8.Completed(carry) == carry;
    hide Utf8.Encode, Utf8.EncodeAll;
    Utf8.EncodeAllSnoc(done, Utf8.Payload(carry));
  }

  lemma CarryLeft(file: seq<Byte>, done: seq<Utf8.Scalar>, carry: seq<Byte>)
    requires file == Utf8.EncodeAll(done) + carry && carry != [] && Utf8.Expected(carry) > |carry|
    ensures !Utf8.ValidUtf8(file)
  {
    hide Utf8.Encode, Utf8.EncodeAll;
    forall vs: seq<Utf8.Scalar> ensures Utf8.EncodeAll(vs) != file {
      if Utf8.EncodeAll(vs) == file {
        Utf8.Cancel(done, carry, vs);
        var next := vs[|done|..];
        assert carry == carry + [];
        FirstScalar(next, carry, []);
        FirstFits(next);
        Utf8.BeginsExpected(carry, next[0]);
      }
    }
  }

  lemma FirstFits(next: seq<Utf8.Scalar>)
    requires next != []
    ensures |Utf8.Encode(next[0])| <= |Utf8.EncodeAll(next)|
  {
  }

  /** yan_search_terms_core_scan_file: a skipped file counts once and ranks nothing; any other
      file adds exactly the entries of its complete lines, however the reads are cut. */
  method ScanFile(pattern: Pattern, ring: array<bool>, rank: Rank, name: seq<Byte>, slot: nat, file: seq<Byte>)
    returns (r: Status, ghost entries: seq<Candidate>)
    requires pattern.Valid() && ring.Length == RING && rank.Valid()
    modifies ring, rank, rank.candidate
    ensures rank.Valid() && rank.history == old(rank.history) + entries
    ensures r.Ok? && (0 in file || !Utf8.ValidUtf8(file)) ==> entries == [] && rank.skipped == old(rank.skipped) + 1
    ensures r.Ok? && !(0 in file || !Utf8.ValidUtf8(file)) ==>
              && rank.skipped == old(rank.skipped)
              && Entries(entries, name, slot, |file|, pattern.groups, TermLinesFrom(file, 0, 1))
  {
    hide Rank.Valid, TermLinesFrom, Entries, Pattern.Valid;
    entries := [];
    var skip;
    r, skip := Preflight(file);
    if r != Ok {
      return;
    }
    if skip {
      rank.CountSkipped();
      return;
    }
    var scanner := new Scanner(pattern, ring, rank, name, slot, file, |file|);
    scanner.Start();
    r := Drive(scanner, file);
    entries := scanner.entries;
  }

  /** The read loop of core_scan_file: one byte is always held back for its successor. */
  method Drive(scanner: Scanner, file: seq<Byte>) returns (r: Status)
    requires scanner.pattern.Valid() && scanner.Between() && scanner.pos == 0 && scanner.file == file
    modifies scanner, scanner.ring, scanner.rank`count, scanner.rank`total, scanner.rank`history, scanner.rank.candidate
    ensures scanner.rank.Valid() && scanner.rank.history == scanner.before + scanner.entries
    ensures scanner.rank.skipped == old(scanner.rank.skipped)
    ensures r.Ok? ==> Entries(scanner.entries, scanner.name, scanner.slot, |file|, scanner.pattern.groups, TermLinesFrom(file, 0, 1))
  {
    hide Entries, TermLinesFrom, Scanner.Between, Pattern.Valid;
    var offset := 0;
    var havePending := false;
    var pending: Byte := 0;
    while offset < |file|
      invariant offset <= |file| && scanner.pattern.Valid() && scanner.Between()
      invariant havePending <==> offset > 0
      invariant scanner.pos == if havePending then offset - 1 else 0
      invariant havePending ==> pending == file[offset - 1]
      invariant scanner.rank.skipped == old(scanner.rank.skipped)
    {
      var remaining := |file| - offset;
      var request := if remaining < CHUNK then remaining else CHUNK;
      var got := FileSource.ReadUntrusted(file, offset, request);
      if got.Failed? {
        scanner.Between0();
        return Failed(got.code);
      }
      if |got.bytes| > request || |got.bytes| == 0 {
        scanner.Between0();
        return Protocol;
      }
      var chunk := got.bytes;
      scanner.TakeRead(chunk, offset, havePending, pending);
      assert chunk[|chunk| - 1] == file[offset..][|chunk| - 1];
      pending := chunk[|chunk| - 1];
      havePending := true;
      offset := offset + |chunk|;
    }
    scanner.Between0();
    if havePending {
      scanner.ScanByte(pending, 0, true);
    }
    scanner.Finish();
    r := Ok;
  }
}
