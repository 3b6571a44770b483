/** What the markers, blocks and references of a body are, read off its bytes: every reserved line is a
    marker, and a reference names the block that holds it. */
module BlockSource {
  import opened Bytes
  import opened BlockGrammar
  import opened BlockTable
  import opened BlockLookup

  // ----- markers are the reserved lines

  /** Bytes a to e are one line, without the LF that ends it. */
  predicate WholeLine(s: seq<Byte>, a: nat, e: nat) {
    && a <= e <= |s| && (a == 0 || s[a - 1] == LF) && (e == |s| || s[e] == LF)
    && forall k | a <= k < e :: s[k] != LF
  }

  /** m is the marker of the line from a to e. */
  predicate MarksLine(s: seq<Byte>, o: Origin, m: Marker, a: nat, e: nat) {
    && WholeLine(s, a, e) && m.begin == o.offset + a && m.content == Strip(s[a..e]) && Reserved(m.content)
    && m.after == o.offset + (if e < |s| then e + 1 else e)
    && m.line == o.line + Count(s[..a], LF)
  }

  ghost predicate MarksSome(s: seq<Byte>, o: Origin, m: Marker) {
    exists a: nat, e: nat :: MarksLine(s, o, m, a, e)
  }

  predicate Marked(ms: seq<Marker>, s: seq<Byte>, o: Origin, a: nat, e: nat) {
    exists k :: 0 <= k < |ms| && MarksLine(s, o, ms[k], a, e)
  }

  /** A good marker is "@block", one space and an ID, and a line is reserved when "@block" stands alone or before a
      space or a tab. */
  lemma {:induction false} MarkerSpelled(content: seq<Byte>, id: seq<Byte>, m: Marker)
    requires m.content == content
    ensures var word := [64, 98, 108, 111, 99, 107];
            && (Reserved(content) <==> content == word || word + [32] <= content || word + [9] <= content)
            && (Reserved(content) && LegalMarker(content) && m.Id() == id <==> IdValid(id) && content == word + [32] + id)
  {
    hide IdValid;
    var word: seq<Byte> := [64, 98, 108, 111, 99, 107];
    assert MARKER == word;
    if Reserved(content) && |content| > 6 {
      assert content == word + [content[6]] + content[7..];
    }
    if content == word + [32] + id {
      assert content[..6] == word && content[6] == 32 && content[7..] == id;
    }
    if |content| == 6 { assert content[..6] == content; }
  }

  lemma {:induction false} EndsThere(s: seq<Byte>, a: nat)
    requires a <= |s| && (a == 0 || s[a - 1] == LF) && forall k | a <= k < |s| :: s[k] != LF
    ensures LineBegin(s) == a
  {
    LineBeginFits(s);
    if LineBegin(s) < a {
      assert false;
    }
  }

  /** The marker of the last line, when `eol` bytes end it. */
  lemma {:induction false} HereMarks(s: seq<Byte>, o: Origin)
    requires Reserved(Strip(LastLine(s)))
    ensures MarksLine(s + [LF], o, MarkerHere(s, o, 1), LineBegin(s), |s|)
    ensures MarksLine(s, o, MarkerHere(s, o, 0), LineBegin(s), |s|)
  {
    hide Count, Strip, Reserved, LineBegin;
    LineBeginFits(s);
    var t, b := s + [LF], LineBegin(s);
    assert t[..b] == s[..b] && t[b..|s|] == s[b..] && s[b..|s|] == s[b..];
    assert forall k | 0 <= k < |s| :: t[k] == s[k];
  }

  lemma {:induction false} MarksMore(s: seq<Byte>, o: Origin, m: Marker, a: nat, e: nat, b: Byte)
    requires MarksLine(s, o, m, a, e) && e < |s|
    ensures MarksLine(s + [b], o, m, a, e)
  {
    hide Count, Strip, Reserved;
    var t := s + [b];
    assert t[..a] == s[..a] && t[a..e] == s[a..e];
  }

  predicate MarksEnded(s: seq<Byte>, o: Origin, m: Marker, a: nat, e: nat) {
    MarksLine(s, o, m, a, e) && e < |s|
  }

  ghost predicate MarksEarlier(s: seq<Byte>, o: Origin, m: Marker) {
    exists a: nat, e: nat :: MarksEnded(s, o, m, a, e)
  }

  /** The markers of LF-terminated lines are such lines, and none is left out. */
  lemma {:induction false} MarkersAreLines(s: seq<Byte>, o: Origin)
    ensures forall k | 0 <= k < |Markers(s, o)| :: MarksEarlier(s, o, Markers(s, o)[k])
    ensures forall a: nat, e: nat | WholeLine(s, a, e) && e < |s| && Reserved(Strip(s[a..e])) :: Marked(Markers(s, o), s, o, a, e)
  {
    hide MarksLine, Reserved, Strip, MarkerHere;
    if s != [] {
      var p, b, ms := s[..|s| - 1], s[|s| - 1], Markers(s, o);
      assert p + [b] == s;
      MarkersAreLines(p, o);
      var old_ := Markers(p, o);
      assert old_ <= ms;
      forall k | 0 <= k < |ms|
        ensures MarksEarlier(s, o, ms[k])
      {
        if k < |old_| {
          var a: nat, e: nat :| MarksEnded(p, o, old_[k], a, e);
          MarksMore(p, o, old_[k], a, e, b);
          assert MarksEnded(s, o, ms[k], a, e);
        } else {
          HereMarks(p, o);
          assert MarksEnded(s, o, ms[k], LineBegin(p), |p|);
        }
      }
      forall a: nat, e: nat | WholeLine(s, a, e) && e < |s| && Reserved(Strip(s[a..e]))
        ensures Marked(ms, s, o, a, e)
      {
        if e < |p| {
          LineOfPrefix(s, a, e);
          assert p[a..e] == s[a..e];
          assert Marked(old_, p, o, a, e);
          var k :| 0 <= k < |old_| && MarksLine(p, o, old_[k], a, e);
          MarksMore(p, o, old_[k], a, e, b);
          assert MarksLine(s, o, ms[k], a, e);
        } else {
          LastOfPrefix(s, a);
          HereMarks(p, o);
          assert MarksLine(s, o, ms[|old_|], a, e);
        }
      }
    }
  }

  lemma {:induction false} LineOfPrefix(s: seq<Byte>, a: nat, e: nat)
    requires WholeLine(s, a, e) && e + 1 < |s|
    ensures WholeLine(s[..|s| - 1], a, e)
  {
  }

  lemma {:induction false} LastOfPrefix(s: seq<Byte>, a: nat)
    requires s != [] && WholeLine(s, a, |s| - 1) && s[|s| - 1] == LF
    ensures LineBegin(s[..|s| - 1]) == a && LastLine(s[..|s| - 1]) == s[a..|s| - 1]
  {
    EndsThere(s[..|s| - 1], a);
  }

  /** The markers of a complete body are its reserved lines, all of them. */
  lemma {:induction false} AllMarkersAreLines(s: seq<Byte>, o: Origin)
    ensures forall k | 0 <= k < |AllMarkers(s, o)| :: MarksSome(s, o, AllMarkers(s, o)[k])
    ensures forall a: nat, e: nat | WholeLine(s, a, e) && Reserved(Strip(s[a..e])) :: Marked(AllMarkers(s, o), s, o, a, e)
  {
    hide MarksLine, Reserved, Strip, MarkerHere, Markers, LastLine;
    MarkersAreLines(s, o);
    var ms, old_ := AllMarkers(s, o), Markers(s, o);
    forall k | 0 <= k < |ms|
      ensures MarksSome(s, o, ms[k])
    {
      if k < |old_| {
        var a: nat, e: nat :| MarksEnded(s, o, old_[k], a, e);
        assert MarksLine(s, o, ms[k], a, e);
      } else {
        HereMarks(s, o);
        assert MarksLine(s, o, ms[k], LineBegin(s), |s|);
      }
    }
    forall a: nat, e: nat | a <= e <= |s| && WholeLine(s, a, e) && Reserved(Strip(s[a..e]))
      ensures Marked(ms, s, o, a, e)
    {
      if e < |s| {
        var k :| 0 <= k < |old_| && MarksLine(s, o, old_[k], a, e);
        assert MarksLine(s, o, ms[k], a, e);
      } else {
        LastWhole(s, a);
        HereMarks(s, o);
        assert MarksLine(s, o, ms[|old_|], a, e);
      }
    }
  }

  lemma {:induction false} LastWhole(s: seq<Byte>, a: nat)
    requires WholeLine(s, a, |s|)
    ensures LineBegin(s) == a && LastLine(s) == s[a..|s|]
  {
    EndsThere(s, a);
  }

  // ----- the block of a reference

  /** The reference names a block exactly when one holds it, and that one, in which it lies whole. */
  predicate InBlock(blocks: seq<Block>, r: Reference) {
    && (forall k | 0 <= k < |blocks| && Holds(blocks[k], r.start) :: r.hasSource && r.source == blocks[k].id && r.end <= blocks[k].end)
    && (r.hasSource ==> exists k :: 0 <= k < |blocks| && Holds(blocks[k], r.start))
  }

  /** The reference stands in the body as written, on its line, in its block. */
  predicate Written(s: seq<Byte>, o: Origin, blocks: seq<Block>, r: Reference) {
    && o.offset <= r.start < r.end <= o.offset + |s|
    && NameValid(r.name) && IdValid(r.id)
    && s[r.start - o.offset..r.end - o.offset] == ReferenceText(r.name, r.id)
    && r.line == LineAt(s, o, r.start)
    && InBlock(blocks, r)
  }

  lemma {:induction false} LineBeginGrows(s: seq<Byte>, n: nat)
    requires n <= |s|
    ensures LineBegin(s[..n]) <= LineBegin(s)
  {
    if n == |s| {
      assert s[..n] == s;
    } else if s[|s| - 1] != LF {
      LineBeginGrows(s[..|s| - 1], n);
      assert s[..|s| - 1][..n] == s[..n];
    }
  }

  /** Markers that a prefix does not have begin no earlier than the line it ends in. */
  lemma {:induction false} LaterMarkers(s: seq<Byte>, n: nat, o: Origin)
    requires n <= |s|
    ensures Markers(s[..n], o) <= AllMarkers(s, o)
    ensures forall k | |Markers(s[..n], o)| <= k < |AllMarkers(s, o)| :: AllMarkers(s, o)[k].begin >= o.offset + LineBegin(s[..n])
  {
    hide Reserved, LineBegin, LastLine;
    LaterAmong(s, n, o);
    LineBeginGrows(s, n);
  }

  lemma {:induction false} LaterAmong(s: seq<Byte>, n: nat, o: Origin)
    requires n <= |s|
    ensures Markers(s[..n], o) <= Markers(s, o)
    ensures forall k | |Markers(s[..n], o)| <= k < |Markers(s, o)| :: Markers(s, o)[k].begin >= o.offset + LineBegin(s[..n])
  {
    hide Reserved, LineBegin, LastLine;
    if n == |s| {
      assert s[..n] == s;
    } else {
      var p := s[..|s| - 1];
      assert p[..n] == s[..n];
      LaterAmong(p, n, o);
      LineBeginGrows(p, n);
    }
  }

  lemma {:induction false} NoBracket(content: seq<Byte>)
    requires LegalMarker(content) && Reserved(content)
    ensures OPEN !in content
  {
    assert forall k | 7 <= k < |content| :: content[k] == content[7..][k - 7];
    assert forall k | 0 <= k < 6 :: content[k] == content[..6][k];
  }

  /** A line that reaches past a bracket has it in its content. */
  lemma {:induction false} BracketInLine(s: seq<Byte>, a: nat, e: nat, at: nat)
    requires a <= at && at + 1 < e <= |s| && s[at] == OPEN
    ensures OPEN in Strip(s[a..e])
  {
    assert Strip(s[a..e])[at - a] == OPEN;
  }

  /** A marker that follows in the table begins behind the reference. */
  lemma {:induction false} MarkerBehind(s: seq<Byte>, o: Origin, r: Reference, m: Marker)
    requires Stands(s, o, r) && MarksSome(s, o, m) && LegalMarker(m.content)
    requires m.begin >= o.offset + LineBegin(s[..r.end - o.offset])
    ensures m.begin >= r.end
  {
    hide LegalMarker, Reserved, Strip, Count, Markers, IdValid, NameValid;
    var a: nat, e: nat :| MarksLine(s, o, m, a, e);
    var n := r.end - o.offset;
    var p, at := s[..n], r.start - o.offset;
    LineBeginFits(p);
    NoBracket(m.content);
    StandsOpen(s, o, r);
    assert forall k | LineBegin(p) <= k < n :: s[k] == p[k] != LF;
    if a < n {
      if a > LineBegin(p) {
        assert false;
      }
      BeforeReference(s, o, r);
      BracketInLine(s, a, e, at);
      assert false;
    }
  }

  lemma {:induction false} StandsOpen(s: seq<Byte>, o: Origin, r: Reference)
    requires Stands(s, o, r)
    ensures o.offset <= r.start && r.start + 2 <= r.end <= o.offset + |s| && s[r.start - o.offset] == OPEN
    ensures s[r.start - o.offset..r.end - o.offset] == ReferenceText(r.name, r.id) && NameValid(r.name) && IdValid(r.id)
  {
    hide Count, Markers, IdValid, NameValid;
    var n := r.end - o.offset;
    var t := ReferenceText(r.name, r.id);
    assert s[..n][n - |t|..] == t && s[r.start - o.offset] == t[0];
    assert s[r.start - o.offset..n] == s[..n][n - |t|..];
  }

  /** A reference lies in the line it ends in. */
  lemma {:induction false} BeforeReference(s: seq<Byte>, o: Origin, r: Reference)
    requires Stands(s, o, r)
    ensures o.offset + LineBegin(s[..r.end - o.offset]) <= r.start
    ensures r.line == LineAt(s, o, r.start)
  {
    hide Count, Markers, IdValid, NameValid, EndsReference;
    var n := r.end - o.offset;
    var p, at := s[..n], r.start - o.offset;
    StandsOpen(s, o, r);
    LineBeginFits(p);
    forall k | at <= k < n
      ensures p[k] != LF
    {
      ReferenceInLine(p, r.name, r.id, k);
    }
    SameLine(p, at, n);
    assert p[..at] == s[..at] && p[..n] == p;
  }

  /** Where the reference lies among the blocks: behind the last marker before it, before the next one. */
  lemma {:induction false} ReferenceInBlock(s: seq<Byte>, o: Origin, r: Reference)
    requires o.line > 0 && Stands(s, o, r) && Judge(AllMarkers(s, o)) == Ok
    ensures Written(s, o, Blocks(s, o), r)
  {
    hide Count, Markers, AllMarkers, IdValid, NameValid, EndsReference, Blocks, LineAt, Judge, LegalMarker, MarksSome, NamesLines, Placed, LineBegin, InBlock;
    var n := r.end - o.offset;
    var before, ms, blocks := Markers(s[..n], o), AllMarkers(s, o), Blocks(s, o);
    var j := |before|;
    StandsOpen(s, o, r);
    BeforeReference(s, o, r);
    LaterMarkers(s, n, o);
    AllMarkersAreLines(s, o);
    JudgeOk(ms);
    BlocksEmpty(s, o);
    if j < |ms| { MarkerBehind(s, o, r, ms[j]); }
    if j > 0 {
      LastBefore(s, o, n);
      assert ms[j - 1] == before[j - 1];
      BlocksAreRanges(s, o, j - 1);
    }
    if j < |ms| {
      BlocksAreRanges(s, o, j);
      BeginsBefore(s, o, ms[j]);
    }
    NamesIt(s, o, r);
    TableIsOrdered(s, o);
    Enclosing(blocks, r, j);
  }

  lemma {:induction false} BeginsBefore(s: seq<Byte>, o: Origin, m: Marker)
    requires Placed(s, o, m)
    ensures m.begin < m.after
  {
  }

  lemma {:induction false} LastBefore(s: seq<Byte>, o: Origin, n: nat)
    requires n <= |s| && Markers(s[..n], o) != []
    ensures var ms := Markers(s[..n], o); ms[|ms| - 1].after <= o.offset + LineBegin(s[..n])
  {
    hide Markers, Placed;
    MarkersPlaced(s[..n], o);
  }

  lemma {:induction false} NamesIt(s: seq<Byte>, o: Origin, r: Reference)
    requires Stands(s, o, r)
    ensures var ms := Markers(s[..r.end - o.offset], o);
            r.hasSource == (ms != []) && (ms != [] ==> r.source == ms[|ms| - 1].Id())
  {
    hide Markers;
  }

  /** In an ordered table, block j - 1 holds what lies between its start and the start of block j. */
  lemma {:induction false} Enclosing(blocks: seq<Block>, r: Reference, j: nat)
    requires Ordered(blocks) && j <= |blocks| && r.start < r.end && r.hasSource == (j > 0)
    requires j > 0 ==> blocks[j - 1].start <= r.start && r.end <= blocks[j - 1].end && r.source == blocks[j - 1].id
    requires j < |blocks| ==> r.end <= blocks[j].start
    ensures InBlock(blocks, r)
  {
    StartsAscend(blocks);
    if j > 0 { assert Holds(blocks[j - 1], r.start); }
    assert j > 0 ==> forall k | 0 <= k < j - 1 :: blocks[k].end <= blocks[j - 1].start;
    assert forall k | 0 <= k < |blocks| && Holds(blocks[k], r.start) :: k == j - 1;
  }

  /** Every reference of an accepted body stands where it says, in the block it names. */
  lemma {:induction false} ReferencesMeaning(s: seq<Byte>, o: Origin)
    requires o.line > 0 && Judge(AllMarkers(s, o)) == Ok
    ensures forall k | 0 <= k < |References(s, o)| :: Written(s, o, Blocks(s, o), References(s, o)[k])
  {
    hide Judge, AllMarkers, Blocks, References, Written, Stands;
    ReferencesSound(s, o);
    forall k | 0 <= k < |References(s, o)|
      ensures Written(s, o, Blocks(s, o), References(s, o)[k])
    {
      ReferenceInBlock(s, o, References(s, o)[k]);
    }
  }

  /** A reference to n#i at bytes a to e is listed. */
  ghost predicate Listed(rs: seq<Reference>, o: Origin, a: nat, e: nat, n: seq<Byte>, i: seq<Byte>) {
    exists r :: r in rs && r.name == n && r.id == i && r.start == o.offset + a && r.end == o.offset + e
  }

  /** The list holds the references of the body, each where it is written and in its block, and all of them. */
  ghost predicate Found(s: seq<Byte>, o: Origin, blocks: seq<Block>, rs: seq<Reference>) {
    && (forall k | 0 <= k < |rs| :: Written(s, o, blocks, rs[k]))
    && (forall j, k | 0 <= j < k < |rs| :: rs[j].end < rs[k].end)
    && (forall a: nat, e: nat, n, i | a <= e <= |s| && NameValid(n) && IdValid(i) && s[a..e] == ReferenceText(n, i) ::
          Listed(rs, o, a, e, n, i))
  }

  lemma {:induction false} WrittenIsListed(s: seq<Byte>, o: Origin, a: nat, e: nat, n: seq<Byte>, i: seq<Byte>)
    requires a <= e <= |s| && NameValid(n) && IdValid(i) && s[a..e] == ReferenceText(n, i)
    ensures Listed(References(s, o), o, a, e, n, i)
  {
    hide References, Markers, Count, NameValid, IdValid;
    var t := ReferenceText(n, i);
    assert s[..e][e - |t|..] == t;
    ReferencesComplete(s, o, e, n, i);
  }

  /** The references of an accepted body are exactly the places where one is written. */
  lemma {:induction false} ReferencesAreFound(s: seq<Byte>, o: Origin)
    requires o.line > 0 && Judge(AllMarkers(s, o)) == Ok
    ensures Found(s, o, Blocks(s, o), References(s, o))
  {
    hide Judge, AllMarkers, Blocks, References, Written, NameValid, IdValid, ReferenceText, Listed, Stands;
    ReferencesSound(s, o);
    ReferencesMeaning(s, o);
    forall a: nat, e: nat, n, i | a <= e <= |s| && NameValid(n) && IdValid(i) && s[a..e] == ReferenceText(n, i)
      ensures Listed(References(s, o), o, a, e, n, i)
    {
      WrittenIsListed(s, o, a, e, n, i);
    }
  }
}
