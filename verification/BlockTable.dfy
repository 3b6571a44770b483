/** What a note body declares: its marker lines, the table of blocks between them and the references
    it holds. Defined on the whole body; os/note_blocks_format.c must find the same while streaming. */
module BlockTable {
  import opened Bytes
  import opened BlockGrammar

  const MARKER: seq<Byte> := ['@' as int, 'b' as int, 'l' as int, 'o' as int, 'c' as int, 'k' as int]

  datatype Result = Ok | Invalid | Stopped | Format | Ambiguous | Limit

  /** Where the body begins in its file. */
  datatype Origin = Origin(offset: nat, line: nat)

  // ----- lines and markers

  function LineBegin(s: seq<Byte>): (i: nat)
    ensures i <= |s|
  {
    if s == [] then 0 else if s[|s| - 1] == LF then |s| else LineBegin(s[..|s| - 1])
  }

  /** The line that s ends in, without the LF that would complete it. */
  function LastLine(s: seq<Byte>): seq<Byte> {
    s[LineBegin(s)..]
  }

  function Strip(line: seq<Byte>): seq<Byte> {
    if line != [] && line[|line| - 1] == CR then line[..|line| - 1] else line
  }

  /** Lines that may only be block markers. */
  predicate Reserved(content: seq<Byte>) {
    |content| >= 6 && content[..6] == MARKER && (|content| > 6 ==> content[6] == SPACE || content[6] == TAB)
  }

  predicate LegalMarker(content: seq<Byte>) {
    |content| >= 7 && content[6] == SPACE && IdValid(content[7..])
  }

  datatype Marker = Marker(content: seq<Byte>, line: nat, begin: nat, after: nat) {
    function Id(): seq<Byte> {
      if |content| < 7 then [] else content[7..]
    }
  }

  /** The marker that the last line of s is, when a line end of `eol` bytes follows it. */
  function MarkerHere(s: seq<Byte>, o: Origin, eol: nat): Marker {
    Marker(Strip(LastLine(s)), o.line + Count(s, LF), o.offset + LineBegin(s), o.offset + |s| + eol)
  }

  function WithLine(ms: seq<Marker>, s: seq<Byte>, o: Origin, eol: nat): seq<Marker> {
    if Reserved(Strip(LastLine(s))) then ms + [MarkerHere(s, o, eol)] else ms
  }

  /** The reserved lines among the LF-terminated lines of s. */
  function Markers(s: seq<Byte>, o: Origin): seq<Marker> {
    if s == [] then []
    else
      var p := s[..|s| - 1];
      if s[|s| - 1] == LF then WithLine(Markers(p, o), p, o, 1) else Markers(p, o)
  }

  /** The reserved lines of a complete body, whose last line may lack its LF. */
  function AllMarkers(s: seq<Byte>, o: Origin): seq<Marker> {
    WithLine(Markers(s, o), s, o, 0)
  }

  predicate Declared(ms: seq<Marker>, id: seq<Byte>) {
    exists k | 0 <= k < |ms| :: ms[k].Id() == id
  }

  /** The verdict on a list of markers: the first offending one decides. */
  function Judge(ms: seq<Marker>): Result {
    if ms == [] then Ok
    else
      var before, last := ms[..|ms| - 1], ms[|ms| - 1];
      if Judge(before) != Ok then Judge(before)
      else if !LegalMarker(last.content) then Format
      else if Declared(before, last.Id()) then Ambiguous
      else if |before| == BLOCK_MAX then Limit
      else Ok
  }

  /** A good list holds at most 64 legal markers with distinct IDs, and only such a list is good. */
  lemma {:induction false} JudgeOk(ms: seq<Marker>)
    ensures Judge(ms) == Ok <==>
            && |ms| <= BLOCK_MAX
            && (forall k | 0 <= k < |ms| :: LegalMarker(ms[k].content))
            && (forall j, k | 0 <= j < k < |ms| :: ms[j].Id() != ms[k].Id())
  {
    hide LegalMarker, Marker.Id;
    if ms != [] {
      var p := ms[..|ms| - 1];
      JudgeOk(p);
      assert forall k | 0 <= k < |p| :: p[k] == ms[k];
      if Judge(ms) == Ok {
        forall j, k | 0 <= j < k < |ms|
          ensures ms[j].Id() != ms[k].Id()
        {
          if k < |p| { assert p[j].Id() != p[k].Id(); } else { assert p[j].Id() != ms[k].Id(); }
        }
      }
    }
  }

  lemma {:induction false} JudgePrefix(ms: seq<Marker>, n: nat)
    requires n <= |ms| && Judge(ms[..n]) != Ok
    ensures Judge(ms) == Judge(ms[..n])
  {
    if n < |ms| {
      assert ms[..|ms| - 1][..n] == ms[..n];
      JudgePrefix(ms[..|ms| - 1], n);
    } else {
      assert ms[..n] == ms;
    }
  }

  lemma {:induction false} MarkersPrefix(s: seq<Byte>, n: nat, o: Origin)
    requires n <= |s|
    ensures Markers(s[..n], o) <= Markers(s, o)
  {
    hide LastLine, Reserved, MarkerHere;
    if n < |s| {
      MarkersPrefix(s[..|s| - 1], n, o);
      assert s[..|s| - 1][..n] == s[..n];
    } else {
      assert s[..n] == s;
    }
  }

  /** What an offending line decides stays decided, whatever follows it. */
  lemma VerdictStays(s: seq<Byte>, n: nat, o: Origin)
    requires n <= |s| && Judge(Markers(s[..n], o)) != Ok
    ensures Judge(AllMarkers(s, o)) == Judge(Markers(s[..n], o))
  {
    hide LastLine, Reserved, MarkerHere;
    var ms := Markers(s[..n], o);
    MarkersPrefix(s, n, o);
    var all := AllMarkers(s, o);
    assert all[..|ms|] == ms;
    JudgePrefix(all, |ms|);
  }

  // ----- where markers lie

  function LineAt(s: seq<Byte>, o: Origin, position: nat): nat
    requires o.offset <= position <= o.offset + |s|
  {
    o.line + Count(s[..position - o.offset], LF)
  }

  /** m is a whole line of s, LF included where there is one. */
  predicate Placed(s: seq<Byte>, o: Origin, m: Marker) {
    && o.offset <= m.begin < m.after <= o.offset + |s|
    && (m.begin == o.offset || s[m.begin - 1 - o.offset] == LF)
    && (forall k | m.begin - o.offset <= k < m.after - 1 - o.offset :: s[k] != LF)
    && (s[m.after - 1 - o.offset] == LF || m.after == o.offset + |s|)
    && m.line == LineAt(s, o, m.begin)
  }

  lemma {:induction false} LineBeginFits(s: seq<Byte>)
    ensures LineBegin(s) == 0 || s[LineBegin(s) - 1] == LF
    ensures forall k | LineBegin(s) <= k < |s| :: s[k] != LF
    ensures Count(s[..LineBegin(s)], LF) == Count(s, LF)
  {
    var p := LineBegin(s);
    if s == [] || s[|s| - 1] == LF {
      assert s[..p] == s;
    } else {
      var t := s[..|s| - 1];
      LineBeginFits(t);
      assert s[..p] == t[..p];
    }
  }

  lemma PlacedGrows(s: seq<Byte>, o: Origin, m: Marker, b: Byte)
    requires Placed(s, o, m) && (m.after == o.offset + |s| ==> s != [] && s[|s| - 1] == LF)
    ensures Placed(s + [b], o, m)
  {
    var t := s + [b];
    assert t[..m.begin - o.offset] == s[..m.begin - o.offset];
    assert forall k | 0 <= k < |s| :: t[k] == s[k];
  }

  lemma HerePlaced(s: seq<Byte>, o: Origin)
    ensures Placed(s + [LF], o, MarkerHere(s, o, 1))
    ensures s != [] && s[|s| - 1] != LF ==> Placed(s, o, MarkerHere(s, o, 0))
  {
    hide Count, LineBegin;
    LineBeginFits(s);
    var t, p, m := s + [LF], LineBegin(s), MarkerHere(s, o, 1);
    assert t[..p] == s[..p];
    assert forall k | 0 <= k < |s| :: t[k] == s[k];
    assert m.begin - o.offset == p && m.begin - 1 - o.offset == p - 1 && m.after - 1 - o.offset == |s|;
    assert LineAt(t, o, m.begin) == o.line + Count(s, LF);
    if s != [] && s[|s| - 1] != LF {
      var h := MarkerHere(s, o, 0);
      assert p < |s|;
      assert h.begin - o.offset == p && h.begin - 1 - o.offset == p - 1 && h.after == o.offset + |s|;
      assert LineAt(s, o, h.begin) == o.line + Count(s, LF);
    }
  }

  predicate InOrder(ms: seq<Marker>) {
    forall k | 0 < k < |ms| :: ms[k - 1].after <= ms[k].begin && ms[k - 1].line < ms[k].line
  }

  /** LF-terminated markers lie in order before the line being read. */
  predicate Below(s: seq<Byte>, o: Origin, m: Marker) {
    Placed(s, o, m) && m.after <= o.offset + LineBegin(s) && m.line < o.line + Count(s, LF)
  }

  lemma {:induction false} MarkersPlaced(s: seq<Byte>, o: Origin)
    ensures InOrder(Markers(s, o))
    ensures forall k | 0 <= k < |Markers(s, o)| :: Below(s, o, Markers(s, o)[k])
  {
    if s != [] {
      var p, b, ms := s[..|s| - 1], s[|s| - 1], Markers(s, o);
      hide Placed, Reserved, LastLine;
      MarkersPlaced(p, o);
      assert p + [b] == s;
      forall k | 0 <= k < |Markers(p, o)|
        ensures Below(s, o, Markers(p, o)[k])
      {
        BelowGrows(p, o, Markers(p, o)[k], b);
      }
      if b == LF { HerePlaced(p, o); }
    }
  }

  lemma BelowGrows(s: seq<Byte>, o: Origin, m: Marker, b: Byte)
    requires Below(s, o, m)
    ensures Below(s + [b], o, m)
  {
    hide Count;
    LineBeginFits(s);
    PlacedGrows(s, o, m, b);
    assert (s + [b])[..|s|] == s;
    CountSnoc(s, b);
  }

  lemma CountSnoc(s: seq<Byte>, b: Byte)
    ensures Count(s + [b], LF) == Count(s, LF) + (if b == LF then 1 else 0)
  {
    assert (s + [b])[..|s|] == s;
  }

  // ----- the block table

  datatype Block = Block(id: seq<Byte>, markerLine: nat, firstLine: nat, lastLine: nat, start: nat, end: nat)

  function Opened(m: Marker): Block {
    Block(m.Id(), m.line, 0, 0, m.after, m.after)
  }

  function Closed(m: Marker, end: nat, lastLine: nat): Block {
    if m.after == end then Block(m.Id(), m.line, 0, 0, end, end)
    else Block(m.Id(), m.line, m.line + 1, lastLine, m.after, end)
  }

  /** Each block ends where the next marker line begins; the last one is still open. */
  function Table(ms: seq<Marker>): seq<Block> {
    seq(|ms|, (k: nat) requires k < |ms| =>
      if k + 1 < |ms| then Closed(ms[k], ms[k + 1].begin, if ms[k + 1].line > 0 then ms[k + 1].line - 1 else 0)
      else Opened(ms[k]))
  }

  /** The line of the last byte of s. */
  function LastLineNumber(s: seq<Byte>, o: Origin): int {
    o.line + Count(s, LF) - (if LineBegin(s) == |s| then 1 else 0)
  }

  function Blocks(s: seq<Byte>, o: Origin): seq<Block>
    requires o.line > 0
  {
    var ms := AllMarkers(s, o);
    if ms == [] then [] else Table(ms)[|ms| - 1 := Closed(ms[|ms| - 1], o.offset + |s|, LastLineNumber(s, o))]
  }

  lemma {:induction false} SameLine(s: seq<Byte>, i: nat, j: nat)
    requires i <= j <= |s| && forall k | i <= k < j :: s[k] != LF
    ensures Count(s[..j], LF) == Count(s[..i], LF)
  {
    if i < j {
      SameLine(s, i, j - 1);
      assert s[..j - 1] + [s[j - 1]] == s[..j];
      CountSnoc(s[..j - 1], s[j - 1]);
    }
  }

  lemma AllMarkersPlaced(s: seq<Byte>, o: Origin)
    ensures InOrder(AllMarkers(s, o))
    ensures forall k | 0 <= k < |AllMarkers(s, o)| :: Placed(s, o, AllMarkers(s, o)[k])
  {
    hide Reserved, Placed;
    MarkersPlaced(s, o);
    if Reserved(Strip(LastLine(s))) {
      ReservedNonempty(s);
      HerePlaced(s, o);
    }
  }

  lemma ReservedNonempty(s: seq<Byte>)
    requires Reserved(Strip(LastLine(s)))
    ensures s != [] && s[|s| - 1] != LF
  {
  }

  lemma AfterMarker(s: seq<Byte>, o: Origin, m: Marker)
    requires Placed(s, o, m) && m.after < o.offset + |s|
    ensures LineAt(s, o, m.after) == m.line + 1
  {
    hide Count;
    var a: nat := m.after - 1 - o.offset;
    SameLine(s, m.begin - o.offset, a);
    assert s[..a] + [s[a]] == s[..a + 1];
    CountSnoc(s[..a], s[a]);
  }

  lemma BeforeLine(s: seq<Byte>, o: Origin, end: nat)
    requires o.offset < end <= o.offset + |s|
    ensures s[end - 1 - o.offset] == LF ==> LineAt(s, o, end - 1) == LineAt(s, o, end) - 1
    ensures s[end - 1 - o.offset] != LF ==> LineAt(s, o, end - 1) == LineAt(s, o, end)
  {
    hide Count;
    var a: nat := end - 1 - o.offset;
    assert s[..a] + [s[a]] == s[..a + 1];
    CountSnoc(s[..a], s[a]);
  }

  lemma LastByteLine(s: seq<Byte>, o: Origin)
    requires s != []
    ensures LastLineNumber(s, o) == LineAt(s, o, o.offset + |s| - 1)
  {
    hide Count;
    BeforeLine(s, o, o.offset + |s|);
    assert s[..|s|] == s;
  }

  /** The block's lines are those of its first and last byte, 0 and 0 when it is empty. */
  predicate NamesLines(s: seq<Byte>, o: Origin, b: Block) {
    && o.offset <= b.start <= b.end <= o.offset + |s|
    && if b.start == b.end then b.firstLine == b.lastLine == 0
       else b.firstLine == LineAt(s, o, b.start) && b.lastLine == LineAt(s, o, b.end - 1)
  }

  lemma ClosedNames(s: seq<Byte>, o: Origin, m: Marker, end: nat, lastLine: nat)
    requires Placed(s, o, m) && m.after <= end <= o.offset + |s|
    requires m.after < end ==> lastLine == LineAt(s, o, end - 1)
    ensures NamesLines(s, o, Closed(m, end, lastLine))
  {
    hide LineAt;
    if m.after < end { AfterMarker(s, o, m); }
  }

  lemma BeforeMarker(s: seq<Byte>, o: Origin, m: Marker)
    requires Placed(s, o, m) && o.offset < m.begin
    ensures m.line > 0 && m.line - 1 == LineAt(s, o, m.begin - 1)
  {
    hide LineAt;
    BeforeLine(s, o, m.begin);
  }

  lemma BlockEntry(s: seq<Byte>, o: Origin, k: nat)
    requires o.line > 0 && k < |AllMarkers(s, o)|
    ensures |Blocks(s, o)| == |AllMarkers(s, o)|
    ensures k + 1 < |AllMarkers(s, o)| && AllMarkers(s, o)[k + 1].line > 0 ==>
              Blocks(s, o)[k] == Closed(AllMarkers(s, o)[k], AllMarkers(s, o)[k + 1].begin, AllMarkers(s, o)[k + 1].line - 1)
    ensures k + 1 == |AllMarkers(s, o)| ==>
              Blocks(s, o)[k] == Closed(AllMarkers(s, o)[k], o.offset + |s|, LastLineNumber(s, o))
  {
    hide AllMarkers, LastLineNumber, Closed, Opened;
  }

  /** Block k is exactly the bytes from the end of marker line k to the next marker line or EOF. */
  lemma BlocksAreRanges(s: seq<Byte>, o: Origin, k: nat)
    requires o.line > 0 && k < |AllMarkers(s, o)|
    ensures |Blocks(s, o)| == |AllMarkers(s, o)|
    ensures Placed(s, o, AllMarkers(s, o)[k]) && Blocks(s, o)[k].id == AllMarkers(s, o)[k].Id()
    ensures Blocks(s, o)[k].markerLine == LineAt(s, o, AllMarkers(s, o)[k].begin)
    ensures Blocks(s, o)[k].start == AllMarkers(s, o)[k].after
    ensures Blocks(s, o)[k].end == if k + 1 < |AllMarkers(s, o)| then AllMarkers(s, o)[k + 1].begin else o.offset + |s|
    ensures NamesLines(s, o, Blocks(s, o)[k])
  {
    hide AllMarkers, LineAt, NamesLines, LastLineNumber, Marker.Id, Blocks, Table;
    var ms := AllMarkers(s, o);
    AllMarkersPlaced(s, o);
    BlockEntry(s, o, k);
    assert Placed(s, o, ms[k]);
    if k + 1 < |ms| {
      var next := ms[k + 1];
      BeforeMarker(s, o, next);
      ClosedNames(s, o, ms[k], next.begin, next.line - 1);
    } else {
      LastByteLine(s, o);
      ClosedNames(s, o, ms[k], o.offset + |s|, LastLineNumber(s, o));
    }
  }

  // ----- references

  datatype Reference = Reference(name: seq<Byte>, id: seq<Byte>, hasSource: bool, source: seq<Byte>,
                                 line: nat, start: nat, end: nat)

  /** The reference to `name`#`id` that ends with s, with the block it stands in. */
  function ReferenceAt(s: seq<Byte>, name: seq<Byte>, id: seq<Byte>, o: Origin): Reference
    requires EndsReference(s, name, id)
  {
    var ms := Markers(s, o);
    Reference(name, id, ms != [], if ms == [] then [] else ms[|ms| - 1].Id(),
              o.line + Count(s, LF), o.offset + |s| - |ReferenceText(name, id)|, o.offset + |s|)
  }

  ghost predicate ReferenceEnds(s: seq<Byte>) {
    exists n, i :: EndsReference(s, n, i)
  }

  /** The references of a body in byte order. */
  ghost function References(s: seq<Byte>, o: Origin): seq<Reference> {
    if s == [] then []
    else
      var before := References(s[..|s| - 1], o);
      if ReferenceEnds(s) then
        var n, i :| EndsReference(s, n, i);
        before + [ReferenceAt(s, n, i, o)]
      else before
  }

  ghost predicate Stands(s: seq<Byte>, o: Origin, r: Reference) {
    && o.offset < r.end <= o.offset + |s|
    && EndsReference(s[..r.end - o.offset], r.name, r.id)
    && r == ReferenceAt(s[..r.end - o.offset], r.name, r.id, o)
  }

  /** Only legal references are listed, each at its own place, in strictly increasing order. */
  lemma {:induction false} ReferencesSound(s: seq<Byte>, o: Origin)
    ensures forall k | 0 <= k < |References(s, o)| :: Stands(s, o, References(s, o)[k])
    ensures forall j, k | 0 <= j < k < |References(s, o)| :: References(s, o)[j].end < References(s, o)[k].end
  {
    hide EndsReference, ReferenceAt;
    if s != [] {
      var p, rs := s[..|s| - 1], References(s, o);
      ReferencesSound(p, o);
      forall k | 0 <= k < |References(p, o)|
        ensures Stands(s, o, References(p, o)[k])
      {
        var e := References(p, o)[k].end - o.offset;
        assert p[..e] == s[..e];
      }
      if ReferenceEnds(s) {
        assert s[..|s|] == s;
        assert forall n, i | EndsReference(s, n, i) :: ReferenceAt(s, n, i, o).end == o.offset + |s| by { EndOfReference(s, o); }
        assert forall n, i | EndsReference(s, n, i) :: ReferenceAt(s, n, i, o).name == n && ReferenceAt(s, n, i, o).id == i by {
          EndOfReference(s, o);
        }
      }
    }
  }

  lemma EndOfReference(s: seq<Byte>, o: Origin)
    ensures forall n, i | EndsReference(s, n, i) ::
              && ReferenceAt(s, n, i, o).end == o.offset + |s|
              && ReferenceAt(s, n, i, o).name == n && ReferenceAt(s, n, i, o).id == i
  {
  }

  /** Every legal reference in the body is listed. */
  lemma {:induction false} ReferencesComplete(s: seq<Byte>, o: Origin, e: nat, n: seq<Byte>, i: seq<Byte>)
    requires 0 < e <= |s| && EndsReference(s[..e], n, i)
    ensures ReferenceAt(s[..e], n, i, o) in References(s, o)
  {
    hide EndsReference, ReferenceAt;
    if e == |s| {
      assert s[..e] == s;
      forall m, k | EndsReference(s, m, k)
        ensures m == n && k == i
      {
        OneReference(s, n, i, m, k);
      }
    } else {
      assert s[..|s| - 1][..e] == s[..e];
      ReferencesComplete(s[..|s| - 1], o, e, n, i);
    }
  }

  lemma {:induction false} ReferencesPrefix(s: seq<Byte>, n: nat, o: Origin)
    requires n <= |s|
    ensures References(s[..n], o) <= References(s, o)
  {
    if n < |s| {
      ReferencesPrefix(s[..|s| - 1], n, o);
      assert s[..|s| - 1][..n] == s[..n];
    } else {
      assert s[..n] == s;
    }
  }
}
