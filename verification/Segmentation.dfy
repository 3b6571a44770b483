/** The reference definition of the overlapping segmentation that host/semantic_text.c
    computes in a stream: a pure function of the scalar sequence of one body. */
module Segmentation {
  import opened Bytes
  import opened Utf8

  const MAX_SCALARS: nat := 512
  const OVERLAP: nat := 64

  /** yan_semantic_white_space */
  predicate WhiteSpace(v: int) {
    || 0x09 <= v <= 0x0D || v == 0x20 || v == 0x85 || v == 0xA0 || v == 0x1680
    || 0x2000 <= v <= 0x200A || v == 0x2028 || v == 0x2029 || v == 0x202F
    || v == 0x205F || v == 0x3000
  }

  /** Half-open range of scalar indexes. */
  datatype Segment = Segment(first: nat, last: nat)

  /** What the sink receives. */
  datatype Chunk = Chunk(body: seq<Byte>, scalarCount: nat, start: nat, end: nat,
                         firstLine: nat, lastLine: nat)

  /** The boundary before index i falls between CR and LF. */
  predicate SplitsCrLf(vs: seq<Scalar>, i: nat) {
    0 < i < |vs| && vs[i - 1] == CR && vs[i] == LF
  }

  function SegmentEnd(vs: seq<Scalar>, i: nat): nat
    requires i + MAX_SCALARS < |vs|
  {
    if SplitsCrLf(vs, i + MAX_SCALARS) then i + MAX_SCALARS - 1 else i + MAX_SCALARS
  }

  function NextStart(vs: seq<Scalar>, i: nat): (n: nat)
    requires i + MAX_SCALARS < |vs|
    ensures i + 446 <= n <= i + 448
  {
    var n := SegmentEnd(vs, i) - OVERLAP;
    if SplitsCrLf(vs, n) then n - 1 else n
  }

  function Segments(vs: seq<Scalar>, i: nat): seq<Segment>
    requires i <= |vs|
    decreases |vs| - i
  {
    if i + MAX_SCALARS < |vs| then
      [Segment(i, SegmentEnd(vs, i))] + Segments(vs, NextStart(vs, i))
    else if i < |vs| then [Segment(i, |vs|)]
    else []
  }

  function LineFeeds(vs: seq<Scalar>): nat {
    if vs == [] then 0
    else LineFeeds(vs[..|vs| - 1]) + if vs[|vs| - 1] == LF then 1 else 0
  }

  predicate AllWhite(vs: seq<Scalar>) {
    forall i | 0 <= i < |vs| :: WhiteSpace(vs[i])
  }

  function ChunkOf(vs: seq<Scalar>, g: Segment, offset: nat, line: nat): Chunk
    requires g.first < g.last <= |vs|
  {
    var start := offset + |EncodeAll(vs[..g.first])|;
    Chunk(EncodeAll(vs[g.first..g.last]), g.last - g.first,
          start, start + |EncodeAll(vs[g.first..g.last])|,
          line + LineFeeds(vs[..g.first]), line + LineFeeds(vs[..g.last - 1]))
  }

  predicate Within(segs: seq<Segment>, n: nat) {
    forall k | 0 <= k < |segs| :: segs[k].first < segs[k].last <= n
  }

  /** A segment that is all white space yields no chunk. */
  function Piece(vs: seq<Scalar>, g: Segment, offset: nat, line: nat): seq<Chunk>
    requires g.first < g.last <= |vs|
  {
    if AllWhite(vs[g.first..g.last]) then [] else [ChunkOf(vs, g, offset, line)]
  }

  /** The chunks of the segments, in order. */
  function Deliver(vs: seq<Scalar>, segs: seq<Segment>, offset: nat, line: nat): seq<Chunk>
    requires Within(segs, |vs|)
  {
    if segs == [] then []
    else
      Deliver(vs, segs[..|segs| - 1], offset, line) + Piece(vs, segs[|segs| - 1], offset, line)
  }

  lemma {:induction false} SegmentsWithin(vs: seq<Scalar>, i: nat)
    requires i <= |vs|
    ensures Within(Segments(vs, i), |vs|)
    decreases |vs| - i
  {
    if i + MAX_SCALARS < |vs| {
      SegmentsWithin(vs, NextStart(vs, i));
    }
  }

  /** All chunks of a body whose first byte is at `offset` on line `line`. */
  function Chunks(vs: seq<Scalar>, offset: nat, line: nat): seq<Chunk> {
    SegmentsWithin(vs, 0);
    Deliver(vs, Segments(vs, 0), offset, line)
  }

  // ----- properties of the segmentation

  predicate WellPlaced(vs: seq<Scalar>, g: Segment) {
    && g.first < g.last <= g.first + MAX_SCALARS && g.last <= |vs|
    && !SplitsCrLf(vs, g.first) && !SplitsCrLf(vs, g.last)
  }

  predicate Chained(g: Segment, h: Segment) {
    && 446 <= h.first - g.first <= 448
    && OVERLAP <= g.last - h.first <= OVERLAP + 1
    && g.last < h.last
  }

  lemma StepGeometry(vs: seq<Scalar>, i: nat)
    requires i + MAX_SCALARS < |vs| && !SplitsCrLf(vs, i)
    ensures WellPlaced(vs, Segment(i, SegmentEnd(vs, i)))
    ensures !SplitsCrLf(vs, NextStart(vs, i))
    ensures var n := NextStart(vs, i);
            forall last | n < last && (last == |vs| || last >= n + MAX_SCALARS - 1) ::
              Chained(Segment(i, SegmentEnd(vs, i)), Segment(n, last))
  {
  }

  /** Geometry, for every body: segments start at 0, overlap by 64 or 65 scalars, advance by
      446 to 448, hold at most 512, never begin or end inside a CRLF, and the last one
      reaches the end of the body and strictly past the one before it. */
  lemma {:induction false} SegmentGeometry(vs: seq<Scalar>, i: nat)
    requires i < |vs| && !SplitsCrLf(vs, i)
    ensures var segs := Segments(vs, i);
            && segs != [] && segs[0].first == i && segs[|segs| - 1].last == |vs|
            && (segs[0].last == |vs| || segs[0].last >= i + MAX_SCALARS - 1)
            && (forall k | 0 <= k < |segs| :: WellPlaced(vs, segs[k]))
            && (forall k | 0 <= k < |segs| - 1 :: Chained(segs[k], segs[k + 1]))
    decreases |vs| - i
  {
    if i + MAX_SCALARS < |vs| {
      StepGeometry(vs, i);
      var n := NextStart(vs, i);
      SegmentGeometry(vs, n);
      var rest := Segments(vs, n);
      var g := Segment(i, SegmentEnd(vs, i));
      assert Chained(g, Segment(n, rest[0].last));
      assert rest[0] == Segment(n, rest[0].last);
      Prepend(vs, g, rest);
    }
  }

  lemma Prepend(vs: seq<Scalar>, g: Segment, rest: seq<Segment>)
    requires rest != [] && WellPlaced(vs, g) && Chained(g, rest[0])
    requires forall k | 0 <= k < |rest| :: WellPlaced(vs, rest[k])
    requires forall k | 0 <= k < |rest| - 1 :: Chained(rest[k], rest[k + 1])
    ensures var segs := [g] + rest;
            && (forall k | 0 <= k < |segs| :: WellPlaced(vs, segs[k]))
            && (forall k | 0 <= k < |segs| - 1 :: Chained(segs[k], segs[k + 1]))
  {
    var segs := [g] + rest;
    forall k | 0 <= k < |segs| - 1 ensures Chained(segs[k], segs[k + 1]) {
      if k > 0 { assert segs[k] == rest[k - 1] && segs[k + 1] == rest[k - 1 + 1]; }
    }
  }

  /** Every scalar of the body lies in some segment. */
  lemma {:induction false} SegmentsCover(vs: seq<Scalar>, i: nat, at: nat)
    requires i <= at < |vs|
    ensures exists k :: 0 <= k < |Segments(vs, i)| &&
                        Segments(vs, i)[k].first <= at < Segments(vs, i)[k].last
    decreases |vs| - i
  {
    var segs := Segments(vs, i);
    if i + MAX_SCALARS < |vs| && at >= SegmentEnd(vs, i) {
      var n := NextStart(vs, i);
      SegmentsCover(vs, n, at);
      var k :| 0 <= k < |Segments(vs, n)| && Segments(vs, n)[k].first <= at < Segments(vs, n)[k].last;
      assert segs[k + 1] == Segments(vs, n)[k];
    } else {
      assert segs[0].first <= at < segs[0].last;
    }
  }

  /** A chunk carries exactly the bytes of its range of the body. */
  lemma {:induction false} ChunkBytes(vs: seq<Scalar>, g: Segment, offset: nat, line: nat)
    requires g.first < g.last <= |vs|
    ensures var c := ChunkOf(vs, g, offset, line);
            && offset <= c.start <= c.end <= offset + |EncodeAll(vs)|
            && c.body == EncodeAll(vs)[c.start - offset..c.end - offset]
  {
    EncodeAllSplit(vs, g.last);
    EncodeAllSplit(vs[..g.last], g.first);
    assert vs[..g.last][..g.first] == vs[..g.first];
    assert vs[..g.last][g.first..] == vs[g.first..g.last];
  }

  lemma {:induction false} EncodeAllSplit(vs: seq<Scalar>, k: nat)
    requires k <= |vs|
    ensures EncodeAll(vs) == EncodeAll(vs[..k]) + EncodeAll(vs[k..])
  {
    EncodeAllConcat(vs[..k], vs[k..]);
    assert vs[..k] + vs[k..] == vs;
  }

  // ----- the segmentation can be computed without seeing the end

  /** segs are full segments of any body that starts with ds, and the next one starts at i. */
  predicate Path(ds: seq<Scalar>, segs: seq<Segment>, i: nat)
    decreases segs
  {
    if segs == [] then i == 0
    else
      var g := segs[|segs| - 1];
      && g.first + MAX_SCALARS < |ds|
      && g.last == SegmentEnd(ds, g.first)
      && i == NextStart(ds, g.first)
      && Path(ds, segs[..|segs| - 1], g.first)
  }

  lemma {:induction false} PathExtends(ds: seq<Scalar>, vs: seq<Scalar>, segs: seq<Segment>, i: nat)
    requires Path(ds, segs, i) && ds <= vs
    ensures Path(vs, segs, i)
    decreases segs
  {
    if segs != [] {
      PathExtends(ds, vs, segs[..|segs| - 1], segs[|segs| - 1].first);
    }
  }

  lemma {:induction false} PathWithin(ds: seq<Scalar>, segs: seq<Segment>, i: nat)
    requires Path(ds, segs, i)
    ensures Within(segs, |ds|) && i <= |ds|
    decreases segs
  {
    if segs != [] {
      PathWithin(ds, segs[..|segs| - 1], segs[|segs| - 1].first);
    }
  }

  lemma {:induction false} PathPrefix(vs: seq<Scalar>, segs: seq<Segment>, i: nat)
    requires Path(vs, segs, i) && i <= |vs|
    ensures Segments(vs, 0) == segs + Segments(vs, i)
    decreases segs
  {
    if segs != [] {
      var g := segs[|segs| - 1];
      PathPrefix(vs, segs[..|segs| - 1], g.first);
      assert segs == segs[..|segs| - 1] + [g];
    }
  }

  lemma {:induction false} DeliverExtends(ds: seq<Scalar>, vs: seq<Scalar>, segs: seq<Segment>, offset: nat, line: nat)
    requires ds <= vs && Within(segs, |ds|)
    ensures Within(segs, |vs|)
    ensures Deliver(ds, segs, offset, line) == Deliver(vs, segs, offset, line)
    decreases segs
  {
    hide Piece;
    if segs != [] {
      DeliverExtends(ds, vs, segs[..|segs| - 1], offset, line);
      PieceExtends(ds, vs, segs[|segs| - 1], offset, line);
    }
  }

  lemma PieceExtends(ds: seq<Scalar>, vs: seq<Scalar>, g: Segment, offset: nat, line: nat)
    requires ds <= vs && g.first < g.last <= |ds|
    ensures Piece(ds, g, offset, line) == Piece(vs, g, offset, line)
  {
    hide EncodeAll, LineFeeds, AllWhite;
    assert ds[g.first..g.last] == vs[g.first..g.last];
    assert ds[..g.first] == vs[..g.first] && ds[..g.last - 1] == vs[..g.last - 1];
  }

  lemma {:induction false} DeliverConcat(vs: seq<Scalar>, a: seq<Segment>, b: seq<Segment>, offset: nat, line: nat)
    requires Within(a + b, |vs|)
    ensures Within(a, |vs|) && Deliver(vs, a, offset, line) <= Deliver(vs, a + b, offset, line)
    decreases b
  {
    hide Piece;
    forall k | 0 <= k < |a| ensures a[k].first < a[k].last <= |vs| {
      assert (a + b)[k] == a[k];
    }
    if b == [] {
      assert a + b == a;
    } else {
      var b' := b[..|b| - 1];
      assert (a + b)[..|a + b| - 1] == a + b';
      DeliverConcat(vs, a, b', offset, line);
    }
  }

  // ----- what the chunks are, read off the bytes of the body

  lemma {:induction false} ScalarLf(v: Scalar)
    ensures Count(Encode(v), LF) == (if v == LF then 1 else 0)
    ensures Count(Encode(v)[..|Encode(v)| - 1], LF) == 0
  {
    if v < 0x80 {
      assert Encode(v) == [v] && [v][..0] == [];
    } else {
      EncodeShape(v);
      NoByte(Encode(v), LF);
      NoByte(Encode(v)[..|Encode(v)| - 1], LF);
    }
  }

  lemma {:induction false} NoByte(s: seq<Byte>, x: Byte)
    requires x !in s
    ensures Count(s, x) == 0
  {
    if s != [] { NoByte(s[..|s| - 1], x); }
  }

  /** The line feeds among the scalars are the LF bytes of the encoded text. */
  lemma {:induction false} LineFeedsAreBytes(vs: seq<Scalar>)
    ensures LineFeeds(vs) == Count(EncodeAll(vs), LF)
  {
    hide Encode;
    if vs != [] {
      var n := |vs| - 1;
      LineFeedsAreBytes(vs[..n]);
      EncodeAllSnoc(vs[..n], vs[n]);
      assert vs[..n] + [vs[n]] == vs;
      CountConcat(EncodeAll(vs[..n]), Encode(vs[n]), LF);
      ScalarLf(vs[n]);
    }
  }

  /** c is a range of the body with its bytes, the lines of its first and last byte, and its length in
      scalars. */
  ghost predicate Names(c: Chunk, body: seq<Byte>, offset: nat, line: nat) {
    && offset <= c.start < c.end <= offset + |body|
    && c.body == body[c.start - offset..c.end - offset]
    && c.firstLine == line + Count(body[..c.start - offset], LF)
    && c.lastLine == line + Count(body[..c.end - 1 - offset], LF)
    && c.scalarCount <= MAX_SCALARS
    && Spells(c.body, c.scalarCount)
  }

  ghost predicate Spells(body: seq<Byte>, count: nat) {
    exists ws: seq<Scalar> :: EncodeAll(ws) == body && |ws| == count
  }

  lemma {:induction false} ChunkLines(vs: seq<Scalar>, g: Segment, offset: nat, line: nat)
    requires g.first < g.last <= |vs|
    ensures ChunkOf(vs, g, offset, line).firstLine == line + Count(EncodeAll(vs[..g.first]), LF)
    ensures ChunkOf(vs, g, offset, line).lastLine == line + Count(EncodeAll(vs[..g.last - 1]), LF)
  {
    hide EncodeAll, LineFeeds;
    LineFeedsAreBytes(vs[..g.first]);
    LineFeedsAreBytes(vs[..g.last - 1]);
  }

  /** The body up to the chunk, and up to the chunk's last byte. */
  lemma {:induction false} ChunkBounds(vs: seq<Scalar>, g: Segment, offset: nat, line: nat)
    requires g.first < g.last <= |vs|
    ensures var c, e := ChunkOf(vs, g, offset, line), Encode(vs[g.last - 1]);
            && offset <= c.start < c.end <= offset + |EncodeAll(vs)|
            && EncodeAll(vs)[..c.start - offset] == EncodeAll(vs[..g.first])
            && EncodeAll(vs)[..c.end - 1 - offset] == EncodeAll(vs[..g.last - 1]) + e[..|e| - 1]
  {
    hide EncodeAll, Encode, LineFeeds;
    var v := vs[g.last - 1];
    EncodeAllLength(vs[g.first..g.last]);
    EncodeAllSplit(vs, g.first);
    EncodeAllSplit(vs, g.last);
    EncodeAllSplit(vs[..g.last], g.first);
    assert vs[..g.last][..g.first] == vs[..g.first] && vs[..g.last][g.first..] == vs[g.first..g.last];
    EncodeAllSnoc(vs[..g.last - 1], v);
    assert vs[..g.last - 1] + [v] == vs[..g.last];
  }

  lemma {:induction false} ChunkScalars(vs: seq<Scalar>, g: Segment, offset: nat, line: nat)
    requires g.first < g.last <= |vs|
    ensures Spells(ChunkOf(vs, g, offset, line).body, ChunkOf(vs, g, offset, line).scalarCount)
    ensures ChunkOf(vs, g, offset, line).scalarCount == g.last - g.first
  {
    hide EncodeAll, LineFeeds;
    var ws := vs[g.first..g.last];
    assert EncodeAll(ws) == ChunkOf(vs, g, offset, line).body && |ws| == g.last - g.first;
  }

  /** The lines of a chunk are those of its first and last byte. */
  lemma {:induction false} ChunkByteLines(vs: seq<Scalar>, g: Segment, offset: nat, line: nat)
    requires g.first < g.last <= |vs|
    ensures var c := ChunkOf(vs, g, offset, line);
            && offset <= c.start < c.end <= offset + |EncodeAll(vs)|
            && c.firstLine == line + Count(EncodeAll(vs)[..c.start - offset], LF)
            && c.lastLine == line + Count(EncodeAll(vs)[..c.end - 1 - offset], LF)
  {
    hide EncodeAll, Encode, LineFeeds, Count, ChunkOf;
    var e := Encode(vs[g.last - 1]);
    ChunkLines(vs, g, offset, line);
    ChunkBounds(vs, g, offset, line);
    CountConcat(EncodeAll(vs[..g.last - 1]), e[..|e| - 1], LF);
    ScalarLf(vs[g.last - 1]);
  }

  lemma {:induction false} ChunkNames(vs: seq<Scalar>, g: Segment, offset: nat, line: nat)
    requires g.first < g.last <= |vs| && g.last <= g.first + MAX_SCALARS
    ensures Names(ChunkOf(vs, g, offset, line), EncodeAll(vs), offset, line)
  {
    hide EncodeAll, Count, ChunkOf, Spells;
    ChunkBytes(vs, g, offset, line);
    ChunkByteLines(vs, g, offset, line);
    ChunkScalars(vs, g, offset, line);
  }

  predicate Visible(vs: seq<Scalar>, g: Segment)
    requires g.first < g.last <= |vs|
  {
    exists i :: g.first <= i < g.last && !WhiteSpace(vs[i])
  }

  /** c is the chunk of one of the segments, and not all white space. */
  ghost predicate From(c: Chunk, vs: seq<Scalar>, segs: seq<Segment>, offset: nat, line: nat)
    requires Within(segs, |vs|)
  {
    exists j :: 0 <= j < |segs| && Visible(vs, segs[j]) && c == ChunkOf(vs, segs[j], offset, line)
  }

  lemma {:induction false} PieceMeaning(vs: seq<Scalar>, g: Segment, offset: nat, line: nat)
    requires g.first < g.last <= |vs|
    ensures Piece(vs, g, offset, line) == if Visible(vs, g) then [ChunkOf(vs, g, offset, line)] else []
  {
    hide WhiteSpace, ChunkOf;
    var part := vs[g.first..g.last];
    if i :| g.first <= i < g.last && !WhiteSpace(vs[i]) {
      assert part[i - g.first] == vs[i];
    }
  }

  /** Which segments are delivered: those with a scalar that is not white space, and no others. */
  lemma {:induction false} DeliverMeaning(vs: seq<Scalar>, segs: seq<Segment>, offset: nat, line: nat)
    requires Within(segs, |vs|)
    ensures forall j | 0 <= j < |segs| && Visible(vs, segs[j]) :: ChunkOf(vs, segs[j], offset, line) in Deliver(vs, segs, offset, line)
    ensures forall k | 0 <= k < |Deliver(vs, segs, offset, line)| :: From(Deliver(vs, segs, offset, line)[k], vs, segs, offset, line)
    decreases segs
  {
    hide ChunkOf, Visible, Piece;
    if segs != [] {
      var before, g := segs[..|segs| - 1], segs[|segs| - 1];
      DeliverMeaning(vs, before, offset, line);
      PieceMeaning(vs, g, offset, line);
      forall k | 0 <= k < |Deliver(vs, segs, offset, line)|
        ensures From(Deliver(vs, segs, offset, line)[k], vs, segs, offset, line)
      {
        if k < |Deliver(vs, before, offset, line)| {
          FromMore(Deliver(vs, before, offset, line)[k], vs, segs, offset, line);
        }
      }
    }
  }

  lemma {:induction false} FromMore(c: Chunk, vs: seq<Scalar>, segs: seq<Segment>, offset: nat, line: nat)
    requires segs != [] && Within(segs, |vs|) && From(c, vs, segs[..|segs| - 1], offset, line)
    ensures From(c, vs, segs, offset, line)
  {
    hide ChunkOf, Visible;
    var before := segs[..|segs| - 1];
    var j :| 0 <= j < |before| && Visible(vs, before[j]) && c == ChunkOf(vs, before[j], offset, line);
    assert segs[j] == before[j];
  }

  /** Every chunk of a body names its bytes and lines and shows something; everything that is not white
      space is in a chunk. */
  lemma {:induction false} ChunksMeaning(vs: seq<Scalar>, offset: nat, line: nat)
    ensures forall k | 0 <= k < |Chunks(vs, offset, line)| :: Names(Chunks(vs, offset, line)[k], EncodeAll(vs), offset, line)
    ensures forall i | 0 <= i < |vs| && !WhiteSpace(vs[i]) :: Reaches(Chunks(vs, offset, line), vs, i, offset)
  {
    hide ChunkOf, Visible, EncodeAll, Deliver, Names, Segments, WhiteSpace, Reaches;
    var segs, cs := Segments(vs, 0), Chunks(vs, offset, line);
    SegmentsWithin(vs, 0);
    assert cs == Deliver(vs, segs, offset, line);
    DeliverMeaning(vs, segs, offset, line);
    if vs != [] { SegmentGeometry(vs, 0); }
    forall k | 0 <= k < |cs|
      ensures Names(cs[k], EncodeAll(vs), offset, line)
    {
      assert From(cs[k], vs, segs, offset, line);
      var j :| 0 <= j < |segs| && Visible(vs, segs[j]) && cs[k] == ChunkOf(vs, segs[j], offset, line);
      NoSegments(vs);
      assert WellPlaced(vs, segs[j]);
      ChunkNames(vs, segs[j], offset, line);
    }
    forall i | 0 <= i < |vs| && !WhiteSpace(vs[i])
      ensures Reaches(cs, vs, i, offset)
    {
      SegmentsCover(vs, 0, i);
      var j :| 0 <= j < |Segments(vs, 0)| && Segments(vs, 0)[j].first <= i < Segments(vs, 0)[j].last;
      ShowsScalar(vs, segs, j, i, offset, line);
    }
  }

  lemma NoSegments(vs: seq<Scalar>)
    ensures vs == [] ==> Segments(vs, 0) == []
  {
  }

  /** Scalar i of the body lies in one of the chunks. */
  ghost predicate Reaches(cs: seq<Chunk>, vs: seq<Scalar>, i: nat, offset: nat)
    requires i < |vs|
  {
    exists c :: c in cs && c.start <= offset + |EncodeAll(vs[..i])| < offset + |EncodeAll(vs[..i + 1])| <= c.end
  }

  lemma {:induction false} ShowsScalar(vs: seq<Scalar>, segs: seq<Segment>, j: nat, i: nat, offset: nat, line: nat)
    requires Within(segs, |vs|) && j < |segs| && segs[j].first <= i < segs[j].last && !WhiteSpace(vs[i])
    requires Visible(vs, segs[j]) ==> ChunkOf(vs, segs[j], offset, line) in Deliver(vs, segs, offset, line)
    ensures Reaches(Deliver(vs, segs, offset, line), vs, i, offset)
  {
    hide EncodeAll, Encode, WhiteSpace, Deliver, LineFeeds;
    var g := segs[j];
    assert Visible(vs, g);
    var a, b, d := vs[..g.first], vs[g.first..i], vs[i..i + 1];
    EncodeAllConcat(a, b);
    EncodeAllConcat(vs[..i], d);
    EncodeAllLength(d);
    EncodeAllConcat(vs[..i + 1], vs[i + 1..g.last]);
    EncodeAllConcat(a, vs[g.first..g.last]);
    assert a + b == vs[..i] && vs[..i] + d == vs[..i + 1] && vs[..i + 1] + vs[i + 1..g.last] == vs[..g.last];
    assert a + vs[g.first..g.last] == vs[..g.last];
    var c := ChunkOf(vs, g, offset, line);
    assert c.start <= offset + |EncodeAll(vs[..i])| < offset + |EncodeAll(vs[..i + 1])| <= c.end;
  }

  /** A segment ends at the last place within 512 scalars that splits no CRLF, and the next one starts at
      the last such place that leaves an overlap of 64. */
  lemma CutsAreLast(vs: seq<Scalar>, i: nat)
    requires i + MAX_SCALARS < |vs|
    ensures !SplitsCrLf(vs, SegmentEnd(vs, i)) && !SplitsCrLf(vs, NextStart(vs, i))
    ensures SegmentEnd(vs, i) <= i + MAX_SCALARS && NextStart(vs, i) <= SegmentEnd(vs, i) - OVERLAP
    ensures forall e | SegmentEnd(vs, i) < e <= i + MAX_SCALARS :: SplitsCrLf(vs, e)
    ensures forall n | NextStart(vs, i) < n <= SegmentEnd(vs, i) - OVERLAP :: SplitsCrLf(vs, n)
  {
  }

  /** The scalars with the Unicode property White_Space. */
  lemma WhiteSpaceIsUnicode(v: Scalar)
    ensures WhiteSpace(v) <==> v in {
              9, 10, 11, 12, 13, 32, 0x85, 0xA0, 0x1680, 0x2000, 0x2001, 0x2002, 0x2003, 0x2004, 0x2005, 0x2006,
              0x2007, 0x2008, 0x2009, 0x200A, 0x2028, 0x2029, 0x202F, 0x205F, 0x3000}
  {
  }
}
