/** os/search_terms_core.c: the snippet around a hit, cut out of a fixed window of bytes. */
module SearchSnippet {
  import opened Bytes
  import opened Utf8
  import opened FileSource

  const LEFT: nat := 40
  const TOTAL: nat := 160
  const WINDOW_LEFT: nat := 255
  const WINDOW_RIGHT: nat := 704
  const RING: nat := 41

  // ----- the snippet, on scalars

  /** Where scalar j begins in the encoded text. */
  function Pos(vs: seq<Scalar>, j: nat): nat
    requires j <= |vs|
  {
    |EncodeAll(vs[..j])|
  }

  /** The first scalar of the line that scalar a stands in. */
  function LineBegin(vs: seq<Scalar>, a: nat): (b: nat)
    requires a <= |vs|
    ensures b <= a && (b == 0 || vs[b - 1] == LF) && forall k | b <= k < a :: vs[k] != LF
  {
    if a == 0 || vs[a - 1] == LF then a else LineBegin(vs, a - 1)
  }

  predicate EndsLine(vs: seq<Scalar>, k: nat)
    requires k < |vs|
  {
    vs[k] == LF || (vs[k] == CR && k + 1 < |vs| && vs[k + 1] == LF)
  }

  /** Where the content of that line ends: LF and CRLF end it, a bare CR does not. */
  function LineEnd(vs: seq<Scalar>, a: nat): (e: nat)
    requires a <= |vs|
    ensures a <= e <= |vs| && (e < |vs| ==> EndsLine(vs, e)) && forall k | a <= k < e :: !EndsLine(vs, k)
    decreases |vs| - a
  {
    if a == |vs| || EndsLine(vs, a) then a else LineEnd(vs, a + 1)
  }

  function Min(a: nat, b: nat): nat {
    if a < b then a else b
  }

  datatype Snippet = Snippet(text: seq<Byte>, leftTruncated: bool, rightTruncated: bool)

  /** Up to 40 scalars before the anchor and 160 in all, within its line; a flag says that the line has
      more on that side. */
  function SnippetOf(vs: seq<Scalar>, a: nat): Snippet
    requires a <= |vs|
  {
    var before, after := a - LineBegin(vs, a), LineEnd(vs, a) - a;
    var left := Min(LEFT, before);
    var right := Min(TOTAL - left, after);
    Snippet(EncodeAll(vs[a - left..a + right]), before > LEFT, after > TOTAL - left)
  }

  /** The scalars i to j around place a: no line feed among them and no CRLF ending, at most 40 before a and 160
      in all; whatever the line has more on a side is flagged, and only a full snippet leaves it out. */
  predicate Excerpt(vs: seq<Scalar>, a: nat, i: nat, j: nat, left: bool, right: bool) {
    && i <= a <= j <= |vs|
    && (forall k | i <= k < a :: vs[k] != LF)
    && (forall k | a <= k < j :: vs[k] != LF && !(vs[k] == CR && k + 1 < |vs| && vs[k + 1] == LF))
    && a - i <= 40 && j - i <= 160
    && (left <==> i > 0 && vs[i - 1] != LF)
    && (left ==> a - i == 40)
    && (right <==> j < |vs| && vs[j] != LF && !(vs[j] == CR && j + 1 < |vs| && vs[j + 1] == LF))
    && (right ==> j - i == 160)
  }

  lemma {:induction false} SnippetMeaning(vs: seq<Scalar>, a: nat) returns (i: nat, j: nat)
    requires a <= |vs|
    ensures var s := SnippetOf(vs, a);
            Excerpt(vs, a, i, j, s.leftTruncated, s.rightTruncated) && s.text == EncodeAll(vs[i..j])
  {
    hide EncodeAll;
    var b, e := LineBegin(vs, a), LineEnd(vs, a);
    var left := Min(LEFT, a - b);
    i, j := a - left, a + Min(TOTAL - left, e - a);
    forall k | a <= k < j
      ensures vs[k] != LF && !(vs[k] == CR && k + 1 < |vs| && vs[k + 1] == LF)
    {
      assert !EndsLine(vs, k);
    }
    assert j < |vs| ==> (j < e <==> !EndsLine(vs, j));
  }

  // ----- bytes and scalars

  lemma PosStep(vs: seq<Scalar>, j: nat)
    requires j < |vs|
    ensures Pos(vs, j + 1) == Pos(vs, j) + |Encode(vs[j])|
    ensures Pos(vs, j + 1) <= |EncodeAll(vs)| && EncodeAll(vs)[Pos(vs, j)..Pos(vs, j + 1)] == Encode(vs[j])
  {
    hide Encode, EncodeAll;
    EncodeAllSnoc(vs[..j], vs[j]);
    assert vs[..j + 1] == vs[..j] + [vs[j]];
    EncodeAllConcat(vs[..j + 1], vs[j + 1..]);
    assert vs == vs[..j + 1] + vs[j + 1..];
  }

  lemma PosSpan(vs: seq<Scalar>, i: nat, j: nat)
    requires i <= j <= |vs|
    ensures Pos(vs, i) + (j - i) <= Pos(vs, j) <= Pos(vs, i) + 4 * (j - i) && Pos(vs, j) <= |EncodeAll(vs)|
    ensures EncodeAll(vs)[Pos(vs, i)..Pos(vs, j)] == EncodeAll(vs[i..j])
  {
    hide Encode, EncodeAll;
    EncodeAllConcat(vs[..i], vs[i..j]);
    assert vs[..j] == vs[..i] + vs[i..j];
    EncodeAllConcat(vs[..j], vs[j..]);
    assert vs == vs[..j] + vs[j..];
    EncodeAllLength(vs[i..j]);
    Middle(EncodeAll(vs[..i]), EncodeAll(vs[i..j]), EncodeAll(vs[j..]));
  }

  lemma Middle(a: seq<Byte>, b: seq<Byte>, c: seq<Byte>)
    ensures (a + b + c)[|a|..|a + b|] == b
  {
  }

  lemma PosEnds(vs: seq<Scalar>)
    ensures Pos(vs, 0) == 0 && Pos(vs, |vs|) == |EncodeAll(vs)|
  {
    assert vs[..|vs|] == vs && vs[..0] == [];
  }

  lemma FirstByte(v: Scalar)
    ensures Encode(v)[0] == LF <==> v == LF
    ensures Encode(v)[0] == CR <==> v == CR
    ensures !Continuation(Encode(v)[0]) && (v == LF || v == CR ==> |Encode(v)| == 1)
    ensures forall k | 0 < k < |Encode(v)| :: Continuation(Encode(v)[k])
  {
    EncodeShape(v);
  }

  /** Scalar j lies whole in the window w = s[lo..lo + |w|]. */
  ghost predicate Shown(vs: seq<Scalar>, w: seq<Byte>, lo: nat, j: nat) {
    && lo + |w| <= |EncodeAll(vs)| && w == EncodeAll(vs)[lo..lo + |w|]
    && j < |vs| && lo <= Pos(vs, j) && Pos(vs, j + 1) <= lo + |w|
  }

  /** What the walks see at the start of a scalar. */
  lemma AtScalar(vs: seq<Scalar>, w: seq<Byte>, lo: nat, j: nat)
    requires Shown(vs, w, lo, j)
    ensures var i := Pos(vs, j) - lo;
            && 0 <= i < |w| && i + |Encode(vs[j])| <= |w| && w[i] == Encode(vs[j])[0]
            && Expected(w[i..]) == |Encode(vs[j])| > 0
            && Pos(vs, j + 1) == Pos(vs, j) + |Encode(vs[j])|
  {
    hide Encode, EncodeAll, Expected;
    PosStep(vs, j);
    var i := Pos(vs, j) - lo;
    var e := Encode(vs[j]);
    var s := EncodeAll(vs);
    forall k | 0 <= k < |e|
      ensures w[i..][k] == e[k]
    {
      assert s[Pos(vs, j)..Pos(vs, j + 1)][k] == s[Pos(vs, j) + k] == w[i + k];
    }
    assert w[i..][..|e|] == e;
    BeginsExpected(w[i..], vs[j]);
  }

  /** The CR of a CRLF, seen by its second byte. */
  lemma NextByte(vs: seq<Scalar>, w: seq<Byte>, lo: nat, j: nat)
    requires Shown(vs, w, lo, j) && vs[j] == CR
    requires lo + |w| == |EncodeAll(vs)| || Pos(vs, j + 1) < lo + |w|
    ensures var i := Pos(vs, j) - lo;
            (i + 1 < |w| && w[i + 1] == LF) <==> EndsLine(vs, j)
  {
    hide Encode, EncodeAll;
    PosStep(vs, j);
    FirstByte(CR);
    PosEnds(vs);
    if j + 1 < |vs| {
      PosStep(vs, j + 1);
      FirstByte(vs[j + 1]);
      var i := Pos(vs, j) - lo;
      if i + 1 < |w| {
        assert w[i + 1] == EncodeAll(vs)[Pos(vs, j + 1)] == EncodeAll(vs)[Pos(vs, j + 1)..Pos(vs, j + 2)][0];
      }
    } else {
      assert j + 1 == |vs|;
    }
  }

  // ----- the walks

  /** The window w holds the bytes of the text from byte lo on, and scalar a, which is no LF, at its anchor.
      The walks run over any bytes; what they find is stated for such a window. */
  ghost predicate Framed(w: seq<Byte>, anchor: nat, vs: seq<Scalar>, lo: nat, a: nat) {
    && lo + |w| <= |EncodeAll(vs)| && w == EncodeAll(vs)[lo..lo + |w|]
    && anchor < |w| && a < |vs| && vs[a] != LF && lo + anchor == Pos(vs, a)
  }

  /** snippet_align: past the bytes of a scalar that the window cuts. */
  method Align(w: seq<Byte>, anchor: nat, ghost vs: seq<Scalar>, ghost lo: nat, ghost a: nat) returns (base: nat, ghost j: nat)
    requires anchor < |w|
    ensures base <= anchor
    ensures Framed(w, anchor, vs, lo, a) ==> base <= 3 && j <= a && Pos(vs, j) == lo + base && (lo == 0 ==> base == 0)
  {
    hide EncodeAll, Encode, Trailing;
    ghost var framed := Framed(w, anchor, vs, lo, a);
    PosEnds(vs);
    base, j := 0, 0;
    if framed {
      j := FirstAt(vs, lo, a);
      CutScalar(vs, lo, j);
    }
    while base < |w| && base < anchor && Continuation(w[base])
      invariant base <= anchor && (framed ==> j <= a && lo + base <= Pos(vs, j))
      decreases |w| - base
    {
      if framed && lo + base == Pos(vs, j) { NotInside(vs, w, lo, base, j, a); }
      base := base + 1;
    }
    if framed && lo + base < Pos(vs, j) { StillInside(vs, w, lo, base, j, anchor, a); }
  }

  /** The first scalar that begins at or after byte `lo`. */
  lemma {:induction false} FirstAt(vs: seq<Scalar>, lo: nat, a: nat) returns (j: nat)
    requires a <= |vs| && lo <= Pos(vs, a)
    ensures j <= a && lo <= Pos(vs, j) && (j > 0 ==> Pos(vs, j - 1) < lo) && (lo == 0 ==> j == 0)
  {
    hide EncodeAll, Encode;
    PosEnds(vs);
    if lo == 0 {
      return 0;
    }
    j := a;
    while j > 0 && Pos(vs, j - 1) >= lo
      invariant j <= a && lo <= Pos(vs, j)
    {
      j := j - 1;
    }
  }

  predicate Trailing(s: seq<Byte>, from: nat, to: nat) {
    to <= |s| && forall k | from <= k < to :: Continuation(s[k])
  }

  lemma CutScalar(vs: seq<Scalar>, lo: nat, j: nat)
    requires j <= |vs| && lo <= Pos(vs, j) && (j > 0 ==> Pos(vs, j - 1) < lo) && (lo == 0 ==> j == 0)
    ensures Pos(vs, j) <= lo + 3
    ensures Trailing(EncodeAll(vs), lo, Pos(vs, j))
  {
    hide EncodeAll, Encode;
    PosEnds(vs);
    if j > 0 {
      PosStep(vs, j - 1);
      FirstByte(vs[j - 1]);
      var s, p, q := EncodeAll(vs), Pos(vs, j - 1), Pos(vs, j);
      forall k | lo <= k < q
        ensures Continuation(s[k])
      {
        assert s[p..q][k - p] == s[k];
      }
    }
  }

  lemma NotInside(vs: seq<Scalar>, w: seq<Byte>, lo: nat, base: nat, j: nat, a: nat)
    requires lo + |w| <= |EncodeAll(vs)| && w == EncodeAll(vs)[lo..lo + |w|] && base < |w|
    requires j <= a < |vs| && lo + base == Pos(vs, j)
    ensures !Continuation(w[base])
  {
    hide EncodeAll, Encode;
    PosStep(vs, j);
    FirstByte(vs[j]);
    assert w[base] == EncodeAll(vs)[Pos(vs, j)..Pos(vs, j + 1)][0];
  }

  lemma StillInside(vs: seq<Scalar>, w: seq<Byte>, lo: nat, base: nat, j: nat, anchor: nat, a: nat)
    requires lo + |w| <= |EncodeAll(vs)| && w == EncodeAll(vs)[lo..lo + |w|] && j <= a < |vs|
    requires anchor < |w| && lo + anchor == Pos(vs, a) && lo + base < Pos(vs, j)
    requires Trailing(EncodeAll(vs), lo, Pos(vs, j))
    ensures base < anchor && Continuation(w[base])
  {
    hide EncodeAll, Encode;
    PosSpan(vs, j, a);
    assert w[base] == EncodeAll(vs)[lo + base];
  }

  /** The state of the left walk: `count` content scalars since the last line end or the base, and the
      starts of the last 41 of them. */
  ghost predicate Walked(vs: seq<Scalar>, lo: nat, i: nat, j: nat, from: nat, count: nat, starts: seq<nat>) {
    && from <= j <= |vs| && count == j - from && lo + i == Pos(vs, j) && |starts| == RING
    && (forall k | from <= k < j :: vs[k] != LF)
    && (forall k: nat | from <= k < j && j <= k + RING :: StartsAt(vs, lo, starts, from, k))
  }

  predicate StartsAt(vs: seq<Scalar>, lo: nat, starts: seq<nat>, from: nat, k: nat)
    requires |starts| == RING
  {
    from <= k <= |vs| && lo + starts[(k - from) % RING] == Pos(vs, k)
  }

  lemma Remembered(vs: seq<Scalar>, lo: nat, i: nat, j: nat, from: nat, count: nat, starts: seq<nat>, next: nat)
    requires Walked(vs, lo, i, j, from, count, starts) && j < |vs| && vs[j] != LF && lo + next == Pos(vs, j + 1)
    ensures Walked(vs, lo, next, j + 1, from, count + 1, starts[count % RING := i])
  {
    hide Pos;
    var now := starts[count % RING := i];
    var more := j + 1;
    forall k: nat | from <= k < more && more <= k + RING
      ensures StartsAt(vs, lo, now, from, k)
    {
      if k < j {
        assert StartsAt(vs, lo, starts, from, k);
        DifferentCells(k - from, count);
      }
    }
  }

  lemma DifferentCells(x: nat, y: nat)
    requires x < y < x + RING
    ensures x % RING != y % RING
  {
  }

  lemma RingStep(x: nat)
    ensures (x % RING + 1) % RING == (x + 1) % RING
  {
  }

  lemma Restart(vs: seq<Scalar>, lo: nat, i: nat, j: nat, starts: seq<nat>)
    requires j <= |vs| && lo + i == Pos(vs, j) && |starts| == RING
    ensures Walked(vs, lo, i, j, j, 0, starts)
  {
  }

  /** Where the left walk stands: at scalar j of the line or window that begins at scalar `from`. */
  ghost predicate Standing(vs: seq<Scalar>, lo: nat, anchor: nat, first: nat, a: nat, i: nat, j: nat, from: nat,
                           count: nat, starts: seq<nat>)
  {
    && first <= from <= j <= a && i <= anchor && Walked(vs, lo, i, j, from, count, starts)
    && j <= |vs| && lo + i == Pos(vs, j) && (i < anchor ==> j < a) && (i == anchor ==> j == a)
    && (from == first || (first < from <= |vs| && vs[from - 1] == LF))
  }

  /** The walk over the scalars before the anchor. `from` is where its line or its window begins. */
  method WalkLeft(w: seq<Byte>, base: nat, anchor: nat, ghost vs: seq<Scalar>, ghost lo: nat, ghost first: nat, ghost a: nat)
    returns (starts: seq<nat>, ringPos: nat, count: nat, ghost from: nat)
    requires base <= anchor < |w|
    ensures |starts| == RING && forall k | 0 <= k < RING :: starts[k] <= anchor
    ensures ringPos == count % RING
    ensures Framed(w, anchor, vs, lo, a) && first <= a <= |vs| && lo + base == Pos(vs, first) ==>
              && first <= from <= a && Walked(vs, lo, anchor, a, from, count, starts)
              && (from == first || (first < from && vs[from - 1] == LF))
  {
    hide EncodeAll, Encode, Walked, Pos, EndsLine, Framed, Standing;
    ghost var good := Framed(w, anchor, vs, lo, a) && first <= a <= |vs| && lo + base == Pos(vs, first);
    starts := seq(RING, _ => 0);
    ringPos, count := 0, 0;
    var i := base;
    ghost var j := first;
    from := first;
    if good { Stand(w, vs, lo, anchor, first, a, i, first, first, starts); }
    while i < anchor
      invariant i <= |w| && |starts| == RING && (forall k | 0 <= k < RING :: starts[k] <= anchor) && ringPos == count % RING
      invariant good ==> Standing(vs, lo, anchor, first, a, i, j, from, count, starts)
      decreases |w| - i
    {
      if good { ByteAt(w, vs, lo, anchor, first, a, i, j, from, count, starts); }
      var byte := w[i];
      if byte == LF {
        i, ringPos, count := i + 1, 0, 0;
        j := j + 1;
        from := j;
        if good { Stand(w, vs, lo, anchor, first, a, i, j, from, starts); }
      } else if byte == CR && i + 1 < |w| && w[i + 1] == LF {
        i, ringPos, count := i + 2, 0, 0;
        j := j + 2;
        from := j;
        if good { Stand(w, vs, lo, anchor, first, a, i, j, from, starts); }
      } else {
        var need := if byte == CR then 1 else Expected(w[i..]);
        if need == 0 || i + need > |w| || i + need > anchor {
          need := 1;
        }
        if good { Kept(w, vs, lo, anchor, first, a, i, j, from, count, starts, need); }
        RingStep(count);
        starts := starts[ringPos := i];
        ringPos := (ringPos + 1) % RING;
        count := count + 1;
        i := i + need;
        j := j + 1;
      }
    }
    if good { Arrived(vs, lo, anchor, first, a, i, j, from, count, starts); }
  }

  /** At the beginning of a line or of the window, nothing is remembered. */
  lemma Stand(w: seq<Byte>, vs: seq<Scalar>, lo: nat, anchor: nat, first: nat, a: nat, i: nat, j: nat, from: nat, starts: seq<nat>)
    requires Framed(w, anchor, vs, lo, a) && first <= from == j <= a && lo + i == Pos(vs, j) && |starts| == RING
    requires from == first || (first < from && vs[from - 1] == LF)
    ensures Standing(vs, lo, anchor, first, a, i, j, from, 0, starts)
  {
    hide EncodeAll, Encode, Walked, Pos;
    Restart(vs, lo, i, j, starts);
    BeforeAnchor(vs, lo, i, j, anchor, a);
  }

  lemma Arrived(vs: seq<Scalar>, lo: nat, anchor: nat, first: nat, a: nat, i: nat, j: nat, from: nat, count: nat, starts: seq<nat>)
    requires Standing(vs, lo, anchor, first, a, i, j, from, count, starts) && i >= anchor
    ensures i == anchor && j == a && first <= from <= a && a <= |vs| && Walked(vs, lo, anchor, a, from, count, starts)
    ensures from == first || (first < from && vs[from - 1] == LF)
  {
    hide EncodeAll, Encode, Walked, Pos;
  }

  /** The byte the left walk stands on begins scalar j, and tells which scalar the walk reaches next. */
  lemma ByteAt(w: seq<Byte>, vs: seq<Scalar>, lo: nat, anchor: nat, first: nat, a: nat, i: nat, j: nat, from: nat, count: nat, starts: seq<nat>)
    requires Framed(w, anchor, vs, lo, a) && Standing(vs, lo, anchor, first, a, i, j, from, count, starts) && i < anchor
    ensures i < |w| && first <= j < a < |vs|
    ensures w[i] == LF ==> vs[j] == LF && lo + i + 1 == Pos(vs, j + 1)
    ensures w[i] == CR && i + 1 < |w| && w[i + 1] == LF ==> j + 2 <= a && vs[j + 1] == LF && lo + i + 2 == Pos(vs, j + 2)
  {
    hide EncodeAll, Encode, Walked;
    Inside(vs, w, lo, j, anchor, a);
    AtScalar(vs, w, lo, j);
    FirstByte(vs[j]);
    if w[i] == CR && i + 1 < |w| && w[i + 1] == LF {
      CrLf(vs, w, lo, j, anchor, a);
    }
  }

  /** A content scalar is remembered. */
  lemma Kept(w: seq<Byte>, vs: seq<Scalar>, lo: nat, anchor: nat, first: nat, a: nat, i: nat, j: nat, from: nat, count: nat,
             starts: seq<nat>, need: nat)
    requires Framed(w, anchor, vs, lo, a) && Standing(vs, lo, anchor, first, a, i, j, from, count, starts) && i < anchor
    requires i < |w| && w[i] != LF && |starts| == RING
    requires var n := if w[i] == CR then 1 else Expected(w[i..]);
             need == if n == 0 || i + n > |w| || i + n > anchor then 1 else n
    ensures Standing(vs, lo, anchor, first, a, i + need, j + 1, from, count + 1, starts[count % RING := i])
  {
    hide EncodeAll, Encode, Walked;
    Inside(vs, w, lo, j, anchor, a);
    AtScalar(vs, w, lo, j);
    FirstByte(vs[j]);
    assert need == |Encode(vs[j])|;
    BeforeAnchor(vs, lo, i + need, j + 1, anchor, a);
    Remembered(vs, lo, i, j, from, count, starts, i + need);
  }

  /** Bytes before the anchor are scalars before it. */
  lemma BeforeAnchor(vs: seq<Scalar>, lo: nat, i: nat, j: nat, anchor: nat, a: nat)
    requires j <= |vs| && a <= |vs| && lo + i == Pos(vs, j) && lo + anchor == Pos(vs, a)
    ensures i < anchor <==> j < a
    ensures i == anchor <==> j == a
  {
    hide EncodeAll, Encode;
    if j <= a { PosSpan(vs, j, a); } else { PosSpan(vs, a, j); }
  }

  lemma Inside(vs: seq<Scalar>, w: seq<Byte>, lo: nat, j: nat, anchor: nat, a: nat)
    requires lo + |w| <= |EncodeAll(vs)| && w == EncodeAll(vs)[lo..lo + |w|] && anchor < |w|
    requires j < a < |vs| && lo <= Pos(vs, j) && lo + anchor == Pos(vs, a)
    ensures Shown(vs, w, lo, j) && Pos(vs, j + 1) <= lo + anchor
  {
    hide EncodeAll, Encode;
    PosSpan(vs, j + 1, a);
  }

  /** A CRLF before the anchor is two scalars before it. */
  lemma CrLf(vs: seq<Scalar>, w: seq<Byte>, lo: nat, j: nat, anchor: nat, a: nat)
    requires lo + |w| <= |EncodeAll(vs)| && w == EncodeAll(vs)[lo..lo + |w|] && anchor < |w|
    requires j < a < |vs| && vs[a] != LF && lo <= Pos(vs, j) && lo + anchor == Pos(vs, a) && vs[j] == CR
    requires var i := Pos(vs, j) - lo; i + 1 < |w| && w[i + 1] == LF
    ensures j + 1 < a && vs[j + 1] == LF && Pos(vs, j + 2) == Pos(vs, j) + 2
  {
    hide EncodeAll, Encode;
    Inside(vs, w, lo, j, anchor, a);
    NextByte(vs, w, lo, j);
    PosStep(vs, j);
    PosStep(vs, j + 1);
    FirstByte(CR);
    FirstByte(LF);
  }

  // ----- the right side

  lemma {:induction false} LineEndFrom(vs: seq<Scalar>, a: nat, j: nat)
    requires a <= j <= |vs| && forall k | a <= k < j :: !EndsLine(vs, k)
    ensures j <= LineEnd(vs, a)
    ensures LineEnd(vs, a) == j <==> j == |vs| || EndsLine(vs, j)
  {
    hide EndsLine;
    var e := LineEnd(vs, a);
  }

  /** The window reaches the end of the file or 704 bytes past the anchor. */
  predicate Reaches(w: seq<Byte>, anchor: nat, lo: nat, size: nat) {
    anchor < |w| && (lo + |w| == size || |w| == anchor + WINDOW_RIGHT)
  }

  /** A scalar within the first 160 after the anchor lies whole in the window, with a byte to spare unless
      the file ends. */
  lemma Ahead(vs: seq<Scalar>, w: seq<Byte>, lo: nat, anchor: nat, a: nat, j: nat)
    requires lo + |w| <= |EncodeAll(vs)| && w == EncodeAll(vs)[lo..lo + |w|] && Reaches(w, anchor, lo, |EncodeAll(vs)|)
    requires a <= j <= |vs| && j <= a + TOTAL && lo + anchor == Pos(vs, a)
    ensures lo + anchor <= Pos(vs, j) <= lo + anchor + 4 * (j - a)
    ensures j < |vs| ==> Shown(vs, w, lo, j) && (lo + |w| == |EncodeAll(vs)| || Pos(vs, j + 1) < lo + |w|)
    ensures j == |vs| <==> Pos(vs, j) == lo + |w|
  {
    hide EncodeAll, Encode;
    PosEnds(vs);
    PosSpan(vs, a, j);
    PosSpan(vs, j, |vs|);
    if j < |vs| { PosSpan(vs, j, j + 1); PosSpan(vs, j + 1, |vs|); }
  }

  /** The window also reaches far enough to decide the right side. */
  ghost predicate Whole(w: seq<Byte>, anchor: nat, vs: seq<Scalar>, lo: nat, a: nat) {
    Framed(w, anchor, vs, lo, a) && Reaches(w, anchor, lo, |EncodeAll(vs)|)
  }

  /** Where the right walk stands: `count` scalars past the anchor, none of them at a line end. */
  ghost predicate Ranging(vs: seq<Scalar>, lo: nat, a: nat, i: nat, count: nat) {
    a + count <= |vs| && lo + i == Pos(vs, a + count) && forall k | a <= k < a + count :: !EndsLine(vs, k)
  }

  /** The walk from the anchor to the cap or to the end of the line. */
  method WalkRight(w: seq<Byte>, anchor: nat, leftCount: nat, ghost vs: seq<Scalar>, ghost lo: nat, ghost a: nat)
    returns (i: nat, count: nat)
    requires anchor < |w| && leftCount <= LEFT
    ensures anchor <= i <= |w| && leftCount + count <= TOTAL
    ensures Whole(w, anchor, vs, lo, a) ==>
              count == Min(TOTAL - leftCount, LineEnd(vs, a) - a) && a + count <= |vs| && lo + i == Pos(vs, a + count)
  {
    hide EncodeAll, Encode, Pos, EndsLine, Whole, Ranging;
    ghost var whole := Whole(w, anchor, vs, lo, a);
    i, count := anchor, 0;
    if whole { Leaves(w, anchor, vs, lo, a); }
    while leftCount + count < TOTAL
      invariant leftCount + count <= TOTAL && anchor <= i <= |w|
      invariant whole ==> Ranging(vs, lo, a, i, count)
    {
      if whole { ByteAhead(w, anchor, vs, lo, a, i, count); }
      if i >= |w| {
        break;
      }
      var byte := w[i];
      if byte == LF {
        break;
      }
      if byte == CR {
        if i + 1 < |w| && w[i + 1] == LF {
          break;
        }
        i := i + 1;
      } else {
        var need := Expected(w[i..]);
        if need == 0 || i + need > |w| {
          break;
        }
        i := i + need;
      }
      count := count + 1;
    }
    if whole { Ended(w, anchor, vs, lo, a, i, count); }
  }

  lemma Leaves(w: seq<Byte>, anchor: nat, vs: seq<Scalar>, lo: nat, a: nat)
    requires Whole(w, anchor, vs, lo, a)
    ensures Ranging(vs, lo, a, anchor, 0)
  {
  }

  lemma Ended(w: seq<Byte>, anchor: nat, vs: seq<Scalar>, lo: nat, a: nat, i: nat, count: nat)
    requires Whole(w, anchor, vs, lo, a) && Ranging(vs, lo, a, i, count)
    ensures a + count <= LineEnd(vs, a) <= |vs| && lo + i == Pos(vs, a + count)
    ensures LineEnd(vs, a) == a + count <==> a + count == |vs| || EndsLine(vs, a + count)
  {
    hide EncodeAll, Encode, Pos, EndsLine;
    LineEndFrom(vs, a, a + count);
  }

  /** The byte the right walk stands on tells whether the line ends there, and otherwise which scalar follows. */
  lemma ByteAhead(w: seq<Byte>, anchor: nat, vs: seq<Scalar>, lo: nat, a: nat, i: nat, count: nat)
    requires Whole(w, anchor, vs, lo, a) && Ranging(vs, lo, a, i, count) && count < TOTAL
    ensures i == |w| <==> a + count == |vs|
    ensures i <= |w|
    ensures i < |w| ==> a + count < |vs|
    ensures i < |w| && EndsLine(vs, a + count) <==> i < |w| && (w[i] == LF || (w[i] == CR && i + 1 < |w| && w[i + 1] == LF))
    ensures i < |w| && !EndsLine(vs, a + count) ==>
              var need := if w[i] == CR then 1 else Expected(w[i..]);
              need > 0 && i + need <= |w| && Ranging(vs, lo, a, i + need, count + 1)
  {
    hide EncodeAll, Encode, EndsLine;
    var j := a + count;
    Ahead(vs, w, lo, anchor, a, j);
    if j < |vs| {
      AtScalar(vs, w, lo, j);
      FirstByte(vs[j]);
      LineStops(vs, j);
      if vs[j] == CR { NextByte(vs, w, lo, j); }
    }
  }

  lemma LineStops(vs: seq<Scalar>, j: nat)
    requires j < |vs|
    ensures vs[j] == LF ==> EndsLine(vs, j)
    ensures vs[j] != LF && vs[j] != CR ==> !EndsLine(vs, j)
  {
  }

  /** The right flag. */
  method RightTruncated(w: seq<Byte>, lo: nat, size: nat, total: nat, rightEnd: nat, ghost anchor: nat, ghost vs: seq<Scalar>, ghost a: nat, ghost count: nat)
    returns (truncated: bool)
    requires rightEnd <= |w|
    ensures Whole(w, anchor, vs, lo, a) && size == |EncodeAll(vs)| && a + count <= |vs| && lo + rightEnd == Pos(vs, a + count)
            && count <= total <= TOTAL && count == Min(TOTAL - (total - count), LineEnd(vs, a) - a) ==>
              truncated == (LineEnd(vs, a) - a > TOTAL - (total - count))
  {
    hide EncodeAll, Encode, Pos, EndsLine, Whole;
    truncated := false;
    if total == TOTAL {
      if rightEnd < |w| {
        var byte := w[rightEnd];
        var atLineEnd := byte == LF || (byte == CR && rightEnd + 1 < |w| && w[rightEnd + 1] == LF);
        truncated := !atLineEnd;
      } else if lo + rightEnd < size {
        truncated := true;
      }
    } else if rightEnd >= |w| && lo + rightEnd < size {
      truncated := true;
    }
    if Whole(w, anchor, vs, lo, a) && a + count <= |vs| && lo + rightEnd == Pos(vs, a + count)
       && count <= total <= TOTAL && count == Min(TOTAL - (total - count), LineEnd(vs, a) - a)
    {
      Decides(w, anchor, vs, lo, a, rightEnd, count);
    }
  }

  /** What stands after the right walk. */
  lemma Decides(w: seq<Byte>, anchor: nat, vs: seq<Scalar>, lo: nat, a: nat, i: nat, count: nat)
    requires Whole(w, anchor, vs, lo, a) && a + count <= LineEnd(vs, a) && count <= TOTAL && lo + i == Pos(vs, a + count)
    ensures lo + |w| <= |EncodeAll(vs)| && (lo + i == |EncodeAll(vs)| <==> a + count == |vs|)
    ensures i <= |w| && (i == |w| <==> a + count == |vs|)
    ensures LineEnd(vs, a) == a + count <==>
              i == |w| || w[i] == LF || (w[i] == CR && i + 1 < |w| && w[i + 1] == LF)
  {
    hide EncodeAll, Encode, EndsLine;
    var j := a + count;
    Ahead(vs, w, lo, anchor, a, j);
    NotBefore(vs, a, j);
    LineEndFrom(vs, a, j);
    PosEnds(vs);
    if j < |vs| {
      AtScalar(vs, w, lo, j);
      FirstByte(vs[j]);
      LineStops(vs, j);
      if vs[j] == CR { NextByte(vs, w, lo, j); }
    }
  }

  lemma NotBefore(vs: seq<Scalar>, a: nat, j: nat)
    requires a <= |vs| && a <= j <= LineEnd(vs, a)
    ensures forall k | a <= k < j :: !EndsLine(vs, k)
  {
  }

  // ----- the snippet

  /** 255 bytes hold more than 40 scalars, so the window decides the left side. */
  lemma LeftSide(vs: seq<Scalar>, lo: nat, base: nat, anchor: nat, first: nat, from: nat, a: nat)
    requires first <= from <= a <= |vs| && lo + base == Pos(vs, first) && lo + anchor == Pos(vs, a) && base <= 3
    requires if lo == 0 then base == 0 && first == 0 else anchor == WINDOW_LEFT
    requires from == first || (first < from && vs[from - 1] == LF)
    requires forall k | from <= k < a :: vs[k] != LF
    ensures Min(LEFT, a - from) == Min(LEFT, a - LineBegin(vs, a))
    ensures a - from > LEFT <==> a - LineBegin(vs, a) > LEFT
  {
    hide EncodeAll;
    PosSpan(vs, first, a);
    var b := LineBegin(vs, a);
    if from > 0 && vs[from - 1] == LF {
      assert b == from;
    } else {
      assert b <= from;
    }
  }

  datatype Result = Ok | Invalid | Protocol | Failed(code: nat)

  /** The bytes between two scalars of the window. */
  lemma CutOut(vs: seq<Scalar>, w: seq<Byte>, lo: nat, i: nat, j: nat, from: nat, to: nat)
    requires lo + |w| <= |EncodeAll(vs)| && w == EncodeAll(vs)[lo..lo + |w|]
    requires i <= j <= |vs| && lo + from == Pos(vs, i) && lo + to == Pos(vs, j) && to <= |w|
    ensures from <= to && w[from..to] == EncodeAll(vs[i..j])
  {
    hide EncodeAll;
    PosSpan(vs, i, j);
    var s := EncodeAll(vs);
    assert forall k | from <= k < to :: w[k] == s[lo + k];
    assert w[from..to] == s[Pos(vs, i)..Pos(vs, j)];
  }

  lemma AnchorByte(vs: seq<Scalar>, a: nat)
    requires a < |vs| && Pos(vs, a) < |EncodeAll(vs)| && EncodeAll(vs)[Pos(vs, a)] != LF
    ensures vs[a] != LF
  {
    hide EncodeAll, Encode;
    PosStep(vs, a);
    FirstByte(vs[a]);
    assert EncodeAll(vs)[Pos(vs, a)] == EncodeAll(vs)[Pos(vs, a)..Pos(vs, a + 1)][0];
  }

  /** The left edge: the start that the ring remembers `leftCount` scalars back. */
  method LeftEdge(w: seq<Byte>, anchor: nat, ghost vs: seq<Scalar>, ghost lo: nat, ghost a: nat)
    returns (leftEdge: nat, leftCount: nat, truncated: bool)
    requires anchor < |w|
    ensures leftEdge <= anchor && leftCount <= LEFT
    ensures Framed(w, anchor, vs, lo, a) && (lo == 0 || anchor == WINDOW_LEFT) ==>
              && leftCount == Min(LEFT, a - LineBegin(vs, a)) <= a
              && truncated == (a - LineBegin(vs, a) > LEFT) && lo + leftEdge == Pos(vs, a - leftCount)
  {
    hide EncodeAll, Encode, Pos, Walked, LineBegin;
    var base, first := Align(w, anchor, vs, lo, a);
    var starts, ringPos, sinceBreak, from := WalkLeft(w, base, anchor, vs, lo, first, a);
    leftCount := if sinceBreak < LEFT then sinceBreak else LEFT;
    truncated := sinceBreak > LEFT;
    leftEdge := anchor;
    if leftCount > 0 {
      var index := (ringPos + RING - leftCount) % RING;
      leftEdge := starts[index];
      Recalled(sinceBreak, leftCount);
    }
    if Framed(w, anchor, vs, lo, a) && (lo == 0 || anchor == WINDOW_LEFT) {
      Edge(w, anchor, vs, lo, a, base, first, from, sinceBreak, starts);
    }
  }

  /** What the left walk remembered is the left side of the snippet. */
  lemma Edge(w: seq<Byte>, anchor: nat, vs: seq<Scalar>, lo: nat, a: nat, base: nat, first: nat, from: nat, count: nat, starts: seq<nat>)
    requires Framed(w, anchor, vs, lo, a) && (lo == 0 || anchor == WINDOW_LEFT)
    requires first <= from <= a && lo + base == Pos(vs, first) && base <= 3 && (lo == 0 ==> base == 0)
    requires Walked(vs, lo, anchor, a, from, count, starts) && (from == first || (first < from && vs[from - 1] == LF))
    ensures Min(LEFT, count) == Min(LEFT, a - LineBegin(vs, a)) <= a && |starts| == RING
    ensures count > LEFT <==> a - LineBegin(vs, a) > LEFT
    ensures count > 0 ==> lo + starts[(count - Min(LEFT, count)) % RING] == Pos(vs, a - Min(LEFT, count))
    ensures count == 0 ==> lo + anchor == Pos(vs, a)
  {
    hide EncodeAll, Encode, Pos, LineBegin;
    PosZero(vs, first, lo, base);
    LeftSide(vs, lo, base, anchor, first, from, a);
    if count > 0 {
      assert StartsAt(vs, lo, starts, from, a - Min(LEFT, count));
    }
  }

  /** Both walks over one window. */
  method CutWindow(w: seq<Byte>, lo: nat, anchor: nat, size: nat, ghost vs: seq<Scalar>, ghost a: nat) returns (snippet: Snippet)
    requires anchor < |w|
    ensures Framed(w, anchor, vs, lo, a) && (lo == 0 || anchor == WINDOW_LEFT) ==> snippet.leftTruncated == SnippetOf(vs, a).leftTruncated
    ensures Whole(w, anchor, vs, lo, a) && size == |EncodeAll(vs)| && (lo == 0 || anchor == WINDOW_LEFT) ==>
              snippet == SnippetOf(vs, a)
  {
    hide EncodeAll, Encode, Pos, LineBegin, LineEnd, Reaches;
    var leftEdge, leftCount, left := LeftEdge(w, anchor, vs, lo, a);
    var rightEnd, rightCount := WalkRight(w, anchor, leftCount, vs, lo, a);
    var right := RightTruncated(w, lo, size, leftCount + rightCount, rightEnd, anchor, vs, a, rightCount);
    if Whole(w, anchor, vs, lo, a) && (lo == 0 || anchor == WINDOW_LEFT) {
      CutOut(vs, w, lo, a - leftCount, a + rightCount, leftEdge, rightEnd);
    }
    snippet := Snippet(w[leftEdge..rightEnd], left, right);
  }

  lemma PosZero(vs: seq<Scalar>, first: nat, lo: nat, base: nat)
    requires first <= |vs| && Pos(vs, first) == lo + base && (lo == 0 ==> base == 0)
    ensures lo == 0 ==> first == 0
  {
    hide EncodeAll;
    PosEnds(vs);
    PosSpan(vs, 0, first);
  }

  lemma Recalled(count: nat, left: nat)
    requires left <= count && left <= LEFT
    ensures (count % RING + RING - left) % RING == (count - left) % RING
  {
  }

  /** The window asked for: up to 255 bytes before the anchor and up to 704 from it, inside the file. */
  function WindowStart(anchor: nat): nat {
    anchor - Min(anchor, WINDOW_LEFT)
  }

  function WindowEnd(anchor: nat, size: nat): nat
    requires anchor <= size
  {
    anchor + Min(size - anchor, WINDOW_RIGHT)
  }

  /** A read that gives the bytes asked for frames the anchor; the whole window also decides the right side. */
  lemma Frames(vs: seq<Scalar>, a: nat, anchor: nat, w: seq<Byte>, hi: nat)
    requires a <= |vs| && Pos(vs, a) == anchor < |EncodeAll(vs)| && EncodeAll(vs)[anchor] != LF
    requires anchor < hi <= WindowEnd(anchor, |EncodeAll(vs)|) && |w| > anchor - WindowStart(anchor)
    ensures a < |vs|
    ensures w <= EncodeAll(vs)[WindowStart(anchor)..hi] ==> Framed(w, anchor - WindowStart(anchor), vs, WindowStart(anchor), a)
    ensures w == EncodeAll(vs)[WindowStart(anchor)..hi] && hi == WindowEnd(anchor, |EncodeAll(vs)|) ==>
              Whole(w, anchor - WindowStart(anchor), vs, WindowStart(anchor), a)
  {
    hide EncodeAll, Pos;
    PosEnds(vs);
    AnchorByte(vs, a);
    var s, lo := EncodeAll(vs), WindowStart(anchor);
    if w <= s[lo..hi] {
      assert w == s[lo..hi][..|w|] == s[lo..lo + |w|];
    }
  }

  /** yan_search_terms_core_snippet over the answer of its one read callback. On UTF-8 text, with the whole
      window read and a scratch area that can hold it, the window suffices: the answer is the snippet of the
      whole text. An answer that breaks the callback's contract, or misses the anchor, is a protocol error. */
  method CoreSnippet(fileSize: nat, anchor: nat, capacity: nat, read: (nat, nat) -> Outcome, ghost file: seq<Byte>, ghost vs: seq<Scalar>, ghost a: nat)
    returns (r: Result, snippet: Snippet)
    requires |file| == fileSize && EncodeAll(vs) == file && a <= |vs| && Pos(vs, a) == anchor
    requires anchor < |file| ==> file[anchor] != LF
    ensures r == Invalid <==> anchor >= |file|
    ensures anchor < |file| && WindowStart(anchor) + capacity <= anchor ==> r == Protocol
    ensures anchor < |file| && WindowStart(anchor) + capacity > anchor ==>
              var lo, end := WindowStart(anchor), WindowEnd(anchor, |file|);
              var hi := Min(end, lo + capacity);
              match read(lo, hi - lo)
              case Failed(code) => r == Result.Failed(code)
              case Data(w) =>
                && (r == Protocol <==> |w| > hi - lo || |w| <= anchor - lo)
                && (w == file[lo..end] && end == hi ==> r == Ok && a < |vs| && snippet == SnippetOf(vs, a))
                && (r == Ok && w <= file[lo..hi] ==> a < |vs| && snippet.leftTruncated == SnippetOf(vs, a).leftTruncated)
  {
    hide EncodeAll, Pos, SnippetOf, LineBegin, LineEnd, Framed, Whole;
    snippet := Snippet([], false, false);
    if anchor >= fileSize {
      return Invalid, snippet;
    }
    var head := if anchor < WINDOW_LEFT then anchor else WINDOW_LEFT;
    var winStart := anchor - head;
    var tail := fileSize - anchor;
    if tail > WINDOW_RIGHT {
      tail := WINDOW_RIGHT;
    }
    var want := anchor + tail - winStart;
    if want > capacity {
      want := capacity;
    }
    if want <= head {
      return Protocol, snippet;
    }
    var got := read(winStart, want);
    if got.Failed? {
      return Result.Failed(got.code), snippet;
    }
    var w := got.bytes;
    if |w| > want || |w| == 0 || head >= |w| {
      return Protocol, snippet;
    }
    Frames(vs, a, anchor, w, winStart + want);
    snippet := CutWindow(w, winStart, head, fileSize, vs, a);
    return Ok, snippet;
  }
}
