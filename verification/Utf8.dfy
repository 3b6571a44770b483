/** UTF-8 as section 3 of RFC 3629 defines it, and the decoders of the sources.
    Encode is the reference: every decoder below is proved to invert it. */
module Utf8 {
  import opened Bytes

  predicate IsScalar(v: int) {
    0 <= v < 0xD800 || 0xE000 <= v <= 0x10FFFF
  }

  type Scalar = v: int | 0 <= v < 0xD800 || 0xE000 <= v <= 0x10FFFF

  function Lead(tag: int, bits: int): Byte
    requires 0 <= tag + bits < 256
  {
    tag + bits
  }

  function Trail(n: int): Byte {
    0x80 + n % 64
  }

  // The payload masks 0x3F, 0x1F, 0x0F and 0x07 of the sources.
  function Low6(b: Byte): int { b % 64 }
  function Low5(b: Byte): int { b % 32 }
  function Low4(b: Byte): int { b % 16 }
  function Low3(b: Byte): int { b % 8 }

  function Encode(v: Scalar): (s: seq<Byte>)
    ensures 1 <= |s| <= 4
  {
    var n: int := v;
    if n < 0x80 then [n as Byte]
    else if n < 0x800 then [Lead(0xC0, n / 64), Trail(n)]
    else if n < 0x10000 then [Lead(0xE0, n / 64 / 64), Trail(n / 64), Trail(n)]
    else [Lead(0xF0, n / 64 / 64 / 64), Trail(n / 64 / 64), Trail(n / 64), Trail(n)]
  }

  function EncodeAll(vs: seq<Scalar>): seq<Byte> {
    if vs == [] then [] else Encode(vs[0]) + EncodeAll(vs[1..])
  }

  ghost predicate ValidUtf8(s: seq<Byte>) {
    exists vs: seq<Scalar> :: EncodeAll(vs) == s
  }

  // ----- the encoding is uniquely decodable

  /** The encoded length is fixed by the lead byte alone. */
  function LeadLength(lead: Byte): nat {
    if lead < 0x80 then 1
    else if lead < 0xC2 then 0
    else if lead < 0xE0 then 2
    else if lead < 0xF0 then 3
    else if lead < 0xF5 then 4
    else 0
  }

  predicate Continuation(b: Byte) {
    0x80 <= b < 0xC0
  }

  /** The value the C decoders accumulate: payload bits, most significant first. */
  function Payload(s: seq<Byte>): nat
    requires 1 <= |s| <= 4
  {
    if |s| == 1 then s[0]
    else if |s| == 2 then Low5(s[0]) * 64 + Low6(s[1])
    else if |s| == 3 then Low4(s[0]) * 4096 + Low6(s[1]) * 64 + Low6(s[2])
    else Low3(s[0]) * 262144 + Low6(s[1]) * 4096 + Low6(s[2]) * 64 + Low6(s[3])
  }

  function Minimum(n: nat): nat {
    if n <= 1 then 0 else if n == 2 then 0x80 else if n == 3 then 0x800 else 0x10000
  }

  lemma EncodeShape(v: Scalar)
    ensures var s := Encode(v);
            && |s| == LeadLength(s[0])
            && (forall i | 1 <= i < |s| :: Continuation(s[i]))
            && Payload(s) == v
            && Minimum(|s|) <= v
  {
    var s := Encode(v);
    var a: int := v / 64;
    var b := a / 64;
    TrailBits(v);
    TrailBits(a);
    TrailBits(b);
    if |s| == 2 {
      assert Low5(s[0]) == a;
    } else if |s| == 3 {
      assert Low4(s[0]) == b;
    } else if |s| == 4 {
      assert Low3(s[0]) == b / 64;
    }
  }

  lemma TrailBits(n: int)
    ensures Continuation(Trail(n)) && Low6(Trail(n)) == n % 64
  {
  }

  /** A byte string is an encoding exactly when its shape, its payload and the
      shortest-form rule agree. */
  lemma ShapeEncodes(s: seq<Byte>)
    requires 1 <= |s| <= 4 && |s| == LeadLength(s[0])
    requires forall i | 1 <= i < |s| :: Continuation(s[i])
    requires Minimum(|s|) <= Payload(s) && IsScalar(Payload(s))
    ensures Encode(Payload(s)) == s
  {
    if |s| == 2 {
      LowBits(Low5(s[0]), Low6(s[1]));
    } else if |s| == 3 {
      var hi := Low4(s[0]) * 64 + Low6(s[1]);
      LowBits(hi, Low6(s[2]));
      LowBits(Low4(s[0]), Low6(s[1]));
      assert Payload(s) == hi * 64 + Low6(s[2]);
    } else if |s| == 4 {
      var top := Low3(s[0]) * 64 + Low6(s[1]);
      var hi := top * 64 + Low6(s[2]);
      LowBits(hi, Low6(s[3]));
      LowBits(top, Low6(s[2]));
      LowBits(Low3(s[0]), Low6(s[1]));
      assert Payload(s) == hi * 64 + Low6(s[3]);
    }
    LeadBits(s[0]);
    forall i | 1 <= i < |s| ensures Trail(Low6(s[i])) == s[i] { TrailOf(s[i]); }
  }

  lemma LowBits(hi: int, low: int)
    requires 0 <= low < 64
    ensures (hi * 64 + low) / 64 == hi && Trail(hi * 64 + low) == Trail(low)
  {
  }

  lemma TrailOf(b: Byte)
    requires Continuation(b)
    ensures Trail(Low6(b)) == b
  {
  }

  lemma LeadBits(b: Byte)
    ensures LeadLength(b) == 2 ==> 0xC0 + Low5(b) == b
    ensures LeadLength(b) == 3 ==> 0xE0 + Low4(b) == b
    ensures LeadLength(b) == 4 ==> 0xF0 + Low3(b) == b
  {
  }

  lemma PrefixFree(v: Scalar, w: Scalar, s: seq<Byte>)
    requires Encode(v) <= s && Encode(w) <= s
    ensures v == w
  {
    EncodeShape(v);
    EncodeShape(w);
    assert Encode(v)[0] == s[0] == Encode(w)[0];
    assert Encode(v) == s[..|Encode(v)|] == Encode(w);
  }

  lemma {:induction false} EncodeAllConcat(vs: seq<Scalar>, ws: seq<Scalar>)
    ensures EncodeAll(vs + ws) == EncodeAll(vs) + EncodeAll(ws)
  {
    hide Encode;
    if vs == [] {
      assert vs + ws == ws;
    } else {
      EncodeAllConcat(vs[1..], ws);
      assert (vs + ws)[1..] == vs[1..] + ws;
    }
  }

  lemma EncodeAllSnoc(vs: seq<Scalar>, v: Scalar)
    ensures EncodeAll(vs + [v]) == EncodeAll(vs) + Encode(v)
  {
    EncodeAllConcat(vs, [v]);
    assert EncodeAll([v]) == Encode(v);
  }

  lemma {:induction false} EncodeAllLength(vs: seq<Scalar>)
    ensures |vs| <= |EncodeAll(vs)| <= 4 * |vs|
  {
    if vs != [] {
      EncodeAllLength(vs[1..]);
    }
  }

  /** Decoding is cancellative: a decoded prefix of the bytes is a prefix of every
      decoding of the whole. */
  lemma {:induction false} Cancel(done: seq<Scalar>, rest: seq<Byte>, vs: seq<Scalar>)
    requires EncodeAll(done) + rest == EncodeAll(vs)
    ensures done <= vs && rest == EncodeAll(vs[|done|..])
  {
    hide Encode;
    if done == [] {
      assert EncodeAll(done) + rest == rest;
    } else {
      var whole := EncodeAll(vs);
      assert whole == Encode(done[0]) + (EncodeAll(done[1..]) + rest);
      PrefixFree(done[0], vs[0], whole);
      var n := |Encode(done[0])|;
      assert EncodeAll(done[1..]) + rest == whole[n..] == EncodeAll(vs[1..]);
      Cancel(done[1..], rest, vs[1..]);
      assert vs == [vs[0]] + vs[1..];
      assert vs[|done|..] == vs[1..][|done[1..]|..];
    }
  }

  lemma DecodingUnique(vs: seq<Scalar>, ws: seq<Scalar>)
    requires EncodeAll(vs) == EncodeAll(ws)
    ensures vs == ws
  {
    assert EncodeAll(vs) + [] == EncodeAll(ws);
    Cancel(vs, [], ws);
    EncodeAllLength(ws[|vs|..]);
  }

  // ----- host/semantic_text.c: yan_text_decode_one

  datatype Decoded = Complete(value: Scalar, width: nat) | Incomplete | Malformed

  function DecodeOne(s: seq<Byte>): Decoded
    requires |s| >= 1
  {
    var first := s[0];
    if first < 0x80 then Complete(first, 1)
    else if first < 0xC2 then Malformed
    else if first < 0xE0 then
      if |s| < 2 then Incomplete
      else if !Continuation(s[1]) then Malformed
      else Complete(Low5(first) * 64 + Low6(s[1]), 2)
    else if first < 0xF0 then
      if |s| < 3 then Incomplete
      else if !Continuation(s[1]) || !Continuation(s[2]) then Malformed
      else
        var value := Low4(first) * 4096 + Low6(s[1]) * 64 + Low6(s[2]);
        if value < 0x800 || 0xD800 <= value <= 0xDFFF then Malformed else Complete(value, 3)
    else if first < 0xF5 then
      if |s| < 4 then Incomplete
      else if !Continuation(s[1]) || !Continuation(s[2]) || !Continuation(s[3]) then Malformed
      else
        var value := Low3(first) * 262144 + Low6(s[1]) * 4096 + Low6(s[2]) * 64 + Low6(s[3]);
        if value < 0x10000 || value > 0x10FFFF then Malformed else Complete(value, 4)
    else Malformed
  }

  lemma DecodeOneSound(s: seq<Byte>)
    requires |s| >= 1 && DecodeOne(s).Complete?
    ensures var r := DecodeOne(s); Encode(r.value) <= s && r.width == |Encode(r.value)|
  {
    var t := s[..LeadLength(s[0])];
    assert DecodeOne(s).value == Payload(t);
    ShapeEncodes(t);
  }

  lemma DecodeOneComplete(s: seq<Byte>, v: Scalar)
    requires |s| >= 1 && Encode(v) <= s
    ensures DecodeOne(s) == Complete(v, |Encode(v)|)
  {
    EncodeShape(v);
    assert s[..|Encode(v)|] == Encode(v);
  }

  /** DecodeOne inverts Encode: it answers Complete(v, n) exactly when the bytes start
      with the n-byte encoding of v, and Incomplete exactly when the lead byte asks
      for more bytes than there are. */
  lemma DecodeOneInverts(s: seq<Byte>, v: Scalar, n: nat)
    requires |s| >= 1
    ensures DecodeOne(s) == Complete(v, n) <==> Encode(v) <= s && n == |Encode(v)|
    ensures DecodeOne(s).Incomplete? <==> LeadLength(s[0]) > |s|
  {
    if DecodeOne(s).Complete? { DecodeOneSound(s); }
    if Encode(v) <= s { DecodeOneComplete(s, v); }
  }

  // ----- os/search_text.c

  /** yan_search_text_utf8_scalar: (width, code point), width 0 on a violation. */
  function Utf8Scalar(s: seq<Byte>): (nat, nat) {
    if s == [] then (0, 0)
    else
      var lead := s[0];
      if lead < 0x80 then (1, lead)
      else if lead < 0xC2 then (0, 0)
      else if lead < 0xE0 then
        if |s| < 2 || !Continuation(s[1]) then (0, 0) else (2, Low5(lead) * 64 + Low6(s[1]))
      else if lead < 0xF0 then
        if |s| < 3 || !Continuation(s[1]) || !Continuation(s[2]) then (0, 0)
        else if lead == 0xE0 && s[1] < 0xA0 then (0, 0)
        else if lead == 0xED && s[1] > 0x9F then (0, 0)
        else (3, Low4(lead) * 4096 + Low6(s[1]) * 64 + Low6(s[2]))
      else if lead < 0xF5 then
        if |s| < 4 || !Continuation(s[1]) || !Continuation(s[2]) || !Continuation(s[3]) then (0, 0)
        else if lead == 0xF0 && s[1] < 0x90 then (0, 0)
        else if lead == 0xF4 && s[1] > 0x8F then (0, 0)
        else (4, Low3(lead) * 262144 + Low6(s[1]) * 4096 + Low6(s[2]) * 64 + Low6(s[3]))
      else (0, 0)
  }

  /** The two decoders, one ranging over values and one over second bytes, agree. */
  lemma Utf8ScalarAgrees(s: seq<Byte>)
    requires |s| >= 1
    ensures Utf8Scalar(s) == match DecodeOne(s) case Complete(v, n) => (n, v) case _ => (0, 0)
  {
  }

  lemma Utf8ScalarInverts(s: seq<Byte>, v: Scalar)
    ensures Utf8Scalar(s) == (|Encode(v)|, v) <==> Encode(v) <= s
  {
    if s != [] {
      Utf8ScalarAgrees(s);
      DecodeOneInverts(s, v, |Encode(v)|);
    }
  }

  /** yan_search_text_utf8_expected: the length of the scalar these bytes begin, 0
      when no scalar can begin like that. */
  function Expected(s: seq<Byte>): nat {
    if s == [] then 0
    else
      var need := LeadLength(s[0]);
      if need <= 1 then need
      else if exists i | 1 <= i < |s| && i < need :: !Continuation(s[i]) then 0
      else if |s| >= 2 && need == 3 && s[0] == 0xE0 && s[1] < 0xA0 then 0
      else if |s| >= 2 && need == 3 && s[0] == 0xED && s[1] > 0x9F then 0
      else if |s| >= 2 && need == 4 && s[0] == 0xF0 && s[1] < 0x90 then 0
      else if |s| >= 2 && need == 4 && s[0] == 0xF4 && s[1] > 0x8F then 0
      else need
  }

  /** s and the encoding of v agree as far as both go. */
  predicate Begins(s: seq<Byte>, v: Scalar) {
    s <= Encode(v) || Encode(v) <= s
  }

  /** Completes a viable prefix with the smallest continuation bytes its lead allows. */
  function Completed(s: seq<Byte>): (t: seq<Byte>)
    requires Expected(s) > 0
    ensures |t| == Expected(s) && (s <= t || t <= s)
  {
    var need := LeadLength(s[0]);
    var second: Byte := if s[0] == 0xE0 then 0xA0 else if s[0] == 0xF0 then 0x90 else 0x80;
    if |s| >= need then s[..need]
    else if |s| == 1 then [s[0], second] + seq(need - 2, _ => 0x80)
    else s + seq(need - |s|, _ => 0x80)
  }

  lemma CompletedEncodes(s: seq<Byte>)
    requires Expected(s) > 0
    ensures var t := Completed(s); IsScalar(Payload(t)) && Encode(Payload(t)) == t
  {
    var t := Completed(s);
    assert t[0] == s[0];
    if |t| >= 2 {
      assert Continuation(t[1]);
      assert s[0] == 0xE0 ==> t[1] >= 0xA0;
      assert s[0] == 0xED ==> t[1] <= 0x9F;
      assert s[0] == 0xF0 ==> t[1] >= 0x90;
      assert s[0] == 0xF4 ==> t[1] <= 0x8F;
    }
    ShapeEncodes(t);
  }

  /** Expected answers n > 0 exactly when some scalar of encoded length n begins
      with these bytes (or these bytes begin with it). */
  lemma ExpectedIffBegins(s: seq<Byte>, n: nat)
    requires s != [] && n > 0
    ensures Expected(s) == n <==> exists v: Scalar :: |Encode(v)| == n && Begins(s, v)
  {
    if Expected(s) == n {
      CompletedEncodes(s);
      assert Begins(s, Payload(Completed(s)));
    }
    forall v: Scalar | |Encode(v)| == n && Begins(s, v)
      ensures Expected(s) == n
    {
      BeginsExpected(s, v);
    }
  }

  lemma BeginsExpected(s: seq<Byte>, v: Scalar)
    requires s != [] && Begins(s, v)
    ensures Expected(s) == |Encode(v)|
  {
    EncodeShape(v);
    var e := Encode(v);
    assert e[0] == s[0];
    forall i | 1 <= i < |s| && i < |e| ensures s[i] == e[i] {}
  }

  /** Reading only a length, DecodeOne may ask for more bytes of a scalar that can no
      longer exist: Incomplete means completable exactly when Expected still accepts
      the bytes. */
  lemma IncompleteCompletable(s: seq<Byte>)
    requires |s| >= 1 && DecodeOne(s).Incomplete?
    ensures Expected(s) > 0 <==> exists v: Scalar :: s <= Encode(v)
    ensures DecodeOne([0xE0, 0x41]).Incomplete? && Expected([0xE0, 0x41]) == 0
  {
    DecodeOneInverts(s, 0, 1);
    if Expected(s) > 0 {
      CompletedEncodes(s);
      assert s <= Encode(Payload(Completed(s)));
    }
    forall v: Scalar | s <= Encode(v) ensures Expected(s) > 0 {
      BeginsExpected(s, v);
    }
    var bad: seq<Byte> := [0xE0, 0x41];
    assert !Continuation(bad[1]);
  }
}
