/** The recognisers of os/editor.c, which know lead lengths and second-byte ranges instead
    of values, and the two searches' query and file checks on os/search_text.c. */
module EditorText {
  import opened Bytes
  import opened Utf8
  import opened LegalText
  import BufferText
  import Segmentation

  /** utf8_lead_length */
  function MultibyteLead(lead: Byte): nat {
    if 0xC2 <= lead <= 0xDF then 2
    else if 0xE0 <= lead <= 0xEF then 3
    else if 0xF0 <= lead <= 0xF4 then 4
    else 0
  }

  /** utf8_sequence_valid: the second-byte ranges. */
  predicate SequenceValid(s: seq<Byte>)
    requires 2 <= |s| <= 4
  {
    if |s| == 3 && s[0] == 0xE0 then 0xA0 <= s[1] <= 0xBF
    else if |s| == 3 && s[0] == 0xED then 0x80 <= s[1] <= 0x9F
    else if |s| == 4 && s[0] == 0xF0 then 0x90 <= s[1] <= 0xBF
    else if |s| == 4 && s[0] == 0xF4 then 0x80 <= s[1] <= 0x8F
    else true
  }

  /** Second-byte ranges and value ranges are the same rule. */
  lemma RangesAreValues(s: seq<Byte>)
    requires 2 <= |s| == LeadLength(s[0]) <= 4
    requires forall i | 1 <= i < |s| :: Continuation(s[i])
    ensures SequenceValid(s) <==> Minimum(|s|) <= Payload(s) && IsScalar(Payload(s))
  {
  }

  /** valid_utf8_run: the length of one legal non-ASCII scalar at i, or 0. */
  method ValidRun(bytes: seq<Byte>, i: nat) returns (run: nat)
    requires i < |bytes| && bytes[i] >= 0x80
    ensures run > 0 ==> exists v: Scalar :: v > 0x9F && Encode(v) <= bytes[i..] && run == |Encode(v)|
    ensures run == 0 ==> forall v: Scalar | Encode(v) <= bytes[i..] :: 0x80 <= v <= 0x9F
  {
    ghost var rest := bytes[i..];
    var need := MultibyteLead(bytes[i]);
    if need == 0 || need > |bytes| - i {
      BufferText.NoScalarAt(rest);
      return 0;
    }
    for j := 1 to need
      invariant forall k | 1 <= k < j :: Continuation(rest[k])
    {
      if bytes[i + j] < 0x80 || bytes[i + j] > 0xBF {
        assert !Continuation(rest[j]);
        BufferText.NoScalarAt(rest);
        return 0;
      }
    }
    var s := bytes[i..i + need];
    assert s == rest[..need];
    RangesAreValues(s);
    if !SequenceValid(s) {
      BufferText.NoScalarAt(rest);
      return 0;
    }
    ShapeEncodes(s);
    var codepoint := Payload(s);
    forall v: Scalar | Encode(v) <= rest ensures v == codepoint {
      PrefixFree(v, codepoint, rest);
    }
    EncodeShape(codepoint);
    if 0x80 <= codepoint <= 0x9F {
      return 0;
    }
    return need;
  }

  /** draft_is_valid */
  method DraftIsValid(bytes: seq<Byte>) returns (valid: bool)
    ensures valid <==> Legal(bytes)
  {
    hide Encode, EncodeAll;
    var i := 0;
    ghost var done: seq<Scalar> := [];
    AtStart(bytes);
    while i < |bytes|
      invariant At(bytes, i, done) && !EndsInCR(done)
    {
      var byte := bytes[i];
      if byte == LF {
        BufferText.Ascii(bytes, i, done);
        i, done := i + 1, done + [LF as Scalar];
      } else if byte == CR {
        if i + 1 < |bytes| && bytes[i + 1] == LF {
          BufferText.CrLf(bytes, i, done);
          i, done := i + 2, done + [CR as Scalar] + [LF as Scalar];
        } else {
          BufferText.BareCr(bytes, i, done);
          return false;
        }
      } else if byte == TAB {
        BufferText.Ascii(bytes, i, done);
        i, done := i + 1, done + [TAB as Scalar];
      } else if byte < 0x80 {
        BufferText.Ascii(bytes, i, done);
        if byte < 0x20 || byte == 0x7F {
          return false;
        }
        i, done := i + 1, done + [byte as Scalar];
      } else {
        var run := ValidRun(bytes, i);
        if run == 0 {
          AtReject(bytes, i, done);
          return false;
        }
        ghost var v: Scalar :| v > 0x9F && Encode(v) <= bytes[i..] && run == |Encode(v)|;
        BufferText.Multibyte(bytes, i, done, v);
        i, done := i + run, done + [v];
      }
    }
    AtEnd(bytes, done);
    valid := true;
  }

  /** Typed text: scalars above the control ranges only. */
  predicate Typed(vs: seq<Scalar>) {
    forall i | 0 <= i < |vs| :: 0x20 <= vs[i] < 0x7F || 0x9F < vs[i]
  }

  ghost predicate TypedText(s: seq<Byte>) {
    exists vs: seq<Scalar> :: EncodeAll(vs) == s && Typed(vs)
  }

  /** A loop at offset has decoded `done`; the scalar there decides. */
  lemma Decide(s: seq<Byte>, offset: nat, done: seq<Scalar>, v: Scalar)
    requires offset <= |s| && s[..offset] == EncodeAll(done) && Encode(v) <= s[offset..]
    ensures offset + |Encode(v)| <= |s| && s[..offset + |Encode(v)|] == EncodeAll(done + [v])
    ensures forall vs: seq<Scalar> | EncodeAll(vs) == s :: done + [v] <= vs
  {
    hide Encode, EncodeAll;
    var n := |Encode(v)|;
    assert s[..offset + n] == s[..offset] + s[offset..][..n];
    EncodeAllSnoc(done, v);
    forall vs: seq<Scalar> | EncodeAll(vs) == s ensures done + [v] <= vs {
      assert s == EncodeAll(done + [v]) + s[offset + n..];
      Cancel(done + [v], s[offset + n..], vs);
    }
  }

  lemma NoDecoding(s: seq<Byte>, offset: nat, done: seq<Scalar>)
    requires offset < |s| && s[..offset] == EncodeAll(done)
    requires forall v: Scalar :: !(Encode(v) <= s[offset..])
    ensures !ValidUtf8(s)
  {
    forall vs: seq<Scalar> ensures EncodeAll(vs) != s {
      if EncodeAll(vs) == s {
        assert s == EncodeAll(done) + s[offset..];
        Cancel(done, s[offset..], vs);
        assert false;
      }
    }
  }

  /** text_is_valid: what `a` and `r` accept. */
  method TextIsValid(bytes: seq<Byte>) returns (valid: bool)
    ensures valid <==> TypedText(bytes)
  {
    hide Encode;
    var i := 0;
    ghost var done: seq<Scalar> := [];
    while i < |bytes|
      invariant i <= |bytes| && bytes[..i] == EncodeAll(done) && Typed(done)
    {
      var byte := bytes[i];
      if byte < 0x80 {
        EncodeAllAscii(byte);
        Decide(bytes, i, done, byte);
        if byte < 0x20 || byte == 0x7F {
          NotTyped(bytes, done, byte);
          return false;
        }
        i, done := i + 1, done + [byte as Scalar];
      } else {
        var run := ValidRun(bytes, i);
        if run == 0 {
          RejectTyped(bytes, i, done);
          return false;
        }
        ghost var v: Scalar :| v > 0x9F && Encode(v) <= bytes[i..] && run == |Encode(v)|;
        Decide(bytes, i, done, v);
        i, done := i + run, done + [v];
      }
    }
    assert bytes[..i] == bytes;
    valid := true;
  }

  lemma NotTyped(s: seq<Byte>, done: seq<Scalar>, v: Scalar)
    requires forall vs: seq<Scalar> | EncodeAll(vs) == s :: done + [v] <= vs
    requires v < 0x20 || 0x7F <= v <= 0x9F
    ensures !TypedText(s)
  {
    forall vs: seq<Scalar> | EncodeAll(vs) == s ensures !Typed(vs) {
      assert vs[|done|] == (done + [v])[|done|] == v;
    }
  }

  lemma RejectTyped(s: seq<Byte>, offset: nat, done: seq<Scalar>)
    requires offset < |s| && s[..offset] == EncodeAll(done)
    requires forall v: Scalar | Encode(v) <= s[offset..] :: 0x80 <= v <= 0x9F
    ensures !TypedText(s)
  {
    if v: Scalar :| Encode(v) <= s[offset..] {
      Decide(s, offset, done, v);
      NotTyped(s, done, v);
    } else {
      NoDecoding(s, offset, done);
    }
  }

  /** yan_search_text_utf8_valid */
  method Utf8Valid(bytes: seq<Byte>) returns (valid: bool)
    ensures valid <==> ValidUtf8(bytes)
  {
    hide Encode;
    var offset := 0;
    ghost var done: seq<Scalar> := [];
    while offset < |bytes|
      invariant offset <= |bytes| && bytes[..offset] == EncodeAll(done)
    {
      ghost var rest := bytes[offset..];
      var need := Expected(bytes[offset..]);
      if need == 0 || need > |bytes| - offset {
        forall v: Scalar ensures !(Encode(v) <= rest) {
          if Encode(v) <= rest { BeginsExpected(rest, v); }
        }
        NoDecoding(bytes, offset, done);
        return false;
      }
      CompletedEncodes(rest);
      ghost var v: Scalar := Payload(Completed(rest));
      Decide(bytes, offset, done, v);
      offset, done := offset + need, done + [v];
    }
    assert bytes[..offset] == bytes;
    valid := true;
  }

  const QUERY_MAX: nat := 1023

  ghost predicate QueryText(s: seq<Byte>) {
    exists vs: seq<Scalar> :: EncodeAll(vs) == s && QueryScalars(vs) && !Segmentation.AllWhite(vs)
  }

  predicate QueryScalars(vs: seq<Scalar>) {
    forall i | 0 <= i < |vs| :: vs[i] == TAB || 0x20 <= vs[i] < 0x7F || 0x9F < vs[i]
  }

  /** yan_semantic_query_valid */
  method QueryValid(bytes: seq<Byte>) returns (valid: bool)
    ensures valid <==> 1 <= |bytes| <= QUERY_MAX && QueryText(bytes)
  {
    hide Encode;
    if |bytes| == 0 || |bytes| > QUERY_MAX {
      return false;
    }
    var anyNonWhite := false;
    var offset := 0;
    ghost var done: seq<Scalar> := [];
    while offset < |bytes|
      invariant offset <= |bytes| && bytes[..offset] == EncodeAll(done)
      invariant QueryScalars(done) && anyNonWhite == !Segmentation.AllWhite(done)
    {
      ghost var rest := bytes[offset..];
      var decoded := DecodeOne(bytes[offset..]);
      if !decoded.Complete? {
        forall v: Scalar ensures !(Encode(v) <= rest) {
          if Encode(v) <= rest { DecodeOneComplete(rest, v); }
        }
        NoDecoding(bytes, offset, done);
        return false;
      }
      DecodeOneSound(rest);
      var scalar := decoded.value;
      Decide(bytes, offset, done, scalar);
      ghost var more := done + [scalar];
      assert more[|done|] == scalar && forall k | 0 <= k < |done| :: more[k] == done[k];
      if scalar == LF || scalar == CR || scalar == 0 || scalar == 0x7F
         || (scalar < 0x20 && scalar != TAB) || 0x80 <= scalar <= 0x9F
      {
        NotQuery(bytes, done, scalar);
        return false;
      }
      if !Segmentation.WhiteSpace(scalar) {
        anyNonWhite := true;
      }
      offset, done := offset + decoded.width, more;
    }
    assert bytes[..offset] == bytes;
    forall vs: seq<Scalar> | EncodeAll(vs) == bytes ensures vs == done {
      DecodingUnique(vs, done);
    }
    return anyNonWhite;
  }

  lemma NotQuery(s: seq<Byte>, done: seq<Scalar>, v: Scalar)
    requires forall vs: seq<Scalar> | EncodeAll(vs) == s :: done + [v] <= vs
    requires !(v == TAB || 0x20 <= v < 0x7F || 0x9F < v)
    ensures !QueryText(s)
  {
    forall vs: seq<Scalar> | EncodeAll(vs) == s ensures !QueryScalars(vs) {
      assert vs[|done|] == (done + [v])[|done|] == v;
    }
  }
}
