/** The recognisers that look at a whole buffer. */
module BufferText {
  import opened Bytes
  import opened Utf8
  import opened LegalText
  import SemanticText
  import Segmentation

  /** editor_scalar of os/note_metadata.c, and decode_scalar of os/note_metadata_format.c,
      which is the same code: need is 0 exactly when no scalar starts here. */
  method DecodeScalar(bytes: seq<Byte>) returns (need: nat, value: int)
    ensures need == 0 ==> forall v: Scalar :: !(Encode(v) <= bytes)
    ensures need > 0 ==> need <= |bytes| && IsScalar(value) && Encode(value) == bytes[..need]
  {
    if |bytes| == 0 {
      return 0, 0;
    }
    var lead := bytes[0];
    var minimum;
    if lead < 0x80 {
      need, value, minimum := 1, lead, 0;
    } else if 0xC2 <= lead <= 0xDF {
      need, value, minimum := 2, Low5(lead), 0x80;
    } else if 0xE0 <= lead <= 0xEF {
      need, value, minimum := 3, Low4(lead), 0x800;
    } else if 0xF0 <= lead <= 0xF4 {
      need, value, minimum := 4, Low3(lead), 0x10000;
    } else {
      NoScalarAt(bytes);
      return 0, 0;
    }
    if |bytes| < need {
      NoScalarAt(bytes);
      return 0, 0;
    }
    for i := 1 to need
      invariant need >= 2 ==> value == SemanticText.Gathered(bytes[..i])
      invariant need == 1 ==> value == lead
      invariant forall j | 1 <= j < i :: Continuation(bytes[j])
    {
      var continuation := bytes[i];
      if continuation < 0x80 || continuation > 0xBF {
        NoScalarAt(bytes);
        return 0, 0;
      }
      value := value * 64 + Low6(continuation);
      assert bytes[..i + 1][..i] == bytes[..i];
    }
    if need >= 2 { SemanticText.GatheredPayload(bytes[..need]); }
    assert value == Payload(bytes[..need]);
    if value < minimum || value > 0x10FFFF || 0xD800 <= value <= 0xDFFF {
      NoScalarAt(bytes);
      return 0, 0;
    }
    ShapeEncodes(bytes[..need]);
  }

  /** The ways a lead byte and its followers rule out every scalar. */
  lemma NoScalarAt(bytes: seq<Byte>)
    requires bytes != []
    requires var n := LeadLength(bytes[0]);
             || n == 0 || |bytes| < n
             || (exists j | 1 <= j < n :: !Continuation(bytes[j]))
             || !(Minimum(n) <= Payload(bytes[..n]) && IsScalar(Payload(bytes[..n])))
    ensures forall v: Scalar :: !(Encode(v) <= bytes)
  {
    forall v: Scalar ensures !(Encode(v) <= bytes) {
      if Encode(v) <= bytes {
        var e := Encode(v);
        assert e[0] == bytes[0] && e == bytes[..|e|];
        assert forall j | 1 <= j < |e| :: e[j] == bytes[j];
        EncodeShape(v);
      }
    }
  }

  /** editor_text_valid of os/note_metadata.c */
  method EditorTextValid(bytes: seq<Byte>) returns (valid: bool)
    ensures valid <==> Legal(bytes)
  {
    hide Encode, EncodeAll;
    var offset := 0;
    ghost var done: seq<Scalar> := [];
    AtStart(bytes);
    while offset < |bytes|
      invariant At(bytes, offset, done) && !EndsInCR(done)
    {
      var byte := bytes[offset];
      if byte < 0x80 {
        if byte == CR {
          if offset + 1 >= |bytes| || bytes[offset + 1] != LF {
            BareCr(bytes, offset, done);
            return false;
          }
          CrLf(bytes, offset, done);
          offset, done := offset + 2, done + [CR as Scalar] + [LF as Scalar];
        } else if byte == LF || byte == TAB {
          Ascii(bytes, offset, done);
          offset, done := offset + 1, done + [byte as Scalar];
        } else {
          Ascii(bytes, offset, done);
          if byte < 0x20 || byte == 0x7F {
            return false;
          }
          offset, done := offset + 1, done + [byte as Scalar];
        }
      } else {
        var need, codePoint := DecodeScalar(bytes[offset..]);
        if need == 0 {
          AtReject(bytes, offset, done);
          return false;
        }
        Multibyte(bytes, offset, done, codePoint);
        if 0x80 <= codePoint <= 0x9F {
          return false;
        }
        offset, done := offset + need, done + [codePoint as Scalar];
      }
    }
    AtEnd(bytes, done);
    valid := true;
  }

  /** An ASCII byte other than CR either extends the text or ends it. */
  lemma Ascii(s: seq<Byte>, offset: nat, done: seq<Scalar>)
    requires At(s, offset, done) && offset < |s| && s[offset] < 0x80 && s[offset] != CR && !EndsInCR(done)
    ensures Encode(s[offset]) == [s[offset]]
    ensures if Follows(done, s[offset]) then At(s, offset + 1, done + [s[offset] as Scalar]) else !Legal(s)
  {
    var b := s[offset];
    EncodeAllAscii(b);
    assert Encode(b) <= s[offset..];
    if Follows(done, b) {
      AtStep(s, offset, done, b);
    } else {
      forall v: Scalar | Encode(v) <= s[offset..] ensures !Follows(done, v) {
        PrefixFree(v, b, s[offset..]);
      }
      AtReject(s, offset, done);
    }
  }

  lemma Multibyte(s: seq<Byte>, offset: nat, done: seq<Scalar>, v: Scalar)
    requires At(s, offset, done) && offset < |s| && s[offset] >= 0x80 && !EndsInCR(done) && Encode(v) <= s[offset..]
    ensures v >= 0x80
    ensures if v > 0x9F then At(s, offset + |Encode(v)|, done + [v]) else !Legal(s)
  {
    EncodeShape(v);
    assert Encode(v)[0] == s[offset];
    if v > 0x9F {
      AtStep(s, offset, done, v);
    } else {
      forall w: Scalar | Encode(w) <= s[offset..] ensures !Follows(done, w) {
        PrefixFree(v, w, s[offset..]);
      }
      AtReject(s, offset, done);
    }
  }

  lemma CrLf(s: seq<Byte>, offset: nat, done: seq<Scalar>)
    requires At(s, offset, done) && offset + 1 < |s| && s[offset] == CR && s[offset + 1] == LF && !EndsInCR(done)
    ensures At(s, offset + 2, done + [CR as Scalar] + [LF as Scalar])
  {
    EncodeAllAscii(CR);
    EncodeAllAscii(LF);
    AtStep(s, offset, done, CR);
    AtStep(s, offset + 1, done + [CR as Scalar], LF);
  }

  lemma BareCr(s: seq<Byte>, offset: nat, done: seq<Scalar>)
    requires At(s, offset, done) && offset < |s| && s[offset] == CR && !EndsInCR(done)
    requires offset + 1 >= |s| || s[offset + 1] != LF
    ensures !Legal(s)
  {
    EncodeAllAscii(CR);
    EncodeAllAscii(LF);
    AtStep(s, offset, done, CR);
    var more := done + [CR as Scalar];
    if offset + 1 == |s| {
      AtEnd(s, more);
    } else {
      forall v: Scalar | Encode(v) <= s[offset + 1..] ensures !Follows(more, v) {
        assert Encode(v)[0] == s[offset + 1];
      }
      AtReject(s, offset + 1, more);
    }
  }
}
