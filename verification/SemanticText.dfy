/** host/semantic_text.c: the streaming whole-file validator and the one-shot query
    validator. */
module SemanticText {
  import opened Bytes
  import opened Utf8
  import opened LegalText

  /** The payload bits gathered from a partial scalar: lead bits, then six per byte. */
  function Gathered(tail: seq<Byte>): int
    requires tail != []
  {
    if |tail| == 1 then
      var need := LeadLength(tail[0]);
      if need == 2 then Low5(tail[0]) else if need == 3 then Low4(tail[0]) else Low3(tail[0])
    else
      Gathered(tail[..|tail| - 1]) * 64 + Low6(tail[|tail| - 1])
  }

  /** tail is an unfinished multi-byte scalar that waits for `remaining` more bytes. */
  predicate Pending(tail: seq<Byte>, remaining: nat, scalar: int, minimum: int) {
    if tail == [] then remaining == 0
    else
      && remaining >= 1
      && |tail| + remaining == LeadLength(tail[0]) <= 4
      && (forall i | 1 <= i < |tail| :: Continuation(tail[i]))
      && scalar == Gathered(tail)
      && minimum == Minimum(LeadLength(tail[0]))
  }

  lemma GatheredPayload(tail: seq<Byte>)
    requires 2 <= |tail| == LeadLength(tail[0]) <= 4
    ensures Gathered(tail) == Payload(tail)
  {
    assert Gathered(tail[..2]) == Gathered(tail[..1]) * 64 + Low6(tail[1]) by {
      assert tail[..2][..1] == tail[..1];
    }
    if |tail| >= 3 {
      assert tail[..3][..2] == tail[..2];
      assert Gathered(tail[..3]) == Gathered(tail[..2]) * 64 + Low6(tail[2]);
    }
    if |tail| == 4 {
      assert tail[..4][..3] == tail[..3];
      assert Gathered(tail[..4]) == Gathered(tail[..3]) * 64 + Low6(tail[3]);
    }
    assert tail[..|tail|] == tail;
  }

  /** yan_text_scalar_forbidden */
  predicate ScalarForbidden(scalar: int, minimum: int) {
    scalar < minimum || 0xD800 <= scalar <= 0xDFFF || scalar > 0x10FFFF || 0x80 <= scalar <= 0x9F
  }

  /** A completed multi-byte scalar that is not forbidden extends the text by itself;
      a forbidden one ends it for good. */
  lemma CompletedScalar(done: seq<Scalar>, tail: seq<Byte>)
    requires 2 <= |tail| == LeadLength(tail[0]) <= 4 && !EndsInCR(done) && LegalPrefix(done)
    requires forall i | 1 <= i < |tail| :: Continuation(tail[i])
    ensures var v := Gathered(tail);
            if ScalarForbidden(v, Minimum(|tail|)) then Dead(EncodeAll(done) + tail)
            else IsScalar(v) && EncodeAll(done + [v]) == EncodeAll(done) + tail
                 && LegalPrefix(done + [v]) && !EndsInCR(done + [v])
  {
    GatheredPayload(tail);
    var v := Gathered(tail);
    if ScalarForbidden(v, Minimum(|tail|)) {
      forall w: Scalar | Begins(tail, w) ensures !Follows(done, w) {
        EncodeShape(w);
        assert Encode(w)[0] == tail[0];
        assert Encode(w) == tail;
      }
      DeadFrom(done, tail);
    } else {
      ShapeEncodes(tail);
      EncodeAllSnoc(done, v);
      LegalSnoc(done, v);
    }
  }

  /** A byte that is no continuation ends an unfinished scalar for good. */
  lemma Aborted(done: seq<Scalar>, tail: seq<Byte>, b: Byte)
    requires tail != [] && |tail| < LeadLength(tail[0]) && !Continuation(b)
    ensures Dead(EncodeAll(done) + tail + [b])
  {
    var rest := tail + [b];
    assert rest[|tail|] == b && rest[0] == tail[0];
    forall w: Scalar ensures !Begins(rest, w) {
      EncodeShape(w);
      if |tail| < |Encode(w)| { assert Continuation(Encode(w)[|tail|]); }
    }
    DeadFrom(done, rest);
    assert EncodeAll(done) + rest == EncodeAll(done) + tail + [b];
  }

  /** A start byte that no legal scalar may begin with here ends the text for good. */
  lemma BadStart(done: seq<Scalar>, b: Byte)
    requires || (EndsInCR(done) && b != LF)
             || (b < 0x20 && b != TAB && b != LF && b != CR) || b == 0x7F
             || 0x80 <= b < 0xC2 || b >= 0xF5
    ensures Dead(EncodeAll(done) + [b])
  {
    forall w: Scalar | Begins([b], w) ensures !Follows(done, w) {
      EncodeShape(w);
      assert Encode(w)[0] == b;
    }
    DeadFrom(done, [b]);
  }

  ghost function Extended(done: seq<Scalar>, b: Byte): (r: seq<Scalar>)
    requires b < 0x80 && LegalPrefix(done) && Follows(done, b)
    ensures EncodeAll(r) == EncodeAll(done) + [b] && LegalPrefix(r)
    ensures |r| == |done| + 1 && (EndsInCR(r) <==> b == CR)
  {
    GoodAscii(done, b);
    done + [b as Scalar]
  }

  lemma GoodAscii(done: seq<Scalar>, b: Byte)
    requires b < 0x80 && LegalPrefix(done) && Follows(done, b)
    ensures EncodeAll(done + [b as Scalar]) == EncodeAll(done) + [b] && LegalPrefix(done + [b as Scalar])
  {
    EncodeAllAscii(b);
    EncodeAllSnoc(done, b);
    LegalSnoc(done, b);
  }

  /** An unfinished scalar at the end of the bytes is not legal text. */
  lemma Truncated(done: seq<Scalar>, tail: seq<Byte>)
    requires tail != [] && |tail| < LeadLength(tail[0])
    ensures !Legal(EncodeAll(done) + tail)
  {
    forall vs: seq<Scalar> ensures EncodeAll(vs) != EncodeAll(done) + tail {
      if EncodeAll(vs) == EncodeAll(done) + tail {
        Cancel(done, tail, vs);
        var v := vs[|done|..][0];
        assert Encode(v)[0] == tail[0];
        EncodeShape(v);
        assert false;
      }
    }
  }

  class TextValidator {
    var pendingScalar: int
    var pendingMin: int
    var continuationRemaining: nat
    var scalarCount: nat
    var pendingCr: bool
    var invalid: bool
    var finished: bool

    ghost var fed: seq<Byte>       // every byte offered since init
    ghost var done: seq<Scalar>    // the scalars completed while still valid
    ghost var tail: seq<Byte>      // the unfinished scalar

    ghost predicate Valid()
      reads this
    {
      if invalid then Dead(fed) || (finished && !Legal(fed))
      else
        && fed == EncodeAll(done) + tail
        && LegalPrefix(done) && scalarCount == |done|
        && pendingCr == EndsInCR(done)
        && (tail != [] ==> !pendingCr)
        && Pending(tail, continuationRemaining, pendingScalar, pendingMin)
        && (finished ==> tail == [] && !pendingCr)
    }

    constructor ()
      ensures Valid() && fed == [] && !finished
    {
      pendingScalar, pendingMin, continuationRemaining, scalarCount := 0, 0, 0, 0;
      pendingCr, invalid, finished := false, false, false;
      fed, done, tail := [], [], [];
    }

    /** One continuation byte of an open scalar. */
    method Continue(b: Byte)
      requires Valid() && !finished && continuationRemaining > 0 && Continuation(b)
      modifies this
      ensures Valid() && !finished && fed == old(fed) + [b]
    {
      hide EncodeAll, Encode;
      pendingScalar := pendingScalar * 64 + Low6(b);
      continuationRemaining := continuationRemaining - 1;
      ghost var tail1 := tail + [b];
      assert tail1[..|tail1| - 1] == tail;
      if invalid {
        DeadExtends(fed, [b]);
      } else {
        assert fed + [b] == EncodeAll(done) + tail1;
      }
      if continuationRemaining == 0 {
        if !invalid { CompletedScalar(done, tail1); }
        if ScalarForbidden(pendingScalar, pendingMin) {
          invalid := true;
        }
        scalarCount := scalarCount + 1;
        if !invalid { done, tail := done + [pendingScalar as Scalar], []; }
      } else if !invalid {
        tail := tail1;
      }
      fed := fed + [b];
    }

    /** A byte classified as the start of a scalar: none is open and no CR is pending,
        or the text is lost with this byte. */
    method Start(b: Byte)
      requires !finished && continuationRemaining == 0 && !pendingCr
      requires if invalid then Dead(fed + [b]) else Valid()
      modifies this
      ensures Valid() && !finished && fed == old(fed) + [b]
    {
      if b >= 0x80 {
        StartMultibyte(b);
        return;
      }
      ghost var alive := !invalid;
      if alive { assert fed == EncodeAll(done) + [] == EncodeAll(done); }
      if b == CR {
        if alive { done := Extended(done, b); }
        pendingCr := true;
      } else if b == LF || b == TAB {
        if alive { done := Extended(done, b); }
      } else if b < 0x20 || b == 0x7F {
        if alive { BadStart(done, b); }
        invalid := true;
      } else {
        if alive { done := Extended(done, b); }
      }
      scalarCount := scalarCount + 1;
      fed := fed + [b];
    }

    method StartMultibyte(b: Byte)
      requires b >= 0x80 && !finished && continuationRemaining == 0 && !pendingCr
      requires if invalid then Dead(fed + [b]) else Valid()
      modifies this
      ensures Valid() && !finished && fed == old(fed) + [b]
    {
      if !invalid { assert fed == EncodeAll(done) + [] == EncodeAll(done); }
      if b < 0xC2 || b >= 0xF5 {
        if !invalid { BadStart(done, b); }
        invalid := true;
        scalarCount := scalarCount + 1;
      } else {
        if b < 0xE0 {
          pendingScalar, pendingMin, continuationRemaining := Low5(b), 0x80, 1;
        } else if b < 0xF0 {
          pendingScalar, pendingMin, continuationRemaining := Low4(b), 0x800, 2;
        } else {
          pendingScalar, pendingMin, continuationRemaining := Low3(b), 0x10000, 3;
        }
        assert [b][0] == b && Gathered([b]) == pendingScalar;
        tail := [b];
      }
      fed := fed + [b];
    }

    /** One byte of yan_semantic_text_update. */
    method Step(b: Byte)
      requires Valid() && !finished
      modifies this
      ensures Valid() && !finished && fed == old(fed) + [b]
    {
      if continuationRemaining > 0 {
        if Continuation(b) {
          Continue(b);
          return;
        }
        if invalid { DeadExtends(fed, [b]); } else { Aborted(done, tail, b); }
        invalid := true;
        continuationRemaining := 0;
      } else if invalid {
        DeadExtends(fed, [b]);
      }
      if pendingCr {
        if b == LF {
          if !invalid {
            GoodAscii(done, LF);
            assert fed == EncodeAll(done) + [];
            done := done + [LF as Scalar];
          }
          pendingCr := false;
          scalarCount := scalarCount + 1;
          fed := fed + [b];
          return;
        }
        if !invalid {
          BadStart(done, b);
          assert fed == EncodeAll(done);
        }
        invalid := true;
        pendingCr := false;
      }
      Start(b);
    }

    /** yan_semantic_text_update. The answer is false (INVALID) only after finish. */
    method Update(bytes: seq<Byte>) returns (ok: bool)
      requires Valid()
      modifies this
      ensures Valid() && ok == !old(finished) && finished == old(finished)
      ensures fed == if ok then old(fed) + bytes else old(fed)
    {
      if finished {
        return false;
      }
      for i := 0 to |bytes|
        invariant Valid() && !finished && fed == old(fed) + bytes[..i]
      {
        Step(bytes[i]);
        assert bytes[..i + 1] == bytes[..i] + [bytes[i]];
      }
      assert bytes[..|bytes|] == bytes;
      ok := true;
    }

    /** yan_semantic_text_finish: the verdict is exactly the legality of everything fed,
        however it was cut, and a second call repeats it. The count is exact on legal
        text. */
    method Finish() returns (ok: bool)
      requires Valid()
      modifies this
      ensures Valid() && finished && fed == old(fed)
      ensures ok <==> Legal(fed)
      ensures ok ==> exists vs: seq<Scalar> :: EncodeAll(vs) == fed && |vs| == scalarCount
    {
      if !finished {
        if continuationRemaining > 0 || pendingCr {
          if invalid { DeadNotLegal(fed); }
          else if tail != [] { Truncated(done, tail); }
          else { LegalDecodes(fed, done); }
          invalid := true;
        }
        finished := true;
      }
      if invalid {
        if Dead(fed) { DeadNotLegal(fed); }
      } else {
        assert EncodeAll(done) + tail == EncodeAll(done);
        LegalDecodes(fed, done);
      }
      return !invalid;
    }
  }
}
