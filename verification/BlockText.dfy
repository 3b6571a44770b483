/** os/note_blocks_format.c: the streaming text validator that runs before the block
    grammar. It gathers one scalar at a time and stops at the first violation. */
module BlockText {
  import opened Bytes
  import opened Utf8
  import opened LegalText
  import SemanticText

  datatype Verdict = Ok | InvalidText | Misuse

  lemma NoScalarBegins(done: seq<Scalar>, rest: seq<Byte>)
    requires rest != [] && Expected(rest) == 0
    ensures Dead(EncodeAll(done) + rest)
  {
    forall v: Scalar ensures !Begins(rest, v) {
      if Begins(rest, v) { BeginsExpected(rest, v); }
    }
    DeadFrom(done, rest);
  }

  /** The gathered bytes are one whole scalar. */
  lemma WholeScalar(utf8: seq<Byte>)
    requires utf8 != [] && Expected(utf8) == |utf8|
    ensures var (n, v) := Utf8Scalar(utf8);
            n == |utf8| && IsScalar(v) && Encode(v) == utf8
  {
    CompletedEncodes(utf8);
    assert Completed(utf8) == utf8;
    var v: Scalar := Payload(utf8);
    Utf8ScalarInverts(utf8, v);
  }

  lemma ScalarEnds(done: seq<Scalar>, v: Scalar)
    requires LegalPrefix(done)
    ensures if Follows(done, v) then LegalPrefix(done + [v]) else Dead(EncodeAll(done) + Encode(v))
    ensures EncodeAll(done + [v]) == EncodeAll(done) + Encode(v)
  {
    EncodeAllSnoc(done, v);
    LegalSnoc(done, v);
    if !Follows(done, v) {
      forall w: Scalar | Begins(Encode(v), w) ensures !Follows(done, w) {
        EncodeShape(v);
        EncodeShape(w);
        assert Encode(w)[0] == Encode(v)[0];
        assert Encode(w) == Encode(v);
      }
      DeadFrom(done, Encode(v));
    }
  }

  predicate PlainAscii(b: Byte) {
    0x20 <= b < 0x7F || b == TAB || b == LF
  }

  class Validator {
    var verdict: Verdict
    var utf8: seq<Byte>          // the bytes of the scalar being gathered
    var pendingCr: bool
    var finished: bool

    ghost var fed: seq<Byte>     // every byte offered since init
    ghost var done: seq<Scalar>
    ghost var closed: bool       // finish was called

    ghost predicate Open()
      reads this
    {
      && fed == EncodeAll(done) + utf8 && LegalPrefix(done)
      && pendingCr == EndsInCR(done)
      && (utf8 != [] ==> !pendingCr && Expected(utf8) > |utf8|)
    }

    ghost predicate Valid()
      reads this
    {
      && verdict != Misuse
      && (verdict == InvalidText ==> !finished && (Dead(fed) || (closed && !Legal(fed))))
      && (verdict == Ok ==> Open() && finished == closed && (finished ==> Legal(fed)))
    }

    constructor ()
      ensures Valid() && !closed && fed == []
    {
      verdict, utf8, pendingCr, finished := Ok, [], false, false;
      fed, done, closed := [], [], false;
    }

    /** One byte outside the ASCII fast path. */
    method Gather(b: Byte)
      requires verdict == Ok && Open() && !pendingCr
      modifies this
      ensures finished == old(finished) && closed == old(closed) && fed == old(fed) + [b]
      ensures verdict == Ok ==> Open()
      ensures verdict != Ok ==> verdict == InvalidText && Dead(fed)
    {
      hide EncodeAll, Expected, Utf8Scalar;
      fed := fed + [b];
      ghost var rest := utf8 + [b];
      assert fed == EncodeAll(done) + rest;
      if utf8 == [] && b == CR {
        EncodeAllAscii(CR);
        ScalarEnds(done, CR);
        done := done + [CR as Scalar];
        pendingCr := true;
        return;
      }
      utf8 := utf8 + [b];
      var need := Expected(utf8);
      if need == 0 {
        NoScalarBegins(done, utf8);
        verdict := InvalidText;
        return;
      }
      GatheredLength(utf8);
      if |utf8| == need {
        WholeScalar(utf8);
        var (_, scalar) := Utf8Scalar(utf8);
        assert scalar != CR by {
          EncodeAllAscii(CR);
          assert utf8[|utf8| - 1] == b && (|utf8| == 1 ==> b != CR);
          assert Encode(scalar) == utf8;
        }
        ScalarEnds(done, scalar);
        if (scalar < 0x20 && scalar != TAB && scalar != LF) || 0x7F <= scalar <= 0x9F {
          verdict := InvalidText;
          return;
        }
        done := done + [scalar as Scalar];
        utf8 := [];
      }
    }

    /** One byte of the ASCII fast path. */
    ghost method Skip(b: Byte)
      requires verdict == Ok && Open() && !pendingCr && utf8 == [] && PlainAscii(b)
      modifies this`fed, this`done
      ensures Open() && fed == old(fed) + [b]
    {
      hide EncodeAll, Expected;
      EncodeAllAscii(b);
      ScalarEnds(done, b);
      assert fed + [b] == EncodeAll(done) + utf8 + [b];
      fed, done := fed + [b], done + [b as Scalar];
    }

    /** The LF (or not) after a pending CR. */
    method AfterCr(b: Byte)
      requires verdict == Ok && Open() && pendingCr
      modifies this
      ensures finished == old(finished) && closed == old(closed) && fed == old(fed) + [b]
      ensures verdict == Ok ==> Open() && !pendingCr
      ensures verdict != Ok ==> verdict == InvalidText && Dead(fed)
    {
      hide EncodeAll, Expected;
      assert fed == EncodeAll(done) + [] == EncodeAll(done);
      fed := fed + [b];
      if b != LF {
        SemanticText.BadStart(done, b);
        verdict := InvalidText;
        return;
      }
      EncodeAllAscii(LF);
      ScalarEnds(done, LF);
      done := done + [LF as Scalar];
      pendingCr := false;
    }

    method Scan(bytes: seq<Byte>)
      requires Valid() && verdict == Ok && !finished
      modifies this
      ensures Valid() && !closed && !finished && fed == old(fed) + bytes
    {
      hide EncodeAll, Expected, Open;
      var i := 0;
      while i < |bytes|
        invariant i <= |bytes| && verdict == Ok && Open() && !finished && !closed
        invariant fed == old(fed) + bytes[..i]
        decreases |bytes| - i
      {
        var b := bytes[i];
        if pendingCr {
          AfterCr(b);
        } else {
          if |utf8| == 0 {
            while PlainAscii(b)
              invariant i < |bytes| && b == bytes[i] && verdict == Ok && Open() && !finished && !closed
              invariant !pendingCr && utf8 == []
              invariant fed == old(fed) + bytes[..i]
              decreases |bytes| - i
            {
              Skip(b);
              assert bytes[..i + 1] == bytes[..i] + [b];
              i := i + 1;
              if i == |bytes| {
                assert bytes[..i] == bytes;
                return;
              }
              b := bytes[i];
            }
          }
          Gather(b);
        }
        assert bytes[..i + 1] == bytes[..i] + [b];
        i := i + 1;
        if verdict != Ok {
          DeadExtends(fed, bytes[i..]);
          assert bytes == bytes[..i] + bytes[i..];
          fed := fed + bytes[i..];
          return;
        }
      }
      assert bytes[..i] == bytes;
    }

    /** yan_block_text_feed: a violation is sticky and later bytes change nothing. */
    method Feed(bytes: seq<Byte>) returns (r: Verdict)
      requires Valid()
      modifies this
      ensures Valid() && closed == old(closed)
      ensures fed == if old(closed) then old(fed) else old(fed) + bytes
      ensures r == if old(finished) then Misuse else verdict
    {
      r := verdict;
      if verdict != Ok {
        if Dead(fed) { DeadExtends(fed, bytes); }
        if !closed { fed := fed + bytes; }
        return;
      }
      if finished {
        return Misuse;
      }
      Scan(bytes);
      r := verdict;
    }

    /** yan_block_text_finish: OK exactly when everything fed, however it was cut, is
        legal text; the first verdict decides. */
    method Finish() returns (r: Verdict)
      requires Valid()
      modifies this
      ensures Valid() && closed && fed == old(fed)
      ensures old(finished) ==> r == Misuse
      ensures !old(closed) ==> (r == Ok <==> Legal(fed)) && (r == InvalidText <==> !Legal(fed))
      ensures old(closed) && !old(finished) ==> r == InvalidText
    {
      hide EncodeAll, Expected;
      if verdict != Ok {
        if Dead(fed) { DeadNotLegal(fed); }
        closed := true;
        return verdict;
      }
      if finished {
        return Misuse;
      }
      closed := true;
      if |utf8| != 0 || pendingCr {
        if utf8 != [] {
          ExpectedLead(utf8);
          SemanticText.Truncated(done, utf8);
        } else {
          assert fed == EncodeAll(done);
          LegalDecodes(fed, done);
        }
        verdict := InvalidText;
      } else {
        assert fed == EncodeAll(done);
        LegalDecodes(fed, done);
        finished := true;
      }
      r := verdict;
    }
  }

  lemma GatheredLength(utf8: seq<Byte>)
    requires |utf8| >= 1 && Expected(utf8) > 0
    requires |utf8| == 1 || Expected(utf8[..|utf8| - 1]) > |utf8| - 1
    ensures Expected(utf8) >= |utf8|
  {
    assert |utf8| > 1 ==> utf8[..|utf8| - 1][0] == utf8[0];
  }

  lemma ExpectedLead(s: seq<Byte>)
    requires s != [] && Expected(s) > 0
    ensures Expected(s) == LeadLength(s[0])
  {
  }
}
