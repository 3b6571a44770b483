/** The text language the whole system shares: strict UTF-8, no C0 control but TAB and
    LF, no DEL, no C1 control, and CR only directly before LF. */
module LegalText {
  import opened Bytes
  import opened Utf8

  predicate Allowed(v: Scalar) {
    v == TAB || v == LF || v == CR || 0x20 <= v < 0x7F || 0x9F < v
  }

  /** Legal so far: every CR that has a successor is followed by LF. */
  predicate LegalPrefix(vs: seq<Scalar>) {
    forall i | 0 <= i < |vs| :: Allowed(vs[i]) && (vs[i] == CR && i + 1 < |vs| ==> vs[i + 1] == LF)
  }

  predicate EndsInCR(vs: seq<Scalar>) {
    vs != [] && vs[|vs| - 1] == CR
  }

  predicate LegalScalars(vs: seq<Scalar>) {
    LegalPrefix(vs) && !EndsInCR(vs)
  }

  ghost predicate Legal(s: seq<Byte>) {
    exists vs: seq<Scalar> :: EncodeAll(vs) == s && LegalScalars(vs)
  }

  /** No continuation of s is legal text. */
  ghost predicate Dead(s: seq<Byte>) {
    forall t: seq<Byte> :: !Legal(s + t)
  }

  lemma DeadExtends(s: seq<Byte>, t: seq<Byte>)
    requires Dead(s)
    ensures Dead(s + t)
  {
    forall u: seq<Byte> ensures !Legal(s + t + u) {
      assert s + t + u == s + (t + u);
    }
  }

  lemma DeadNotLegal(s: seq<Byte>)
    requires Dead(s)
    ensures !Legal(s)
  {
    assert s + [] == s;
  }

  lemma LegalDecodes(s: seq<Byte>, vs: seq<Scalar>)
    requires EncodeAll(vs) == s
    ensures Legal(s) <==> LegalScalars(vs)
  {
    forall ws: seq<Scalar> | EncodeAll(ws) == s ensures ws == vs {
      DecodingUnique(ws, vs);
    }
  }

  /** v may come next after the legal prefix done. */
  predicate Follows(done: seq<Scalar>, v: Scalar) {
    Allowed(v) && (EndsInCR(done) ==> v == LF)
  }

  lemma LegalSnoc(done: seq<Scalar>, v: Scalar)
    requires LegalPrefix(done)
    ensures LegalPrefix(done + [v]) <==> Follows(done, v)
  {
    var vs := done + [v];
    assert vs[|done|] == v;
    forall i | 0 <= i < |done| ensures vs[i] == done[i] {}
    if !EndsInCR(done) || v == LF {
    } else {
      assert vs[|done| - 1] == CR && vs[|done| - 1 + 1] == v;
    }
  }

  /** If every scalar the next bytes can begin is barred after done, the text is lost. */
  lemma DeadFrom(done: seq<Scalar>, rest: seq<Byte>)
    requires rest != []
    requires forall v: Scalar :: Begins(rest, v) ==> !Follows(done, v)
    ensures Dead(EncodeAll(done) + rest)
  {
    forall t: seq<Byte> ensures !Legal(EncodeAll(done) + rest + t) {
      forall vs: seq<Scalar> | EncodeAll(vs) == EncodeAll(done) + rest + t
        ensures !LegalScalars(vs)
      {
        assert EncodeAll(done) + rest + t == EncodeAll(done) + (rest + t);
        Cancel(done, rest + t, vs);
        var next := vs[|done|..];
        assert next != [];
        var v := next[0];
        BeginsOfPrefix(rest, t, v, EncodeAll(next[1..]));
        assert vs[|done|] == v;
        if EndsInCR(done) { assert vs[|done| - 1] == CR; }
      }
    }
  }

  lemma BeginsOfPrefix(rest: seq<Byte>, t: seq<Byte>, v: Scalar, more: seq<Byte>)
    requires rest + t == Encode(v) + more
    ensures Begins(rest, v)
  {
    var whole := rest + t;
    assert rest == whole[..|rest|] && Encode(v) == whole[..|Encode(v)|];
    if |rest| <= |Encode(v)| {
      assert Encode(v)[..|rest|] == whole[..|rest|];
    } else {
      assert rest[..|Encode(v)|] == whole[..|Encode(v)|];
    }
  }

  /** A whole-buffer recogniser stands at the boundary after done. */
  ghost predicate At(s: seq<Byte>, offset: nat, done: seq<Scalar>) {
    offset <= |s| && s[..offset] == EncodeAll(done) && LegalPrefix(done)
  }

  lemma AtStart(s: seq<Byte>)
    ensures At(s, 0, [])
  {
  }

  lemma AtStep(s: seq<Byte>, offset: nat, done: seq<Scalar>, v: Scalar)
    requires At(s, offset, done) && Encode(v) <= s[offset..] && Follows(done, v)
    ensures At(s, offset + |Encode(v)|, done + [v])
  {
    var n := |Encode(v)|;
    assert s[..offset + n] == s[..offset] + s[offset..][..n];
    EncodeAllSnoc(done, v);
    LegalSnoc(done, v);
  }

  lemma AtReject(s: seq<Byte>, offset: nat, done: seq<Scalar>)
    requires At(s, offset, done) && offset < |s|
    requires forall v: Scalar :: Encode(v) <= s[offset..] ==> !Follows(done, v)
    ensures !Legal(s)
  {
    assert s == EncodeAll(done) + s[offset..];
    forall vs: seq<Scalar> | EncodeAll(vs) == s ensures !LegalScalars(vs) {
      Cancel(done, s[offset..], vs);
      var next := vs[|done|..];
      assert next != [] && Encode(next[0]) <= s[offset..];
      assert vs[|done|] == next[0];
      if EndsInCR(done) { assert vs[|done| - 1] == CR; }
    }
  }

  lemma AtEnd(s: seq<Byte>, done: seq<Scalar>)
    requires At(s, |s|, done)
    ensures Legal(s) <==> !EndsInCR(done)
  {
    assert s[..|s|] == s;
    LegalDecodes(s, done);
  }

  lemma {:induction false} EncodeAllAscii(v: Scalar)
    requires v < 0x80
    ensures Encode(v) == [v as Byte]
    ensures forall w: Scalar, rest: seq<Byte> :: rest != [] && rest[0] == v && Begins(rest, w) ==> w == v
  {
    forall w: Scalar, rest: seq<Byte> | rest != [] && rest[0] == v && Begins(rest, w)
      ensures w == v
    {
      EncodeShape(w);
      assert Encode(w)[0] == v;
    }
  }

  // ----- closure of the language

  lemma LegalConcat(s: seq<Byte>, t: seq<Byte>)
    requires Legal(s) && Legal(t)
    ensures Legal(s + t)
  {
    var vs: seq<Scalar> :| EncodeAll(vs) == s && LegalScalars(vs);
    var ws: seq<Scalar> :| EncodeAll(ws) == t && LegalScalars(ws);
    EncodeAllConcat(vs, ws);
    var all := vs + ws;
    forall i | 0 <= i < |all|
      ensures Allowed(all[i]) && (all[i] == CR && i + 1 < |all| ==> all[i + 1] == LF)
    {
      if i < |vs| {
        assert all[i] == vs[i];
        if i + 1 < |vs| { assert all[i + 1] == vs[i + 1]; }
      } else {
        assert all[i] == ws[i - |vs|];
        if i + 1 < |all| { assert all[i + 1] == ws[i + 1 - |vs|]; }
      }
    }
    assert LegalScalars(all);
  }
}
