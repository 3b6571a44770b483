/** The byte order of names, IDs and labels: a shorter string precedes its extensions. */
module ByteOrder {
  import opened Bytes

  predicate Less(a: seq<Byte>, b: seq<Byte>) {
    b != [] && (a == [] || a[0] < b[0] || (a[0] == b[0] && Less(a[1..], b[1..])))
  }

  lemma {:induction false} Irreflexive(a: seq<Byte>)
    ensures !Less(a, a)
  {
    if a != [] { Irreflexive(a[1..]); }
  }

  lemma {:induction false} Transitive(a: seq<Byte>, b: seq<Byte>, c: seq<Byte>)
    requires Less(a, b) && Less(b, c)
    ensures Less(a, c)
  {
    if a != [] && a[0] == b[0] && b[0] == c[0] { Transitive(a[1..], b[1..], c[1..]); }
  }

  lemma {:induction false} Total(a: seq<Byte>, b: seq<Byte>)
    ensures Less(a, b) || a == b || Less(b, a)
    ensures !(Less(a, b) && Less(b, a))
  {
    if a != [] && b != [] {
      Total(a[1..], b[1..]);
      assert a == [a[0]] + a[1..] && b == [b[0]] + b[1..];
    }
  }

  lemma {:induction false} AfterCommon(a: seq<Byte>, b: seq<Byte>, i: nat)
    requires i <= |a| && i <= |b| && a[..i] == b[..i]
    ensures Less(a, b) <==> Less(a[i..], b[i..])
  {
    if i > 0 {
      assert a[0] == a[..i][0] && b[0] == b[..i][0];
      assert a[1..][..i - 1] == a[..i][1..] && b[1..][..i - 1] == b[..i][1..];
      AfterCommon(a[1..], b[1..], i - 1);
      assert a[1..][i - 1..] == a[i..] && b[1..][i - 1..] == b[i..];
    }
  }

  /** kg_compare_bytes; name_compare is the same on names, which hold no NUL. */
  method Compare(a: seq<Byte>, b: seq<Byte>) returns (order: int)
    ensures order < 0 <==> Less(a, b)
    ensures order > 0 <==> Less(b, a)
    ensures order == 0 <==> a == b
  {
    Total(a, b);
    Irreflexive(a);
    var shared := if |a| < |b| then |a| else |b|;
    for i := 0 to shared
      invariant a[..i] == b[..i]
    {
      AfterCommon(a, b, i);
      AfterCommon(b, a, i);
      if a[i] != b[i] {
        return if a[i] < b[i] then -1 else 1;
      }
    }
    AfterCommon(a, b, shared);
    AfterCommon(b, a, shared);
    if |a| == |b| {
      return 0;
    }
    return if |a| < |b| then -1 else 1;
  }
}
