/** The counting pass of kg_publish: items distributed into one contiguous slice per bucket. */
module Buckets {

  /** The indices of the items of bucket c, in order. An item outside every bucket holds -1. */
  function Picks(bucket: seq<int>, c: int): seq<nat> {
    if bucket == [] then []
    else
      var n := |bucket| - 1;
      Picks(bucket[..n], c) + (if bucket[n] == c then [n] else [])
  }

  /** A slice holds every item of its bucket, once, in ascending order. */
  lemma {:induction false} PicksMeaning(bucket: seq<int>, c: int)
    ensures forall k | 0 <= k < |Picks(bucket, c)| :: Picks(bucket, c)[k] < |bucket| && bucket[Picks(bucket, c)[k]] == c
    ensures forall j, k | 0 <= j < k < |Picks(bucket, c)| :: Picks(bucket, c)[j] < Picks(bucket, c)[k]
    ensures forall i | 0 <= i < |bucket| && bucket[i] == c :: i in Picks(bucket, c)
  {
    if bucket != [] {
      var n := |bucket| - 1;
      PicksMeaning(bucket[..n], c);
      var before := Picks(bucket[..n], c);
      assert forall k | 0 <= k < |before| :: bucket[..n][before[k]] == bucket[before[k]];
      forall i | 0 <= i < |bucket| && bucket[i] == c
        ensures i in Picks(bucket, c)
      {
        if i < n { assert bucket[..n][i] == c; }
      }
    }
  }

  lemma {:induction false} PicksNone(bucket: seq<int>, c: int)
    requires forall i | 0 <= i < |bucket| :: bucket[i] != c
    ensures Picks(bucket, c) == []
  {
    if bucket != [] { PicksNone(bucket[..|bucket| - 1], c); }
  }

  lemma {:induction false} PicksPrefix(bucket: seq<int>, i: nat, c: int)
    requires i <= |bucket|
    ensures Picks(bucket[..i], c) <= Picks(bucket, c)
  {
    if i < |bucket| {
      PicksPrefix(bucket[..|bucket| - 1], i, c);
      assert bucket[..|bucket| - 1][..i] == bucket[..i];
    } else {
      assert bucket[..i] == bucket;
    }
  }

  lemma PicksStep(bucket: seq<int>, i: nat, c: int)
    requires i < |bucket|
    ensures Picks(bucket[..i + 1], c) == Picks(bucket[..i], c) + (if bucket[i] == c then [i] else [])
    ensures |Picks(bucket[..i + 1], c)| <= |Picks(bucket, c)|
  {
    assert bucket[..i + 1][..i] == bucket[..i];
    PicksPrefix(bucket, i + 1, c);
  }

  /** How many items lie in buckets below c: where the slice of c begins. */
  function Below(bucket: seq<int>, c: nat): (n: nat)
    ensures n <= |bucket|
  {
    if bucket == [] then 0
    else Below(bucket[..|bucket| - 1], c) + (if 0 <= bucket[|bucket| - 1] < c then 1 else 0)
  }

  lemma {:induction false} BelowNone(bucket: seq<int>)
    ensures Below(bucket, 0) == 0
  {
    if bucket != [] { BelowNone(bucket[..|bucket| - 1]); }
  }

  lemma {:induction false} BelowStep(bucket: seq<int>, c: nat)
    ensures Below(bucket, c + 1) == Below(bucket, c) + |Picks(bucket, c)|
  {
    if bucket != [] { BelowStep(bucket[..|bucket| - 1], c); }
  }

  lemma {:induction false} BelowMonotone(bucket: seq<int>, c: nat, d: nat)
    requires c <= d
    ensures Below(bucket, c) <= Below(bucket, d)
    decreases d
  {
    if c < d {
      BelowMonotone(bucket, c, d - 1);
      BelowStep(bucket, d - 1);
    }
  }

  predicate InBuckets(bucket: seq<int>, n: nat) {
    forall i | 0 <= i < |bucket| :: -1 <= bucket[i] < n
  }

  /** The first pass: the size of each bucket. */
  method CountItems(bucket: seq<int>, n: nat) returns (counts: array<nat>)
    requires InBuckets(bucket, n)
    ensures fresh(counts) && counts.Length == n && forall c | 0 <= c < n :: counts[c] == |Picks(bucket, c)|
  {
    hide Picks;
    counts := new nat[n](_ => 0);
    forall c | 0 <= c < n
      ensures Picks(bucket[..0], c) == []
    {
      NoPicks(c);
      assert bucket[..0] == [];
    }
    for i := 0 to |bucket|
      invariant forall c | 0 <= c < n :: counts[c] == |Picks(bucket[..i], c)|
    {
      forall c | 0 <= c < n
        ensures |Picks(bucket[..i + 1], c)| == |Picks(bucket[..i], c)| + (if bucket[i] == c then 1 else 0)
      {
        PicksStep(bucket, i, c);
      }
      if bucket[i] >= 0 {
        counts[bucket[i]] := counts[bucket[i]] + 1;
      }
    }
    assert bucket[..|bucket|] == bucket;
  }

  lemma NoPicks(c: int)
    ensures Picks([], c) == []
  {
  }

  /** The second: prefix sums. */
  method SumOffsets(counts: array<nat>, ghost bucket: seq<int>) returns (offsets: array<nat>)
    requires forall c | 0 <= c < counts.Length :: counts[c] == |Picks(bucket, c)|
    ensures fresh(offsets) && offsets.Length == counts.Length + 1
    ensures forall c | 0 <= c <= counts.Length :: offsets[c] == Below(bucket, c)
  {
    hide Picks, Below;
    offsets := new nat[counts.Length + 1](_ => 0);
    BelowNone(bucket);
    for c := 0 to counts.Length
      invariant forall d | 0 <= d <= c :: offsets[d] == Below(bucket, d)
    {
      BelowStep(bucket, c);
      offsets[c + 1] := offsets[c] + counts[c];
    }
  }

  /** The slice of bucket c holds the first `some` of its items. */
  ghost predicate Holds(items: seq<nat>, bucket: seq<int>, some: seq<int>, c: nat) {
    && Below(bucket, c) + |Picks(some, c)| <= |items|
    && items[Below(bucket, c)..Below(bucket, c) + |Picks(some, c)|] == Picks(some, c)
  }

  /** Putting item i behind the others of its bucket b disturbs no other slice. */
  lemma Placed(items: seq<nat>, bucket: seq<int>, i: nat, c: nat, n: nat)
    requires InBuckets(bucket, n) && i < |bucket| == |items| && c < n
    requires Holds(items, bucket, bucket[..i], c)
    requires bucket[i] >= 0 ==> Below(bucket, bucket[i]) + |Picks(bucket[..i], bucket[i])| < |items|
    ensures var b := bucket[i];
            Holds(if b < 0 then items else items[Below(bucket, b) + |Picks(bucket[..i], b)| := i], bucket, bucket[..i + 1], c)
  {
    hide Picks, Below;
    var b := bucket[i];
    PicksStep(bucket, i, c);
    if b >= 0 {
      PicksStep(bucket, i, b);
      BelowStep(bucket, b);
      BelowStep(bucket, c);
      var p := Below(bucket, b) + |Picks(bucket[..i], b)|;
      var lo, n0 := Below(bucket, c), |Picks(bucket[..i], c)|;
      var now := items[p := i];
      if b < c {
        BelowMonotone(bucket, b + 1, c);
      } else if b > c {
        BelowMonotone(bucket, c + 1, b);
      }
      assert now[lo..lo + n0] == items[lo..lo + n0];
      if b == c { assert now[lo..lo + n0 + 1] == now[lo..lo + n0] + [i]; }
    }
  }

  ghost predicate AllHold(items: seq<nat>, bucket: seq<int>, some: seq<int>, n: nat) {
    forall c: nat | c < n :: Holds(items, bucket, some, c)
  }

  ghost predicate Filled(fill: seq<nat>, some: seq<int>) {
    forall c | 0 <= c < |fill| :: fill[c] == |Picks(some, c)|
  }

  /** One turn of the fill pass. */
  lemma PlacedAll(items: seq<nat>, fill: seq<nat>, bucket: seq<int>, i: nat, n: nat)
    requires InBuckets(bucket, n) && i < |bucket| == |items| && |fill| == n
    requires AllHold(items, bucket, bucket[..i], n) && Filled(fill, bucket[..i])
    ensures bucket[i] < 0 ==> AllHold(items, bucket, bucket[..i + 1], n) && Filled(fill, bucket[..i + 1])
    ensures bucket[i] >= 0 ==>
      var b, p := bucket[i], Below(bucket, bucket[i]) + fill[bucket[i]];
      p < |items| && AllHold(items[p := i], bucket, bucket[..i + 1], n) && Filled(fill[b := fill[b] + 1], bucket[..i + 1])
  {
    hide Picks, Below, Holds;
    if bucket[i] >= 0 {
      PicksStep(bucket, i, bucket[i]);
      BelowStep(bucket, bucket[i]);
      BelowMost(bucket, bucket[i] + 1);
    }
    var now: seq<nat> := if bucket[i] < 0 then items else items[Below(bucket, bucket[i]) + |Picks(bucket[..i], bucket[i])| := i];
    assert bucket[i] >= 0 ==> now == items[Below(bucket, bucket[i]) + fill[bucket[i]] := i];
    var more := bucket[..i + 1];
    forall c: nat | c < n
      ensures |Picks(more, c)| == |Picks(bucket[..i], c)| + (if bucket[i] == c then 1 else 0)
      ensures Holds(now, bucket, more, c)
    {
      assert Holds(items, bucket, bucket[..i], c);
      PicksStep(bucket, i, c);
      Placed(items, bucket, i, c, n);
    }
  }

  lemma BelowMost(bucket: seq<int>, c: nat)
    ensures Below(bucket, c) <= |bucket|
  {
  }

  predicate SliceIs(offsets: seq<nat>, items: seq<nat>, bucket: seq<int>, c: nat) {
    && c + 1 < |offsets| && offsets[c] <= offsets[c + 1] <= |items|
    && items[offsets[c]..offsets[c + 1]] == Picks(bucket, c)
  }

  predicate Sliced(offsets: seq<nat>, items: seq<nat>, bucket: seq<int>, n: nat) {
    |offsets| == n + 1 && |items| == |bucket| && forall c: nat | c < n :: SliceIs(offsets, items, bucket, c)
  }

  lemma AllPlaced(offsets: seq<nat>, items: seq<nat>, bucket: seq<int>, n: nat)
    requires |offsets| == n + 1 && |items| == |bucket| && AllHold(items, bucket, bucket, n)
    requires forall c | 0 <= c <= n :: offsets[c] == Below(bucket, c)
    ensures Sliced(offsets, items, bucket, n)
  {
    hide Picks, Below;
    forall c: nat | c < n
      ensures SliceIs(offsets, items, bucket, c)
    {
      BelowStep(bucket, c);
      BelowMost(bucket, c + 1);
      assert Holds(items, bucket, bucket, c);
    }
  }

  lemma NothingPlaced(items: seq<nat>, fill: seq<nat>, bucket: seq<int>, n: nat)
    requires |items| == |bucket| && forall c | 0 <= c < |fill| :: fill[c] == 0
    ensures AllHold(items, bucket, [], n) && Filled(fill, [])
  {
    forall c: nat | c < n
      ensures Holds(items, bucket, [], c)
    {
      BelowMost(bucket, c);
    }
  }

  /** The three passes: afterwards the slice offsets[c]..offsets[c + 1] is exactly bucket c. */
  method Distribute(bucket: seq<int>, n: nat) returns (offsets: array<nat>, items: array<nat>)
    requires InBuckets(bucket, n)
    ensures fresh(offsets) && fresh(items) && Sliced(offsets[..], items[..], bucket, n)
  {
    hide Picks, Below, Filled, AllHold;
    var counts := CountItems(bucket, n);
    offsets := SumOffsets(counts, bucket);
    items := new nat[|bucket|](_ => 0);
    var fill := new nat[n](_ => 0);
    NothingPlaced(items[..], fill[..], bucket, n);
    assert bucket[..0] == [];
    for i := 0 to |bucket|
      invariant forall c | 0 <= c <= n :: offsets[c] == Below(bucket, c)
      invariant AllHold(items[..], bucket, bucket[..i], n) && Filled(fill[..], bucket[..i])
    {
      var b := bucket[i];
      PlacedAll(items[..], fill[..], bucket, i, n);
      if b >= 0 {
        ghost var was: seq<nat>, wasFill: seq<nat> := items[..], fill[..];
        var p := offsets[b] + fill[b];
        items[p] := i;
        fill[b] := fill[b] + 1;
        assert items[..] == was[p := i] && fill[..] == wasFill[b := wasFill[b] + 1];
      }
    }
    assert bucket[..|bucket|] == bucket;
    AllPlaced(offsets[..], items[..], bucket, n);
  }
}
