/** host/knowledge_graph_query.c: the three-way merge that lists the relations of one concept. */
module GraphRows {
  import opened Bytes
  import opened ByteOrder
  import opened Buckets

  /** A published relation; subject and object are concept ordinals. */
  datatype Edge = Edge(kind: seq<Byte>, subject: nat, object_: nat, subjectId: seq<Byte>, objectId: seq<Byte>,
                       file: seq<Byte>, start: nat, end: nat)
  datatype Direction = Out | In | Self
  datatype Row = Row(relation: nat, direction: Direction)

  // ----- the adjacency slices

  function OutOf(e: Edge): int {
    if e.subject == e.object_ then -1 else e.subject
  }

  function InOf(e: Edge): int {
    if e.subject == e.object_ then -1 else e.object_
  }

  function SelfOf(e: Edge): int {
    if e.subject == e.object_ then e.subject else -1
  }

  function BucketOf(e: Edge, d: Direction): int {
    match d
    case Out => OutOf(e)
    case In => InOf(e)
    case Self => SelfOf(e)
  }

  function Lanes(es: seq<Edge>, d: Direction): seq<int> {
    seq(|es|, i requires 0 <= i < |es| => BucketOf(es[i], d))
  }

  /** The relations that touch concept c, each once, in declaration order: the sorted union of its three
      slices. */
  function Touching(es: seq<Edge>, c: nat): seq<Row> {
    if es == [] then []
    else
      var n := |es| - 1;
      var before, e := Touching(es[..n], c), es[n];
      if e.subject == c && e.object_ == c then before + [Row(n, Self)]
      else if e.subject == c then before + [Row(n, Out)]
      else if e.object_ == c then before + [Row(n, In)]
      else before
  }

  /** The relations of one direction among some rows. */
  function Sub(rows: seq<Row>, d: Direction): seq<nat> {
    if rows == [] then []
    else
      var n := |rows| - 1;
      Sub(rows[..n], d) + (if rows[n].direction == d then [rows[n].relation] else [])
  }

  lemma SubSnoc(rows: seq<Row>, r: Row, d: Direction)
    ensures Sub(rows + [r], d) == Sub(rows, d) + (if r.direction == d then [r.relation] else [])
  {
    assert (rows + [r])[..|rows|] == rows;
  }

  /** The slices of c are the rows of its relations, direction by direction. */
  lemma {:induction false} SlicesAreRows(es: seq<Edge>, c: nat, d: Direction)
    ensures Sub(Touching(es, c), d) == Picks(Lanes(es, d), c)
  {
    if es != [] {
      var n := |es| - 1;
      SlicesAreRows(es[..n], c, d);
      assert Lanes(es, d)[..n] == Lanes(es[..n], d);
      var before := Touching(es[..n], c);
      SubSnoc(before, Row(n, Self), d);
      SubSnoc(before, Row(n, Out), d);
      SubSnoc(before, Row(n, In), d);
    }
  }

  lemma {:induction false} TouchingAscends(es: seq<Edge>, c: nat)
    ensures forall i | 0 <= i < |Touching(es, c)| :: Touching(es, c)[i].relation < |es|
    ensures forall i, j | 0 <= i < j < |Touching(es, c)| :: Touching(es, c)[i].relation < Touching(es, c)[j].relation
  {
    if es != [] { TouchingAscends(es[..|es| - 1], c); }
  }

  /** Every relation that touches c is listed. */
  lemma {:induction false} TouchingComplete(es: seq<Edge>, c: nat, k: nat)
    requires k < |es| && (es[k].subject == c || es[k].object_ == c)
    ensures exists i :: 0 <= i < |Touching(es, c)| && Touching(es, c)[i].relation == k
  {
    var n := |es| - 1;
    if k < n {
      TouchingComplete(es[..n], c, k);
      var i :| 0 <= i < |Touching(es[..n], c)| && Touching(es[..n], c)[i].relation == k;
      assert Touching(es, c)[i].relation == k;
    } else {
      var t := Touching(es, c);
      assert t[|t| - 1].relation == k;
    }
  }

  /** The row is a relation that leaves c, enters c, or does both, as its direction says. */
  predicate RowRight(es: seq<Edge>, c: nat, r: Row) {
    && r.relation < |es|
    && (r.direction.Out? ==> es[r.relation].subject == c && es[r.relation].object_ != c)
    && (r.direction.In? ==> es[r.relation].subject != c && es[r.relation].object_ == c)
    && (r.direction.Self? ==> es[r.relation].subject == c && es[r.relation].object_ == c)
  }

  /** The rows of a concept are exactly the relations at one of whose ends it stands, out for the subject and
      in for the object. */
  lemma {:induction false} TouchingMeaning(es: seq<Edge>, c: nat, r: Row)
    ensures r in Touching(es, c) <==> RowRight(es, c, r)
  {
    if es != [] {
      var n := |es| - 1;
      TouchingMeaning(es[..n], c, r);
      assert r.relation < n ==> es[..n][r.relation] == es[r.relation];
    }
  }

  lemma LaneMeaning(es: seq<Edge>, d: Direction, c: nat, i: nat)
    requires i < |es|
    ensures Lanes(es, d)[i] == c <==> RowRight(es, c, Row(i, d))
  {
  }

  /** The slice of one direction is exactly the relations with the concept at that end, in declaration order. */
  lemma {:induction false} SliceMeaning(es: seq<Edge>, c: nat, d: Direction)
    ensures forall i: nat :: i in Picks(Lanes(es, d), c) <==> RowRight(es, c, Row(i, d))
    ensures forall j, k | 0 <= j < k < |Picks(Lanes(es, d), c)| :: Picks(Lanes(es, d), c)[j] < Picks(Lanes(es, d), c)[k]
  {
    hide Picks, Lanes, RowRight;
    PicksMeaning(Lanes(es, d), c);
    LanesLength(es, d);
    forall i: nat
      ensures i in Picks(Lanes(es, d), c) <==> RowRight(es, c, Row(i, d))
    {
      if i < |es| { LaneMeaning(es, d, c, i); } else { NoRow(es, c, Row(i, d)); }
    }
  }

  lemma LanesLength(es: seq<Edge>, d: Direction)
    ensures |Lanes(es, d)| == |es|
  {
  }

  lemma NoRow(es: seq<Edge>, c: nat, r: Row)
    requires r.relation >= |es|
    ensures !RowRight(es, c, r)
  {
  }

  /** The rows given out are right, and when there was room to spare none is missing. */
  ghost predicate RowsRight(es: seq<Edge>, c: nat, rows: seq<Row>, whole: bool) {
    && (forall k | 0 <= k < |rows| :: RowRight(es, c, rows[k]))
    && (forall j, k | 0 <= j < k < |rows| :: rows[j].relation < rows[k].relation)
    && (whole ==> forall r | RowRight(es, c, r) :: r in rows)
  }

  lemma FirstRowsRight(es: seq<Edge>, c: nat, n: nat)
    requires n <= |Touching(es, c)|
    ensures RowsRight(es, c, Touching(es, c)[..n], n == |Touching(es, c)|)
  {
    hide Touching, RowRight;
    TouchingAscends(es, c);
    var t := Touching(es, c);
    forall k | 0 <= k < n
      ensures RowRight(es, c, t[k])
    {
      TouchingMeaning(es, c, t[k]);
    }
    if n == |t| {
      assert t[..n] == t;
      forall r | RowRight(es, c, r)
        ensures r in t
      {
        TouchingMeaning(es, c, r);
      }
    }
  }

  /** After n rows, the next relation of a direction lies at row n or later, and at row n if that row has
      this direction. */
  lemma {:induction false} NextOf(rows: seq<Row>, n: nat, d: Direction)
    requires n <= |rows| && forall i, j | 0 <= i < j < |rows| :: rows[i].relation < rows[j].relation
    ensures |Sub(rows[..n], d)| <= |Sub(rows, d)|
    ensures n == |rows| ==> |Sub(rows[..n], d)| == |Sub(rows, d)|
    ensures |Sub(rows[..n], d)| < |Sub(rows, d)| ==> n < |rows| && Sub(rows, d)[|Sub(rows[..n], d)|] >= rows[n].relation
    ensures n < |rows| && rows[n].direction == d ==>
              |Sub(rows[..n], d)| < |Sub(rows, d)| && Sub(rows, d)[|Sub(rows[..n], d)|] == rows[n].relation
    ensures n < |rows| && rows[n].direction != d && |Sub(rows[..n], d)| < |Sub(rows, d)| ==>
              Sub(rows, d)[|Sub(rows[..n], d)|] > rows[n].relation
    decreases |rows| - n
  {
    hide Sub;
    if n < |rows| {
      NextOf(rows, n + 1, d);
      assert rows[..n + 1] == rows[..n] + [rows[n]];
      SubSnoc(rows[..n], rows[n], d);
      if rows[n].direction == d { SubPrefix(rows, n + 1, d); }
    } else {
      assert rows[..n] == rows;
    }
  }

  lemma {:induction false} SubPrefix(rows: seq<Row>, n: nat, d: Direction)
    requires n <= |rows|
    ensures Sub(rows[..n], d) <= Sub(rows, d)
  {
    if n < |rows| {
      SubPrefix(rows[..|rows| - 1], n, d);
      assert rows[..|rows| - 1][..n] == rows[..n];
    } else {
      assert rows[..n] == rows;
    }
  }

  // ----- the canonical order

  /** rows_before */
  predicate RowsBefore(a: Edge, b: Edge) {
    if a.file != b.file then Less(a.file, b.file)
    else if a.start != b.start then a.start < b.start
    else if a.end != b.end then a.end < b.end
    else if a.kind != b.kind then Less(a.kind, b.kind)
    else if a.subjectId != b.subjectId then Less(a.subjectId, b.subjectId)
    else Less(a.objectId, b.objectId)
  }

  lemma NotBoth(a: Edge, b: Edge)
    requires RowsBefore(a, b)
    ensures !RowsBefore(b, a)
  {
    Total(a.file, b.file);
    Total(a.kind, b.kind);
    Total(a.subjectId, b.subjectId);
    Total(a.objectId, b.objectId);
  }

  ghost predicate Canonical(es: seq<Edge>) {
    forall i, j | 0 <= i < j < |es| :: RowsBefore(es[i], es[j])
  }

  /** Files are scanned in name order and each file from its start, so declaration order is canonical. */
  lemma ScanOrderIsCanonical(es: seq<Edge>)
    requires forall i, j | 0 <= i < j < |es| :: Less(es[i].file, es[j].file) || (es[i].file == es[j].file && es[i].start < es[j].start)
    ensures Canonical(es)
  {
    hide Less;
    forall i, j | 0 <= i < j < |es|
      ensures RowsBefore(es[i], es[j])
    {
      Irreflexive(es[i].file);
    }
  }

  /** rows_collect: the first min(capacity, total) rows. The slices are those of the published graph. */
  method RowsCollect(es: seq<Edge>, c: nat, outs: seq<nat>, ins: seq<nat>, selfs: seq<nat>, rows: array<Row>)
    returns (count: nat)
    requires Canonical(es)
    requires outs == Picks(Lanes(es, Out), c) && ins == Picks(Lanes(es, In), c) && selfs == Picks(Lanes(es, Self), c)
    modifies rows
    ensures count == (if |Touching(es, c)| < rows.Length then |Touching(es, c)| else rows.Length)
    ensures rows[..count] == Touching(es, c)[..count]
    ensures RowsRight(es, c, rows[..count], count < rows.Length)
    ensures rows[count..] == old(rows[count..])
  {
    hide Picks, Touching, Sub, Lanes, RowsBefore, RowRight;
    ghost var t := Touching(es, c);
    TouchingAscends(es, c);
    SlicesAreRows(es, c, Out);
    SlicesAreRows(es, c, In);
    SlicesAreRows(es, c, Self);
    InRange(es, c, Out);
    InRange(es, c, In);
    InRange(es, c, Self);
    var outIndex, inIndex, selfIndex := 0, 0, 0;
    count := 0;
    NothingYet(t);
    while count < rows.Length
      invariant count <= rows.Length && count <= |t|
      invariant outIndex == |Sub(t[..count], Out)| && inIndex == |Sub(t[..count], In)| && selfIndex == |Sub(t[..count], Self)|
      invariant rows[..count] == t[..count]
      invariant forall k | count <= k < rows.Length :: rows[k] == old(rows[k])
    {
      NextOf(t, count, Out);
      NextOf(t, count, In);
      NextOf(t, count, Self);
      if outIndex == |outs| && inIndex == |ins| && selfIndex == |selfs| {
        FirstRowsRight(es, c, count);
        return;
      }
      var best := Pick(es, outs, ins, selfs, outIndex, inIndex, selfIndex, t, count);
      assert t[..count + 1] == t[..count] + [t[count]];
      SubSnoc(t[..count], t[count], Out);
      SubSnoc(t[..count], t[count], In);
      SubSnoc(t[..count], t[count], Self);
      rows[count] := best;
      count := count + 1;
      match best.direction {
        case Out => outIndex := outIndex + 1;
        case In => inIndex := inIndex + 1;
        case Self => selfIndex := selfIndex + 1;
      }
    }
    FirstRowsRight(es, c, count);
  }

  lemma InRange(es: seq<Edge>, c: nat, d: Direction)
    ensures forall k | 0 <= k < |Picks(Lanes(es, d), c)| :: Picks(Lanes(es, d), c)[k] < |es|
  {
    PicksMeaning(Lanes(es, d), c);
  }

  lemma NothingYet(t: seq<Row>)
    ensures forall d :: Sub(t[..0], d) == []
  {
  }

  /** The choice among the heads of the three slices. */
  method Pick(es: seq<Edge>, outs: seq<nat>, ins: seq<nat>, selfs: seq<nat>, outIndex: nat, inIndex: nat, selfIndex: nat,
              ghost t: seq<Row>, ghost n: nat) returns (best: Row)
    requires Canonical(es) && n < |t| && t[n].relation < |es|
    requires outIndex <= |outs| && inIndex <= |ins| && selfIndex <= |selfs|
    requires outIndex < |outs| ==> Head(t[n], outs[outIndex], Out) && outs[outIndex] < |es|
    requires inIndex < |ins| ==> Head(t[n], ins[inIndex], In) && ins[inIndex] < |es|
    requires selfIndex < |selfs| ==> Head(t[n], selfs[selfIndex], Self) && selfs[selfIndex] < |es|
    requires t[n].direction == Out ==> outIndex < |outs|
    requires t[n].direction == In ==> inIndex < |ins|
    requires t[n].direction == Self ==> selfIndex < |selfs|
    ensures best == t[n]
  {
    var some := false;
    best := Row(0, Out);
    if outIndex < |outs| {
      some, best := true, Row(outs[outIndex], Out);
    }
    if inIndex < |ins| {
      var candidate := ins[inIndex];
      if some { Compared(es, candidate, best.relation); }
      if !some || RowsBefore(es[candidate], es[best.relation]) {
        some, best := true, Row(candidate, In);
      }
    }
    if selfIndex < |selfs| {
      var candidate := selfs[selfIndex];
      if some { Compared(es, candidate, best.relation); }
      if !some || RowsBefore(es[candidate], es[best.relation]) {
        some, best := true, Row(candidate, Self);
      }
    }
  }

  /** The next relation of a direction, seen from the next row. */
  predicate Head(next: Row, relation: nat, d: Direction) {
    if next.direction == d then relation == next.relation else relation > next.relation
  }

  lemma Compared(es: seq<Edge>, i: nat, j: nat)
    requires Canonical(es) && i < |es| && j < |es|
    ensures i < j ==> RowsBefore(es[i], es[j])
    ensures j < i ==> !RowsBefore(es[i], es[j])
  {
    hide RowsBefore;
    if j < i { NotBoth(es[j], es[i]); }
  }
}
