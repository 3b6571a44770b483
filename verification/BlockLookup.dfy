/** host/knowledge_graph.c: the enclosing block of a declaration, by binary search over the table that
    the block parser leaves. */
module BlockLookup {
  import opened Bytes
  import opened BlockTable

  // ----- kg_block_for

  /** Blocks as the block table lists them: ordered and disjoint. */
  predicate Ordered(blocks: seq<Block>) {
    && (forall k | 0 <= k < |blocks| :: blocks[k].start <= blocks[k].end)
    && (forall j, k | 0 <= j < k < |blocks| :: blocks[j].end <= blocks[k].start)
  }

  predicate Holds(b: Block, offset: nat) {
    b.start <= offset < b.end
  }

  /** The block an offset lies in, when there is one. */
  method BlockFor(blocks: seq<Block>, offset: nat) returns (found: bool, index: nat)
    requires Ordered(blocks)
    ensures found <==> exists k :: 0 <= k < |blocks| && Holds(blocks[k], offset)
    ensures found ==> index < |blocks| && Holds(blocks[index], offset)
  {
    var low, high := 0, |blocks|;
    while low < high
      invariant 0 <= low <= high <= |blocks|
      invariant forall k | 0 <= k < low :: blocks[k].start <= offset
      invariant forall k | high <= k < |blocks| :: blocks[k].start > offset
    {
      var middle := low + (high - low) / 2;
      StartsAscend(blocks);
      if blocks[middle].start <= offset {
        low := middle + 1;
      } else {
        high := middle;
      }
    }
    if low == 0 {
      return false, 0;
    }
    index := low - 1;
    if offset < blocks[index].end {
      assert Holds(blocks[index], offset);
      return true, index;
    }
    forall k | 0 <= k < |blocks|
      ensures !Holds(blocks[k], offset)
    {
      if k < index { assert blocks[k].end <= blocks[index].start; }
    }
    return false, 0;
  }

  lemma StartsAscend(blocks: seq<Block>)
    requires Ordered(blocks)
    ensures forall j, k | 0 <= j < k < |blocks| :: blocks[j].start <= blocks[k].start
  {
    forall j, k | 0 <= j < k < |blocks|
      ensures blocks[j].start <= blocks[k].start
    {
      assert blocks[j].end <= blocks[k].start;
    }
  }

  predicate Between(ms: seq<Marker>, b: Block, stop: nat, k: nat) {
    k < |ms| && b.start == ms[k].after <= b.end && b.end == if k + 1 < |ms| then ms[k + 1].begin else stop
  }

  /** The table that a body's markers give is in that order. */
  lemma TableIsOrdered(s: seq<Byte>, o: Origin)
    requires o.line > 0
    ensures Ordered(Blocks(s, o))
  {
    hide AllMarkers, Blocks, LineAt;
    var ms, bs := AllMarkers(s, o), Blocks(s, o);
    AllMarkersPlaced(s, o);
    BlocksEmpty(s, o);
    forall k: nat | k < |bs|
      ensures Between(ms, bs[k], o.offset + |s|, k)
    {
      BlocksAreRanges(s, o, k);
    }
    forall j, k | 0 <= j < k < |bs|
      ensures bs[j].end <= bs[k].start
    {
      assert Between(ms, bs[j], o.offset + |s|, j) && Between(ms, bs[k], o.offset + |s|, k);
      MarkersAscend(ms, j + 1, k);
    }
    assert forall k: nat | k < |bs| :: Between(ms, bs[k], o.offset + |s|, k) && bs[k].start <= bs[k].end;
  }

  lemma BlocksEmpty(s: seq<Byte>, o: Origin)
    requires o.line > 0
    ensures |Blocks(s, o)| == |AllMarkers(s, o)|
  {
    hide AllMarkers;
  }

  lemma {:induction false} MarkersAscend(ms: seq<Marker>, j: nat, k: nat)
    requires InOrder(ms) && j <= k < |ms| && forall i | 0 <= i < |ms| :: ms[i].begin < ms[i].after
    ensures ms[j].begin <= ms[k].begin
  {
    if j < k { MarkersAscend(ms, j, k - 1); }
  }
}
