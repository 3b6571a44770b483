/** host/semantic_text.c: the streaming chunker. It keeps a 4096-byte window and must
    deliver exactly the chunks of Segmentation.Chunks, however the body is cut. */
module SemanticChunker {
  import opened Bytes
  import opened Utf8
  import opened Segmentation
  import Memory

  const SCRATCH_SIZE: nat := 4096
  const INDEX_SIZE: nat := 520

  datatype Result = Ok | Invalid | Stopped | TooLarge

  datatype Flags = Flags(white: bool, cr: bool, lf: bool)

  /** yan_chunk_classify */
  function Classify(v: Scalar): Flags {
    Flags(WhiteSpace(v), v == CR, v == LF)
  }

  /** The caller's sink. Its answer is an arbitrary function of what it has received. */
  class Sink {
    const accepts: seq<Chunk> -> bool
    var delivered: seq<Chunk>

    constructor (accepts: seq<Chunk> -> bool)
      ensures delivered == [] && this.accepts == accepts
    {
      this.accepts := accepts;
      delivered := [];
    }

    method Receive(c: Chunk) returns (keep: bool)
      modifies this
      ensures delivered == old(delivered) + [c] && keep == accepts(delivered)
    {
      delivered := delivered + [c];
      keep := accepts(delivered);
    }
  }

  // ----- the decoded-scalar index

  function Offset(window: seq<Scalar>, k: nat): nat
    requires k <= |window|
  {
    |EncodeAll(window[..k])|
  }

  predicate Indexed(offsets: seq<nat>, flags: seq<Flags>, window: seq<Scalar>) {
    && |window| <= |offsets| && |window| <= |flags|
    && (forall k | 0 <= k < |window| :: offsets[k] == Offset(window, k))
    && (forall k | 0 <= k < |window| :: flags[k] == Classify(window[k]))
  }

  lemma OffsetDrop(window: seq<Scalar>, n: nat, k: nat)
    requires n + k <= |window|
    ensures Offset(window[n..], k) == Offset(window, n + k) - Offset(window, n)
  {
    EncodeAllSplit(window[..n + k], n);
    assert window[..n + k][..n] == window[..n];
    assert window[..n + k][n..] == window[n..][..k];
  }

  lemma OffsetMonotone(window: seq<Scalar>, n: nat)
    requires n <= |window|
    ensures Offset(window, 0) == 0
    ensures Offset(window, n) <= |EncodeAll(window)| <= 4 * |window|
    ensures EncodeAll(window)[..Offset(window, n)] == EncodeAll(window[..n])
    ensures EncodeAll(window)[Offset(window, n)..] == EncodeAll(window[n..])
  {
    EncodeAllSplit(window, n);
    EncodeAllLength(window);
  }

  lemma {:induction false} LineFeedsConcat(a: seq<Scalar>, b: seq<Scalar>)
    ensures LineFeeds(a + b) == LineFeeds(a) + LineFeeds(b)
  {
    if b == [] {
      assert a + b == a;
    } else {
      LineFeedsConcat(a, b[..|b| - 1]);
      assert (a + b)[..|a + b| - 1] == a + b[..|b| - 1];
    }
  }

  /** The chunk of the first `count` window scalars, in terms of the window alone. */
  lemma {:induction false} WindowChunk(base: seq<Scalar>, window: seq<Scalar>, count: nat, offset: nat, line: nat)
    requires 0 < count <= |window|
    ensures var g := Segment(|base|, |base| + count);
            && (base + window)[g.first..g.last] == window[..count]
            && ChunkOf(base + window, g, offset, line)
               == Chunk(EncodeAll(window[..count]), count,
                        offset + |EncodeAll(base)|, offset + |EncodeAll(base)| + Offset(window, count),
                        line + LineFeeds(base), line + LineFeeds(base) + LineFeeds(window[..count - 1]))
  {
    var ds := base + window;
    assert ds[..|base|] == base;
    assert ds[|base|..|base| + count] == window[..count];
    assert ds[..|base| + count - 1] == base + window[..count - 1];
    LineFeedsConcat(base, window[..count - 1]);
  }

  // ----- invalid bodies

  /** Bytes no UTF-8 body can start with. */
  ghost predicate NoBody(s: seq<Byte>) {
    forall vs: seq<Scalar> :: !(s <= EncodeAll(vs))
  }

  lemma MalformedNoBody(done: seq<Scalar>, rest: seq<Byte>)
    requires rest != [] && DecodeOne(rest).Malformed?
    ensures NoBody(EncodeAll(done) + rest)
  {
    var s := EncodeAll(done) + rest;
    forall vs: seq<Scalar> ensures !(s <= EncodeAll(vs)) {
      if s <= EncodeAll(vs) {
        var more := EncodeAll(vs)[|s|..];
        assert EncodeAll(vs) == EncodeAll(done) + (rest + more);
        Cancel(done, rest + more, vs);
        var v := vs[|done|..][0];
        assert rest + more == Encode(v) + EncodeAll(vs[|done|..][1..]);
        MalformedBegins(rest, more, v);
      }
    }
  }

  lemma MalformedBegins(rest: seq<Byte>, more: seq<Byte>, v: Scalar)
    requires rest != [] && DecodeOne(rest).Malformed?
    ensures !(Encode(v) <= rest + more)
  {
    if Encode(v) <= rest + more {
      assert rest[0] == (rest + more)[0];
      if |Encode(v)| <= |rest| { assert Encode(v) == (rest + more)[..|Encode(v)|] == rest[..|Encode(v)|]; }
      EncodeShape(v);
      DecodeOneInverts(rest, v, |Encode(v)|);
    }
  }

  lemma TruncatedNoBody(done: seq<Scalar>, tail: seq<Byte>)
    requires tail != [] && DecodeOne(tail).Incomplete?
    ensures !ValidUtf8(EncodeAll(done) + tail)
  {
    forall vs: seq<Scalar> ensures EncodeAll(vs) != EncodeAll(done) + tail {
      if EncodeAll(vs) == EncodeAll(done) + tail {
        Cancel(done, tail, vs);
        var v := vs[|done|..][0];
        assert Encode(v) <= tail;
        DecodeOneInverts(tail, v, |Encode(v)|);
      }
    }
  }

  // ----- what a decoded prefix fixes about the whole body

  lemma DeliveredPrefix(ds: seq<Scalar>, segs: seq<Segment>, i: nat, vs: seq<Scalar>, offset: nat, line: nat)
    requires Path(ds, segs, i) && ds <= vs
    ensures Within(segs, |ds|)
    ensures Deliver(ds, segs, offset, line) <= Chunks(vs, offset, line)
  {
    PathWithin(ds, segs, i);
    PathExtends(ds, vs, segs, i);
    PathPrefix(vs, segs, i);
    SegmentsWithin(vs, 0);
    DeliverConcat(vs, segs, Segments(vs, i), offset, line);
    DeliverExtends(ds, vs, segs, offset, line);
  }

  lemma DeliveredAll(vs: seq<Scalar>, segs: seq<Segment>, i: nat, offset: nat, line: nat)
    requires Path(vs, segs, i) && i <= |vs| <= i + MAX_SCALARS
    ensures Within(segs, |vs|)
    ensures Chunks(vs, offset, line) == Deliver(vs, segs, offset, line)
              + if i == |vs| then [] else Piece(vs, Segment(i, |vs|), offset, line)
  {
    PathWithin(vs, segs, i);
    PathPrefix(vs, segs, i);
    SegmentsWithin(vs, 0);
    if i < |vs| {
      var all := segs + [Segment(i, |vs|)];
      assert all[..|all| - 1] == segs;
    } else {
      assert segs + [] == segs;
    }
  }

  /** delivered is what the full segments of the decoded scalars ds call for, up to index i. */
  ghost predicate Produced(ds: seq<Scalar>, segs: seq<Segment>, i: nat, delivered: seq<Chunk>, offset: nat, line: nat) {
    && Path(ds, segs, i) && Within(segs, |ds|)
    && delivered == Deliver(ds, segs, offset, line)
  }

  lemma ProducedExtends(base: seq<Scalar>, window: seq<Scalar>, v: Scalar, segs: seq<Segment>,
                        delivered: seq<Chunk>, offset: nat, line: nat)
    requires Produced(base + window, segs, |base|, delivered, offset, line)
    ensures Produced(base + (window + [v]), segs, |base|, delivered, offset, line)
  {
    assert base + window <= base + (window + [v]);
    PathExtends(base + window, base + (window + [v]), segs, |base|);
    DeliverExtends(base + window, base + (window + [v]), segs, offset, line);
  }

  /** One scalar moves from the undecoded bytes to the decoded ones. */
  lemma {:induction false} Shift(base: seq<Scalar>, window: seq<Scalar>, tail: seq<Byte>, v: Scalar)
    requires Encode(v) <= tail
    ensures var n := |Encode(v)|;
            && EncodeAll(window + [v]) == EncodeAll(window) + Encode(v)
            && EncodeAll(window + [v]) + tail[n..] == EncodeAll(window) + tail
            && EncodeAll(base + (window + [v])) + tail[n..] == EncodeAll(base + window) + tail
  {
    EncodeAllSnoc(window, v);
    EncodeAllSnoc(base + window, v);
    assert base + window + [v] == base + (window + [v]);
    Regroup(EncodeAll(window), Encode(v), tail);
    Regroup(EncodeAll(base + window), Encode(v), tail);
  }

  lemma DropFacts(base: seq<Scalar>, window: seq<Scalar>, n: nat)
    requires n <= |window|
    ensures base + window[..n] + window[n..] == base + window
    ensures |EncodeAll(base + window[..n])| == |EncodeAll(base)| + Offset(window, n)
    ensures |EncodeAll(window[n..])| == |EncodeAll(window)| - Offset(window, n)
    ensures LineFeeds(base + window[..n]) == LineFeeds(base) + LineFeeds(window[..n])
    ensures n <= Offset(window, n) <= |EncodeAll(window)|
  {
    hide EncodeAll, Encode, LineFeeds;
    EncodeAllLength(window[..n]);
    OffsetMonotone(window, n);
    EncodeAllConcat(base, window[..n]);
    LineFeedsConcat(base, window[..n]);
  }

  /** Emitting the full segment at i completes it. */
  lemma ProducedStep(ds: seq<Scalar>, segs: seq<Segment>, i: nat, delivered: seq<Chunk>, offset: nat, line: nat)
    requires Produced(ds, segs, i, delivered, offset, line) && i + MAX_SCALARS < |ds|
    ensures var g := Segment(i, SegmentEnd(ds, i));
            Produced(ds, segs + [g], NextStart(ds, i), delivered + Piece(ds, g, offset, line), offset, line)
  {
    hide Piece;
    var g := Segment(i, SegmentEnd(ds, i));
    var all := segs + [g];
    assert all[..|all| - 1] == segs && all[|all| - 1] == g;
  }

  /** What a decoded prefix has produced is a prefix of the chunks of every body it begins. */
  lemma ProducedPrefix(ds: seq<Scalar>, tail: seq<Byte>, segs: seq<Segment>, i: nat, delivered: seq<Chunk>,
                       offset: nat, line: nat)
    requires Produced(ds, segs, i, delivered, offset, line)
    ensures forall vs: seq<Scalar> | EncodeAll(ds) + tail <= EncodeAll(vs) :: delivered <= Chunks(vs, offset, line)
  {
    hide EncodeAll, Encode, Produced, Chunks;
    var s := EncodeAll(ds) + tail;
    forall vs: seq<Scalar> | s <= EncodeAll(vs) ensures delivered <= Chunks(vs, offset, line) {
      var more := EncodeAll(vs)[|s|..];
      assert EncodeAll(vs) == EncodeAll(ds) + (tail + more);
      Cancel(ds, tail + more, vs);
      ProducedWithin(ds, segs, i, delivered, vs, offset, line);
    }
  }

  lemma ProducedWithin(ds: seq<Scalar>, segs: seq<Segment>, i: nat, delivered: seq<Chunk>, vs: seq<Scalar>,
                       offset: nat, line: nat)
    requires Produced(ds, segs, i, delivered, offset, line) && ds <= vs
    ensures delivered <= Chunks(vs, offset, line)
  {
    hide Path, Deliver, Chunks;
    DeliveredPrefix(ds, segs, i, vs, offset, line);
  }

  lemma Regroup(a: seq<Byte>, e: seq<Byte>, tail: seq<Byte>)
    requires e <= tail
    ensures a + e + tail[|e|..] == a + tail
  {
  }

  predicate Accepted(accepts: seq<Chunk> -> bool, delivered: seq<Chunk>) {
    forall k | 0 < k <= |delivered| :: accepts(delivered[..k])
  }

  lemma AcceptedSnoc(accepts: seq<Chunk> -> bool, delivered: seq<Chunk>, c: Chunk)
    requires Accepted(accepts, delivered) && accepts(delivered + [c])
    ensures Accepted(accepts, delivered + [c])
  {
    var all := delivered + [c];
    forall k | 0 < k <= |all| ensures accepts(all[..k]) {
      if k <= |delivered| { assert all[..k] == delivered[..k]; } else { assert all[..k] == all; }
    }
  }

  lemma IndexedSnoc(offsets: seq<nat>, flags: seq<Flags>, window: seq<Scalar>, v: Scalar)
    requires |window| < |offsets| && |window| < |flags| && Indexed(offsets, flags, window)
    ensures Indexed(offsets[|window| := |EncodeAll(window)|], flags[|window| := Classify(v)], window + [v])
  {
    var more := window + [v];
    assert more[..|window|] == window;
    forall k | 0 <= k < |window| ensures Offset(more, k) == Offset(window, k) {
      assert more[..k] == window[..k];
    }
  }

  class Chunker {
    const bodyOffset: nat
    const firstLine: nat
    const sink: Sink
    const scratch: array<Byte>
    const scalarOffset: array<nat>
    const scalarFlags: array<Flags>
    var windowStart: nat
    var windowLength: nat
    var scanPos: nat
    var windowLine: nat
    var scalarCount: nat
    var invalid: bool
    var stopped: bool
    var finished: bool

    ghost var fed: seq<Byte>        // the body bytes consumed so far
    ghost var base: seq<Scalar>     // scalars already dropped from the window
    ghost var window: seq<Scalar>   // decoded scalars in the window
    ghost var tail: seq<Byte>       // undecoded bytes of the window
    ghost var segs: seq<Segment>    // full segments emitted or skipped

    ghost predicate Windowed()
      reads `scalarCount, `scanPos, `windowLength, `window, `tail, scratch, scalarOffset, scalarFlags
    {
      && scratch.Length == SCRATCH_SIZE && scalarOffset.Length == scalarFlags.Length == INDEX_SIZE
      && scratch as object != scalarOffset
      && scalarCount == |window|
      && scanPos == |EncodeAll(window)|
      && windowLength == scanPos + |tail| <= SCRATCH_SIZE
      && scratch[..windowLength] == EncodeAll(window) + tail
      && Indexed(scalarOffset[..], scalarFlags[..], window)
    }

    ghost predicate Located()
      reads `fed, `base, `window, `tail, `windowStart, `windowLine
    {
      && fed == EncodeAll(base + window) + tail
      && bodyOffset + |fed| <= UINT32_MAX
      && windowStart == |EncodeAll(base)|
      && windowLine == firstLine + LineFeeds(base)
    }

    ghost predicate Emitted()
      reads this, sink
    {
      && Produced(base + window, segs, |base|, sink.delivered, bodyOffset, firstLine)
      && Accepted(sink.accepts, sink.delivered)
    }

    ghost predicate Running()
      reads this, sink, scratch, scalarOffset, scalarFlags
    {
      !invalid && !stopped && !finished && Windowed() && Located() && Emitted()
    }

    /** The sink refused the last chunk; what it has is a prefix of the chunks of every
        body that starts with the bytes consumed. */
    ghost predicate Refused()
      reads this, sink
    {
      && sink.delivered != [] && !sink.accepts(sink.delivered)
      && (forall vs: seq<Scalar> | fed <= EncodeAll(vs) :: sink.delivered <= Chunks(vs, bodyOffset, firstLine))
    }

    /** Between calls at most 512 scalars and an incomplete tail are retained. */
    ghost predicate Settled()
      reads this
    {
      |window| <= MAX_SCALARS && (tail == [] || DecodeOne(tail).Incomplete?)
    }

    ghost predicate Valid()
      reads this, sink, scratch, scalarOffset, scalarFlags
    {
      !invalid && !stopped && !finished ==> Running() && Settled()
    }

    constructor (bodyOffset: nat, firstLine: nat, sink: Sink)
      requires bodyOffset <= UINT32_MAX && sink.delivered == []
      ensures Valid() && !invalid && !stopped && !finished && fed == []
      ensures this.bodyOffset == bodyOffset && this.firstLine == firstLine && this.sink == sink
      ensures fresh(scratch) && fresh(scalarOffset) && fresh(scalarFlags)
    {
      this.bodyOffset, this.firstLine, this.sink := bodyOffset, firstLine, sink;
      scratch := new Byte[SCRATCH_SIZE](_ => 0);
      scalarOffset := new nat[INDEX_SIZE](_ => 0);
      scalarFlags := new Flags[INDEX_SIZE](_ => Flags(false, false, false));
      windowStart, windowLength, scanPos, windowLine, scalarCount := 0, 0, 0, firstLine, 0;
      invalid, stopped, finished := false, false, false;
      fed, base, window, tail, segs := [], [], [], [], [];
    }

    method Record(v: Scalar)
      requires Windowed() && scalarCount < INDEX_SIZE
      modifies scalarOffset, scalarFlags
      ensures Indexed(scalarOffset[..], scalarFlags[..], window + [v])
    {
      IndexedSnoc(scalarOffset[..], scalarFlags[..], window, v);
      ghost var was := scalarOffset[..];
      ghost var wasFlags := scalarFlags[..];
      scalarOffset[scalarCount] := scanPos;
      scalarFlags[scalarCount] := Classify(v);
      assert scalarOffset[..] == was[scalarCount := scanPos];
      assert scalarFlags[..] == wasFlags[scalarCount := Classify(v)];
    }

    /** One decoded scalar enters the index. */
    method Push(v: Scalar, width: nat)
      requires Running() && scalarCount < INDEX_SIZE
      requires Encode(v) <= tail && width == |Encode(v)|
      modifies this`scanPos, this`scalarCount, this`window, this`tail, scalarOffset, scalarFlags
      ensures Running() && window == old(window) + [v] && tail == old(tail)[width..]
    {
      Shift(base, window, tail, v);
      ProducedExtends(base, window, v, segs, sink.delivered, bodyOffset, firstLine);
      Record(v);
      scanPos := scanPos + width;
      scalarCount := scalarCount + 1;
      window, tail := window + [v], tail[width..];
    }

    /** The decoding loop of yan_chunk_pump. */
    method DecodeAvailable()
      requires Running()
      modifies this`scanPos, this`scalarCount, this`window, this`tail, this`invalid, scalarOffset, scalarFlags
      ensures !invalid ==> Running() && EncodeAll(window) + tail == old(EncodeAll(window) + tail)
      ensures !invalid ==> |window| == INDEX_SIZE || tail == [] || DecodeOne(tail).Incomplete?
      ensures !invalid ==> |window| >= |old(window)|
      ensures invalid ==> NoBody(fed)
    {
      while scalarCount < INDEX_SIZE && scanPos < windowLength
        invariant Running() && EncodeAll(window) + tail == old(EncodeAll(window) + tail)
        invariant |window| >= |old(window)|
        decreases |tail|
      {
        assert scratch[scanPos..windowLength] == tail by {
          assert scratch[scanPos..windowLength] == scratch[..windowLength][scanPos..];
        }
        var status := DecodeOne(scratch[scanPos..windowLength]);
        if status.Incomplete? {
          break;
        }
        if status.Malformed? {
          MalformedNoBody(base + window, tail);
          invalid := true;
          return;
        }
        DecodeOneSound(tail);
        Shift(base, window, tail, status.value);
        Push(status.value, status.width);
      }
    }

    /** The loop of yan_chunk_emit: blankness and the line feeds before the last scalar. */
    method Inspect(count: nat) returns (white: bool, lfBeforeLast: nat)
      requires Windowed() && 0 < count <= scalarCount
      ensures white == AllWhite(window[..count]) && lfBeforeLast == LineFeeds(window[..count - 1])
    {
      white, lfBeforeLast := true, 0;
      for i := 0 to count
        invariant white == AllWhite(window[..i])
        invariant lfBeforeLast == LineFeeds(window[..if i < count then i else count - 1])
      {
        assert window[..i + 1] == window[..i] + [window[i]];
        assert scalarFlags[..][i] == Classify(window[i]);
        if !scalarFlags[i].white {
          white := false;
          assert window[..i + 1][i] == window[i];
        }
        if i + 1 < count && scalarFlags[i].lf {
          lfBeforeLast := lfBeforeLast + 1;
        }
      }
    }

    /** The record yan_chunk_emit fills for the sink. */
    method Fill(count: nat, endByte: nat, lfBeforeLast: nat) returns (chunk: Chunk)
      requires Windowed() && Located() && 0 < count <= scalarCount && endByte == Offset(window, count)
      requires lfBeforeLast == LineFeeds(window[..count - 1])
      ensures chunk == ChunkOf(base + window, Segment(|base|, |base| + count), bodyOffset, firstLine)
    {
      hide EncodeAll, Encode, LineFeeds, ChunkOf;
      WindowChunk(base, window, count, bodyOffset, firstLine);
      OffsetMonotone(window, count);
      assert scratch[..endByte] == EncodeAll(window[..count]) by {
        assert scratch[..endByte] == scratch[..windowLength][..endByte];
      }
      assert scalarOffset[..][0] == Offset(window, 0);
      assert window[..0] == [];
      var first := scalarOffset[0];
      chunk := Chunk(scratch[first..endByte], count,
                     bodyOffset + windowStart + first, bodyOffset + windowStart + endByte,
                     windowLine, windowLine + lfBeforeLast);
    }

    /** yan_chunk_emit */
    method Emit(count: nat, endByte: nat) returns (r: Result)
      requires Running() && 0 < count <= scalarCount && endByte == Offset(window, count)
      modifies this`stopped, sink
      ensures sink.delivered == old(sink.delivered)
                + Piece(base + window, Segment(|base|, |base| + count), bodyOffset, firstLine)
      ensures r == if stopped then Stopped else Ok
      ensures Windowed() && Located() && fed == EncodeAll(base + window) + tail
      ensures !stopped ==> Accepted(sink.accepts, sink.delivered)
      ensures stopped ==> sink.delivered != [] && !sink.accepts(sink.delivered)
    {
      hide EncodeAll, Encode, LineFeeds, Deliver, Path, ChunkOf;
      WindowChunk(base, window, count, bodyOffset, firstLine);
      var white, lfBeforeLast := Inspect(count);
      if white {
        return Ok;
      }
      var chunk := Fill(count, endByte, lfBeforeLast);
      ghost var was := sink.delivered;
      var keep := sink.Receive(chunk);
      if !keep {
        stopped := true;
        return Stopped;
      }
      AcceptedSnoc(sink.accepts, was, chunk);
      return Ok;
    }

    /** The index shift of yan_chunk_drop_prefix. */
    method ShiftIndex(n: nat, prefix: nat)
      requires scalarOffset.Length == scalarFlags.Length == INDEX_SIZE && scalarCount == |window|
      requires Indexed(scalarOffset[..], scalarFlags[..], window)
      requires 0 < n < scalarCount && prefix == Offset(window, n)
      modifies scalarOffset, scalarFlags
      ensures Indexed(scalarOffset[..], scalarFlags[..], window[n..])
    {
      hide EncodeAll, Encode, Classify, Offset;
      ghost var next := window[n..];
      ghost var was := scalarOffset[..];
      ghost var wasFlags := scalarFlags[..];
      forall k | 0 <= k < |next|
        ensures was[k + n] == Offset(next, k) + prefix && wasFlags[k + n] == Classify(next[k])
      {
        OffsetDrop(window, n, k);
        assert was[n + k] == Offset(window, n + k) && wasFlags[n + k] == Classify(window[n + k]);
      }
      var newCount := scalarCount - n;
      for i := 0 to newCount
        invariant forall k | 0 <= k < i :: scalarOffset[k] == Offset(next, k) && scalarFlags[k] == Classify(next[k])
        invariant forall k | i <= k < INDEX_SIZE :: scalarOffset[k] == was[k] && scalarFlags[k] == wasFlags[k]
      {
        assert was[i + n] == Offset(next, i) + prefix;
        scalarOffset[i] := scalarOffset[i + n] - prefix;
        scalarFlags[i] := scalarFlags[i + n];
      }
    }

    method CountDroppedLines(n: nat)
      requires Windowed() && n <= scalarCount
      modifies this`windowLine
      ensures windowLine == old(windowLine) + LineFeeds(window[..n])
    {
      for i := 0 to n
        invariant windowLine == old(windowLine) + LineFeeds(window[..i])
      {
        assert window[..i + 1][..i] == window[..i];
        assert scalarFlags[..][i] == Classify(window[i]);
        if scalarFlags[i].lf {
          windowLine := windowLine + 1;
        }
      }
    }

    method ShiftBytes(n: nat, prefix: nat)
      requires Windowed() && 0 < n < scalarCount && prefix == Offset(window, n) <= windowLength
      modifies scratch
      ensures scratch[..windowLength - prefix] == EncodeAll(window[n..]) + tail
    {
      hide EncodeAll, Encode, Indexed;
      OffsetMonotone(window, n);
      ghost var was := scratch[..];
      var remaining := windowLength - prefix;
      Memory.MemMove(scratch, 0, 0, prefix, remaining);
      assert scratch[..remaining] == was[prefix..windowLength] == was[..windowLength][prefix..];
      assert was[..windowLength] == EncodeAll(window) + tail;
    }

    /** yan_chunk_drop_prefix: the window starts n scalars later, nothing else changes. */
    method DropPrefix(n: nat)
      requires Windowed() && Located() && 0 < n < scalarCount
      modifies this`windowStart, this`windowLength, this`scanPos, this`windowLine, this`scalarCount,
               this`base, this`window, scratch, scalarOffset, scalarFlags
      ensures Windowed() && Located()
      ensures base == old(base) + old(window)[..n] && window == old(window)[n..]
      ensures base + window == old(base + window)
      ensures windowLength < old(windowLength)
    {
      hide EncodeAll, Encode, LineFeeds;
      assert scalarOffset[..][n] == Offset(window, n);
      var prefix := scalarOffset[n];
      DropFacts(base, window, n);
      CountDroppedLines(n);
      ShiftBytes(n, prefix);
      ShiftIndex(n, prefix);
      base, window := base + window[..n], window[n..];
      scalarCount := scalarCount - n;
      windowStart := windowStart + prefix;
      windowLength := windowLength - prefix;
      scanPos := scanPos - prefix;
    }

    /** The two CRLF decisions of yan_chunk_emit_full. */
    method Cut() returns (endScalar: nat, next: nat)
      requires Windowed() && scalarCount > MAX_SCALARS
      ensures |base| + endScalar == SegmentEnd(base + window, |base|)
      ensures |base| + next == NextStart(base + window, |base|)
      ensures endScalar < scalarCount == |window| && endScalar < INDEX_SIZE
      ensures scalarOffset.Length == INDEX_SIZE && scalarOffset[endScalar] == Offset(window, endScalar)
    {
      hide EncodeAll, Encode;
      ghost var ds := base + window;
      assert ds[|base|..] == window;
      assert forall k | 0 <= k < scalarCount :: scalarFlags[..][k] == Classify(window[k]);
      endScalar := MAX_SCALARS;
      if scalarFlags[endScalar - 1].cr && scalarFlags[endScalar].lf {
        endScalar := endScalar - 1;
      }
      next := endScalar - OVERLAP;
      if next > 0 && scalarFlags[next - 1].cr && scalarFlags[next].lf {
        next := next - 1;
      }
      assert scalarOffset[..][endScalar] == Offset(window, endScalar);
    }

    /** yan_chunk_emit_full: emits the 512-scalar candidate and moves to the next start. */
    method EmitFull() returns (r: Result)
      requires Running() && scalarCount > MAX_SCALARS
      modifies this, sink, scratch, scalarOffset, scalarFlags
      ensures fed == old(fed) && tail == old(tail) && !invalid && !finished
      ensures r == if stopped then Stopped else Ok
      ensures r.Ok? ==> Running() && base + window == old(base + window)
      ensures r.Ok? ==> old(|window|) - 448 <= |window| <= old(|window|) - 446
      ensures r.Ok? ==> windowLength < old(windowLength)
      ensures r.Stopped? ==> Refused()
    {
      hide EncodeAll, Encode, Piece, Chunks, Windowed, Located, Produced, Accepted, SegmentEnd, Offset;
      ghost var ds := base + window;
      ghost var i := |base|;
      var endScalar, next := Cut();
      ProducedStep(ds, segs, i, sink.delivered, bodyOffset, firstLine);
      r := Emit(endScalar, scalarOffset[endScalar]);
      segs := segs + [Segment(i, i + endScalar)];
      if r == Ok {
        DropPrefix(next);
      } else {
        ProducedPrefix(ds, tail, segs, i + next, sink.delivered, bodyOffset, firstLine);
      }
    }

    /** yan_chunk_pump: on success at most 512 scalars and an incomplete tail remain. */
    method Pump() returns (r: Result)
      requires Running()
      modifies this, sink, scratch, scalarOffset, scalarFlags
      ensures fed == old(fed) && !finished
      ensures r != TooLarge
      ensures r.Ok? ==> Running() && Settled()
      ensures r.Invalid? ==> invalid && !stopped && NoBody(fed)
      ensures r.Stopped? ==> stopped && !invalid && Refused()
    {
      hide EncodeAll, Encode, Windowed, Located, Emitted, Chunks;
      while true
        invariant Running() && fed == old(fed)
        decreases windowLength
      {
        DecodeAvailable();
        if invalid {
          return Invalid;
        }
        SizeOfWindow();
        if scalarCount >= MAX_SCALARS + 1 {
          r := EmitFull();
          if r != Ok {
            return;
          }
        } else {
          return Ok;
        }
      }
    }

    lemma SizeOfWindow()
      requires Windowed()
      ensures scalarCount == |window|
    {
    }

    lemma SettledSize()
      requires Windowed() && Settled()
      ensures windowLength <= 4 * MAX_SCALARS + 3
    {
      OffsetMonotone(window, 0);
      if tail != [] { DecodeOneInverts(tail, 0, 1); }
    }

    lemma PositionOfEnd()
      requires Windowed() && Located()
      ensures windowStart + windowLength == |fed|
    {
      EncodeAllConcat(base, window);
    }

    /** The memcpy of yan_chunk_feed_bytes. */
    method Append(piece: seq<Byte>)
      requires Running() && windowLength + |piece| <= SCRATCH_SIZE
      requires bodyOffset + |fed| + |piece| <= UINT32_MAX
      modifies this`windowLength, this`tail, this`fed, scratch
      ensures Running() && fed == old(fed) + piece
    {
      hide EncodeAll, Encode, Produced, Accepted;
      ghost var was := scratch[..windowLength];
      forall i | 0 <= i < |piece| {
        scratch[windowLength + i] := piece[i];
      }
      assert scratch[..windowLength + |piece|] == was + piece;
      windowLength := windowLength + |piece|;
      assert was + piece == EncodeAll(window) + (tail + piece);
      assert fed + piece == EncodeAll(base + window) + (tail + piece);
      tail, fed := tail + piece, fed + piece;
    }

    /** yan_chunk_feed_bytes. Its scratch-full branch is unreachable; TooLarge means only
        that the absolute offsets would leave 32 bits. */
    method FeedBytes(bytes: seq<Byte>) returns (r: Result)
      requires Running() && Settled()
      modifies this, sink, scratch, scalarOffset, scalarFlags
      ensures !finished && old(fed) <= fed <= old(fed) + bytes
      ensures r.Ok? ==> Running() && Settled() && fed == old(fed) + bytes
      ensures r.TooLarge? ==> Running() && Settled() && bodyOffset + |old(fed)| + |bytes| > UINT32_MAX
      ensures r.Invalid? ==> invalid && !stopped && NoBody(fed)
      ensures r.Stopped? ==> stopped && !invalid && Refused()
    {
      hide EncodeAll, Encode, Windowed, Located, Emitted, Chunks, Settled;
      var offset := 0;
      assert bytes[..0] == [];
      while offset < |bytes|
        invariant offset <= |bytes| && Running() && Settled() && fed == old(fed) + bytes[..offset]
      {
        SettledSize();
        PositionOfEnd();
        if windowLength >= SCRATCH_SIZE {
          assert false;
        }
        var room := SCRATCH_SIZE - windowLength;
        var take := |bytes| - offset;
        if take > room {
          take := room;
        }
        if bodyOffset + windowStart + windowLength + take > UINT32_MAX {
          return TooLarge;
        }
        Append(bytes[offset..offset + take]);
        assert bytes[..offset + take] == bytes[..offset] + bytes[offset..offset + take];
        offset := offset + take;
        r := Pump();
        if r != Ok {
          return;
        }
      }
      assert bytes[..offset] == bytes;
      return Ok;
    }

    /** The lifecycle answer that precedes every feed and finish. */
    function Gate(): Result
      reads this
    {
      if invalid then Invalid else if stopped then Stopped else if finished then Invalid else Ok
    }

    /** yan_semantic_chunker_feed */
    method Feed(bytes: seq<Byte>) returns (r: Result)
      requires Valid()
      modifies this, sink, scratch, scalarOffset, scalarFlags
      ensures Valid()
      ensures old(Gate()) != Ok ==> r == old(Gate()) == Gate() && fed == old(fed) && sink.delivered == old(sink.delivered)
      ensures old(Gate()) == Ok ==> old(fed) <= fed <= old(fed) + bytes
      ensures r.Ok? ==> Gate() == Ok && fed == old(fed) + bytes
      ensures r.TooLarge? ==> Gate() == Ok && bodyOffset + |old(fed)| + |bytes| > UINT32_MAX
      ensures old(Gate()) == Ok && r.Invalid? ==> Gate() == Invalid && NoBody(fed)
      ensures old(Gate()) == Ok && r.Stopped? ==> Gate() == Stopped && Refused()
    {
      hide EncodeAll, Chunks, Windowed, Located, Emitted, Settled;
      if invalid {
        return Invalid;
      }
      if stopped {
        return Stopped;
      }
      if finished {
        return Invalid;
      }
      r := FeedBytes(bytes);
    }

    /** Everything was fed, is UTF-8, and was delivered as the reference segmentation says. */
    ghost predicate DeliveredBody()
      reads this, sink
    {
      exists vs: seq<Scalar> :: EncodeAll(vs) == fed && sink.delivered == Chunks(vs, bodyOffset, firstLine)
    }

    /** yan_semantic_chunker_finish: OK says the whole body was UTF-8 and the sink has
        accepted exactly the reference chunks; INVALID says it was not UTF-8. */
    method Finish() returns (r: Result)
      requires Valid()
      modifies this, sink, scratch, scalarOffset, scalarFlags
      ensures Valid() && r != TooLarge && fed == old(fed)
      ensures old(Gate()) != Ok ==> r == old(Gate()) == Gate() && sink.delivered == old(sink.delivered)
      ensures r.Ok? ==> finished && DeliveredBody() && Accepted(sink.accepts, sink.delivered)
      ensures r.Ok? ==> forall k | 0 <= k < |sink.delivered| :: Names(sink.delivered[k], fed, bodyOffset, firstLine)
      ensures old(Gate()) == Ok && r.Invalid? ==> invalid && !ValidUtf8(fed)
      ensures old(Gate()) == Ok && r.Stopped? ==>
                stopped && sink.delivered != [] && !sink.accepts(sink.delivered) &&
                forall vs: seq<Scalar> | EncodeAll(vs) == fed :: sink.delivered <= Chunks(vs, bodyOffset, firstLine)
    {
      hide EncodeAll, Chunks, Windowed, Located, Emitted, Settled, Names;
      if invalid {
        return Invalid;
      }
      if stopped {
        return Stopped;
      }
      if finished {
        return Invalid;
      }
      r := Pump();
      if r == Invalid {
        BadBody();
        finished := true;
      } else if r == Ok {
        r := Flush();
        if r != Stopped {
          finished := true;
          if r == Ok { DeliveredNames(); }
        } else {
          DeliveredUnique();
        }
      }
    }

    lemma BadBody()
      requires NoBody(fed)
      ensures !ValidUtf8(fed)
    {
    }

    /** The end-of-file step of yan_semantic_chunker_finish. */
    method Flush() returns (r: Result)
      requires Running() && Settled()
      modifies this`invalid, this`stopped, sink
      ensures r.Ok? ==> !invalid && !stopped && DeliveredBody() && Accepted(sink.accepts, sink.delivered)
      ensures r.Invalid? ==> invalid && !stopped && !ValidUtf8(fed)
      ensures r.Stopped? ==> stopped && !invalid && sink.delivered != [] && !sink.accepts(sink.delivered) && DeliveredBody()
      ensures r != TooLarge
    {
      hide EncodeAll, Encode, Indexed, Piece, Chunks, Path, Deliver, LineFeeds, Within;
      if scanPos != windowLength {
        TruncatedNoBody(base + window, tail);
        invalid := true;
        return Invalid;
      }
      ghost var vs := base + window;
      assert tail == [] && EncodeAll(vs) == fed;
      DeliveredAll(vs, segs, |base|, bodyOffset, firstLine);
      if scalarCount > 0 {
        assert window[..scalarCount] == window;
        r := Emit(scalarCount, scanPos);
      } else {
        r := Ok;
      }
      assert sink.delivered == Chunks(vs, bodyOffset, firstLine);
    }

    /** What was delivered names the bytes and the lines of the body fed. */
    lemma DeliveredNames()
      requires DeliveredBody()
      ensures forall k | 0 <= k < |sink.delivered| :: Names(sink.delivered[k], fed, bodyOffset, firstLine)
    {
      hide Chunks, Names, EncodeAll;
      var vs: seq<Scalar> :| EncodeAll(vs) == fed && sink.delivered == Chunks(vs, bodyOffset, firstLine);
      ChunksMeaning(vs, bodyOffset, firstLine);
    }

    lemma DeliveredUnique()
      requires DeliveredBody()
      ensures forall vs: seq<Scalar> | EncodeAll(vs) == fed :: sink.delivered == Chunks(vs, bodyOffset, firstLine)
    {
      var ws: seq<Scalar> :| EncodeAll(ws) == fed && sink.delivered == Chunks(ws, bodyOffset, firstLine);
      forall vs: seq<Scalar> | EncodeAll(vs) == fed ensures vs == ws {
        DecodingUnique(vs, ws);
      }
    }
  }
}
