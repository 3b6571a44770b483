/** os/note_blocks_format.c: the streaming parser of block markers and references. Fed in any
    pieces, it must find the table and the references that BlockTable defines on the whole body. */
module BlockParser {
  import opened Bytes
  import opened BlockGrammar
  import opened BlockTable
  import BlockSource

  const PREFIX_MAX: nat := 40

  /** The caller's sink. Its answer is an arbitrary function of what it has received. */
  class ReferenceSink {
    const accepts: seq<Reference> -> bool
    var delivered: seq<Reference>

    constructor (accepts: seq<Reference> -> bool)
      ensures delivered == [] && this.accepts == accepts
    {
      this.accepts := accepts;
      delivered := [];
    }

    method Receive(r: Reference) returns (keep: bool)
      modifies this
      ensures delivered == old(delivered) + [r] && keep == accepts(delivered)
    {
      delivered := delivered + [r];
      keep := accepts(delivered);
    }
  }

  datatype State = Seek | AtOpen | InName | InId | AtClose

  function ShapeIn(state: State, name: seq<Byte>, id: seq<Byte>): Shape {
    match state
    case Seek => Empty
    case AtOpen => Open
    case InName => Name(name)
    case InId => Id(name, id)
    case AtClose => Close(name, id)
  }

  function Head(line: seq<Byte>): seq<Byte> {
    if |line| < PREFIX_MAX then line else line[..PREFIX_MAX]
  }

  // ----- one byte, on values

  lemma SameMarkers(s: seq<Byte>, o: Origin, b: Byte)
    requires b != LF
    ensures Markers(s + [b], o) == Markers(s, o) && LineBegin(s + [b]) == LineBegin(s)
    ensures Count(s + [b], LF) == Count(s, LF) && LastLine(s + [b]) == LastLine(s) + [b]
  {
    assert (s + [b])[..|s|] == s;
  }

  lemma LineFeed(s: seq<Byte>, o: Origin)
    ensures Markers(s + [LF], o) == WithLine(Markers(s, o), s, o, 1)
    ensures LineBegin(s + [LF]) == |s| + 1 && LastLine(s + [LF]) == [] && Count(s + [LF], LF) == Count(s, LF) + 1
  {
    assert (s + [LF])[..|s|] == s;
  }

  /** The reference reported when the byte after s completes n, whose brackets begin at `start`. */
  function Completed(s: seq<Byte>, o: Origin, n: Shape, start: nat): Reference
    requires n.Done?
  {
    var ms := Markers(s, o);
    Reference(n.name, n.id, ms != [], if ms == [] then [] else ms[|ms| - 1].Id(),
              o.line + Count(s, LF), o.offset + start, o.offset + |s| + 1)
  }

  lemma CompletedHere(s: seq<Byte>, o: Origin, shape: Shape, start: nat, b: Byte)
    requires Tracked(s, shape, start) && Next(shape, b).Done?
    ensures EndsReference(s + [b], Next(shape, b).name, Next(shape, b).id)
    ensures ReferenceAt(s + [b], Next(shape, b).name, Next(shape, b).id, o) == Completed(s, o, Next(shape, b), start)
  {
    hide Tracked, Next, EndsReference, Markers, Count, LastLine, LineBegin;
    OnlyClose(shape, b);
    Completes(s, shape, start, b, Next(shape, b).name, Next(shape, b).id);
    SameMarkers(s, o, b);
  }

  /** The byte that completes the tracked candidate adds one reference, any other byte none. */
  lemma ReferenceStep(s: seq<Byte>, o: Origin, shape: Shape, start: nat, b: Byte)
    requires Tracked(s, shape, start)
    ensures !Next(shape, b).Done? ==> References(s + [b], o) == References(s, o)
    ensures Next(shape, b).Done? ==> References(s + [b], o) == References(s, o) + [Completed(s, o, Next(shape, b), start)]
  {
    hide Tracked, Next, EndsReference, ReferenceAt, Completed;
    var t, n := s + [b], Next(shape, b);
    assert t[..|s|] == s;
    forall m, k
      ensures EndsReference(t, m, k) <==> n == Done(m, k)
    {
      Completes(s, shape, start, b, m, k);
    }
    if n.Done? {
      CompletedHere(s, o, shape, start, b);
    }
  }

  lemma OnlyClose(shape: Shape, b: Byte)
    requires Next(shape, b).Done?
    ensures b == CLOSE
  {
  }

  // ----- one line, on values

  /** The 40 retained bytes decide whether the line is reserved and whether it is legal. */
  lemma HeadDecides(line: seq<Byte>)
    ensures var c, h := Strip(line), Head(line);
            && (if |c| < PREFIX_MAX then |c| <= |h| else |h| == PREFIX_MAX)
            && (Reserved(c) <==> |c| >= 6 && h[..6] == MARKER && (|c| > 6 ==> h[6] == SPACE || h[6] == TAB))
            && (|c| >= 7 ==> h[6] == c[6])
            && (7 <= |c| <= 38 ==> h[7..|c|] == c[7..])
            && (LegalMarker(c) ==> 8 <= |c| <= 38)
  {
    hide IdByte;
    var c, h := Strip(line), Head(line);
    if |c| >= 6 { assert h[..6] == c[..6]; }
  }

  lemma TableSnoc(ms: seq<Marker>, m: Marker)
    requires m.line > 0
    ensures |Table(ms)| == |ms|
    ensures Table(ms + [m]) ==
      (if ms == [] then [] else Table(ms)[|ms| - 1 := Closed(ms[|ms| - 1], m.begin, m.line - 1)]) + [Opened(m)]
  {
    hide Closed, Opened;
  }

  lemma TableEntries(ms: seq<Marker>)
    ensures |Table(ms)| == |ms|
    ensures forall k | 0 <= k < |ms| :: Table(ms)[k].id == ms[k].Id()
    ensures ms != [] ==> Table(ms)[|ms| - 1] == Opened(ms[|ms| - 1])
  {
  }

  /** One more marker: its verdict, when all before it are good. */
  lemma JudgeSnoc(ms: seq<Marker>, m: Marker)
    requires Judge(ms) == Ok
    ensures Judge(ms + [m]) ==
      if !LegalMarker(m.content) then Format else if Declared(ms, m.Id()) then Ambiguous
      else if |ms| == BLOCK_MAX then Limit else Ok
  {
    hide LegalMarker, Declared;
    assert (ms + [m])[..|ms|] == ms;
  }

  class Parser {
    const sink: ReferenceSink
    ghost const origin: Origin
    var blocks: seq<Block>
    var result: Result
    var finished: bool
    var offset: nat
    var line: nat
    var lineStart: nat
    var prefix: seq<Byte>
    var lastByte: Byte
    var state: State
    var start: nat
    var name: seq<Byte>
    var id: seq<Byte>
    ghost var fed: seq<Byte>

    ghost predicate Positioned()
      reads `offset, `line, `lineStart, `prefix, `lastByte, `fed
    {
      && offset == origin.offset + |fed| <= UINT32_MAX && origin.line > 0
      && line == origin.line + Count(fed, LF)
      && lineStart == origin.offset + LineBegin(fed)
      && prefix == Head(LastLine(fed))
      && (if fed == [] then lastByte == 0 else lastByte == fed[|fed| - 1])
    }

    /** The candidate fields describe the earliest suffix of s that may still become a reference. */
    ghost predicate Candidate(s: seq<Byte>)
      reads `state, `start, `name, `id
    {
      && (state.InName? ==> id == [])
      && (state != Seek ==> start >= origin.offset)
      && Tracked(s, ShapeIn(state, name, id), if state.Seek? then |s| else start - origin.offset)
    }

    ghost predicate Tabled(s: seq<Byte>)
      reads `blocks
    {
      Judge(Markers(s, origin)) == Ok && blocks == Table(Markers(s, origin))
    }

    ghost predicate Reported(s: seq<Byte>)
      reads sink
    {
      sink.delivered == References(s, origin)
    }

    ghost predicate Valid()
      reads this, sink
    {
      result == Ok ==>
        && Positioned() && Candidate(fed) && Reported(fed)
        && (if finished then Judge(AllMarkers(fed, origin)) == Ok && blocks == Blocks(fed, origin) else Tabled(fed))
    }

    /** yan_block_parser_init */
    constructor (bodyOffset: nat, firstLine: nat, sink: ReferenceSink)
      requires bodyOffset <= UINT32_MAX && 0 < firstLine <= UINT32_MAX && sink.delivered == []
      ensures Valid() && result == Ok && !finished && fed == []
      ensures origin == Origin(bodyOffset, firstLine) && this.sink == sink
    {
      this.sink := sink;
      origin := Origin(bodyOffset, firstLine);
      blocks, result, finished := [], Ok, false;
      offset, line, lineStart, prefix, lastByte := bodyOffset, firstLine, bodyOffset, [], 0;
      state, start, name, id := Seek, 0, [], [];
      fed := [];
      new;
      assert fed[0..] == [];
    }

    /** reference_restart */
    method Restart(b: Byte)
      requires Positioned() && Candidate(fed) && Next(ShapeIn(state, name, id), b).Dead?
      modifies `state, `start, `name, `id
      ensures Candidate(fed + [b])
    {
      hide Tracked, Next;
      ghost var shape, from := ShapeIn(state, name, id), if state.Seek? then |fed| else start - origin.offset;
      if b == OPEN {
        Restarts(fed, shape, from);
      } else {
        AllDead(fed, shape, from, b);
      }
      state := Seek;
      if b != OPEN {
        return;
      }
      start, state := offset, AtOpen;
      if lastByte == OPEN {
        start, state := offset - 1, InName;
      }
      name, id := [], [];
    }

    /** The transitions of reference_byte that keep or drop the candidate. */
    method Advance(b: Byte) returns (done: bool)
      requires Positioned() && Candidate(fed)
      modifies `state, `start, `name, `id
      ensures Candidate(fed + [b])
      ensures done <==> Next(old(ShapeIn(state, name, id)), b).Done?
      ensures done ==> name == old(name) && id == old(id) && start == old(start)
      ensures done ==> Next(old(ShapeIn(state, name, id)), b) == Done(name, id) && old(state).AtClose?
    {
      hide Tracked;
      ghost var shape, from := ShapeIn(state, name, id), if state.Seek? then |fed| else start - origin.offset;
      if Alive(Next(shape, b)) {
        Continues(fed, shape, from, b);
      } else if b != OPEN {
        AllDead(fed, shape, from, b);
      }
      done := false;
      match state {
        case Seek =>
          if b == OPEN {
            start, state := offset, AtOpen;
          }
        case AtOpen =>
          if b == OPEN {
            name, id, state := [], [], InName;
          } else {
            Restart(b);
          }
        case InName =>
          if NameByte(b) && |name| < NAME_MAX {
            name := name + [b];
          } else if b == HASH && NameValid(name) {
            state := InId;
          } else {
            Restart(b);
          }
        case InId =>
          if IdByte(b) && |id| < ID_MAX {
            id := id + [b];
          } else if b == CLOSE && id != [] {
            state := AtClose;
          } else {
            Restart(b);
          }
        case AtClose =>
          if b == CLOSE {
            state := Seek;
            done := true;
          } else {
            Restart(b);
          }
      }
    }

    /** The completed reference goes to the sink. */
    method Deliver(ghost from: nat)
      requires Positioned() && Reported(fed) && Tabled(fed) && result == Ok && start == origin.offset + from
      modifies `result, sink
      ensures result == Ok || result == Stopped ==>
                sink.delivered == old(sink.delivered) + [Completed(fed, origin, Done(name, id), from)]
      ensures result == Stopped ==> !sink.accepts(sink.delivered)
      ensures result == Invalid ==> line > UINT32_MAX && Reported(fed)
      ensures result == Ok || result == Stopped || result == Invalid
    {
      hide Judge, Markers, Reported, Count, LineBegin, LastLine, Head;
      if line > UINT32_MAX {
        result := Invalid;
        return;
      }
      var r := Reference(name, id, blocks != [], if blocks == [] then [] else blocks[|blocks| - 1].id,
                         line, start, offset + 1);
      var keep := sink.Receive(r);
      if !keep {
        result := Stopped;
      }
    }

    /** reference_byte */
    method ReferenceByte(b: Byte)
      requires Positioned() && Candidate(fed) && Reported(fed) && Tabled(fed) && b != LF && result == Ok
      modifies `state, `start, `name, `id, `result, sink
      ensures Candidate(fed + [b])
      ensures result == Ok || result == Stopped ==> Reported(fed + [b])
      ensures result == Stopped ==> sink.delivered != [] && !sink.accepts(sink.delivered)
      ensures result == Invalid ==> line > UINT32_MAX && Reported(fed)
      ensures result == Ok || result == Stopped || result == Invalid
    {
      hide Tracked, Next, Tabled, Positioned, Candidate, Completed;
      ghost var shape, from := ShapeIn(state, name, id), if state.Seek? then |fed| else start - origin.offset;
      CandidateTracked();
      ReferenceStep(fed, origin, shape, from, b);
      var done := Advance(b);
      if done {
        Deliver(from);
      }
    }

    lemma CandidateTracked()
      requires Candidate(fed)
      ensures state != Seek ==> start >= origin.offset
      ensures Tracked(fed, ShapeIn(state, name, id), if state.Seek? then |fed| else start - origin.offset)
    {
    }

    /** close_block */
    method CloseBlock(end: nat, lastLine: nat, ghost ms: seq<Marker>)
      requires result == Ok && blocks == Table(ms)
      modifies `blocks, `result
      ensures result == Ok && ms == [] ==> blocks == old(blocks)
      ensures result == Ok && ms != [] ==>
                |old(blocks)| == |ms| && blocks == old(blocks)[|ms| - 1 := Closed(ms[|ms| - 1], end, lastLine)]
      ensures result == Ok || (result == Invalid && ms != [] && ms[|ms| - 1].after != end)
      ensures result == Invalid ==> ms[|ms| - 1].line + 1 > UINT32_MAX || lastLine > UINT32_MAX
    {
      TableEntries(ms);
      hide Table, Marker.Id;
      if blocks == [] {
        return;
      }
      var block := blocks[|blocks| - 1];
      if block.start != end && (block.markerLine + 1 > UINT32_MAX || lastLine > UINT32_MAX) {
        result := Invalid;
        return;
      }
      block := block.(end := end,
                      firstLine := if block.start == end then 0 else block.markerLine + 1,
                      lastLine := if block.start == end then 0 else lastLine);
      blocks := blocks[|blocks| - 1 := block];
    }

    /** The scan of classify_line for an ID that is declared already. */
    method Known(wanted: seq<Byte>, ghost ms: seq<Marker>) returns (known: bool)
      requires blocks == Table(ms)
      ensures known <==> Declared(ms, wanted)
    {
      TableEntries(ms);
      hide Table, Marker.Id;
      for k := 0 to |blocks|
        invariant forall j | 0 <= j < k :: ms[j].Id() != wanted
      {
        if blocks[k].id == wanted {
          return true;
        }
      }
      return false;
    }

    /** The part of classify_line that enters a new marker into the table. */
    method Declare(length: nat, after: nat, ghost eol: nat)
      requires Positioned() && Tabled(fed) && result == Ok && after == offset + eol
      requires length == |Strip(LastLine(fed))| && Reserved(Strip(LastLine(fed)))
      modifies `blocks, `result
      ensures result == Ok ==> Judge(Markers(fed, origin) + [MarkerHere(fed, origin, eol)]) == Ok
      ensures result == Ok ==> blocks == Table(Markers(fed, origin) + [MarkerHere(fed, origin, eol)])
      ensures result == Format || result == Ambiguous || result == Limit ==>
                Judge(Markers(fed, origin) + [MarkerHere(fed, origin, eol)]) == result
      ensures result == Invalid ==> line > UINT32_MAX
      ensures result != Stopped
    {
      hide Table, Markers, Strip, Placed, Reserved, LineBegin, Judge, Declared, IdValid, Count, LastLine, Head;
      ghost var ms, m := Markers(fed, origin), MarkerHere(fed, origin, eol);
      HeadDecides(LastLine(fed));
      JudgeSnoc(ms, m);
      if length < 8 || length > 38 || prefix[6] != SPACE || !IdValid(prefix[7..length]) {
        result := Format;
        return;
      }
      var id := prefix[7..length];
      assert LegalMarker(m.content) && m.Id() == id;
      var known := Known(id, ms);
      if known {
        result := Ambiguous;
        return;
      }
      TableEntries(ms);
      if |blocks| == BLOCK_MAX {
        result := Limit;
        return;
      }
      if line > UINT32_MAX {
        result := Invalid;
        return;
      }
      MarkersPlaced(fed, origin);
      assert ms != [] ==> Below(fed, origin, ms[|ms| - 1]);
      CloseBlock(lineStart, line - 1, ms);
      assert result == Ok;
      TableSnoc(ms, m);
      blocks := blocks + [Block(id, line, 0, 0, after, after)];
    }

    /** classify_line */
    method ClassifyLine(after: nat, ghost eol: nat)
      requires Positioned() && Tabled(fed) && result == Ok && after == offset + eol
      modifies `blocks, `result
      ensures result == Ok ==> Judge(WithLine(Markers(fed, origin), fed, origin, eol)) == Ok
      ensures result == Ok ==> blocks == Table(WithLine(Markers(fed, origin), fed, origin, eol))
      ensures result == Format || result == Ambiguous || result == Limit ==>
                Judge(WithLine(Markers(fed, origin), fed, origin, eol)) == result
      ensures result == Invalid ==> line > UINT32_MAX
      ensures result != Stopped
    {
      hide Table, Markers, Judge, Count, LineBegin, IdValid, Reserved;
      var length := offset - lineStart;
      assert length == |LastLine(fed)| && (length != 0 ==> lastByte == LastLine(fed)[length - 1]);
      if length != 0 && lastByte == CR {
        length := length - 1;
      }
      assert length == |Strip(LastLine(fed))|;
      HeadDecides(LastLine(fed));
      if length < 6 || prefix[..6] != MARKER || (length > 6 && prefix[6] != SPACE && prefix[6] != TAB) {
        return;
      }
      Declare(length, after, eol);
    }

    ghost predicate Streaming()
      reads this, sink
    {
      result == Ok && !finished && Positioned() && Candidate(fed) && Tabled(fed) && Reported(fed)
    }

    /** What a failed byte or line may leave behind: s is the body up to and including that byte. */
    ghost predicate Refused(s: seq<Byte>)
      reads this, sink
    {
      && sink.delivered <= References(s, origin)
      && (result == Format || result == Ambiguous || result == Limit ==> Judge(Markers(s, origin)) == result)
      && (result == Stopped ==> sink.delivered != [] && !sink.accepts(sink.delivered))
      && (result == Invalid ==> origin.line + Count(s, LF) > UINT32_MAX)
    }

    /** The LF branch of the feed loop. */
    method LineByte()
      requires Streaming() && offset < UINT32_MAX
      modifies `blocks, `result, `offset, `line, `lineStart, `prefix, `lastByte, `state, `fed
      ensures result == Ok ==> Streaming() && fed == old(fed) + [LF]
      ensures result != Ok ==> Refused(old(fed) + [LF])
    {
      hide Table, Markers, Judge, Count, LineBegin, LastLine, Tracked, References, WithLine;
      LineFeed(fed, origin);
      ghost var shape, from := ShapeIn(state, name, id), if state.Seek? then |fed| else start - origin.offset;
      NoneAlive(fed, origin, shape, from);
      ClassifyLine(offset + 1, 1);
      if result != Ok {
        return;
      }
      line := line + 1;
      lineStart := offset + 1;
      prefix := [];
      state := Seek;
      lastByte := LF;
      offset := offset + 1;
      fed := fed + [LF];
    }

    /** The other branch. */
    method ContentByte(b: Byte)
      requires Streaming() && offset < UINT32_MAX && b != LF
      modifies `state, `start, `name, `id, `result, `offset, `prefix, `lastByte, `fed, sink
      ensures result == Ok ==> Streaming() && fed == old(fed) + [b]
      ensures result != Ok ==> Refused(old(fed) + [b])
    {
      hide Table, Markers, Judge, Count, LineBegin, LastLine, Candidate, References;
      SameMarkers(fed, origin, b);
      ReferencesSnoc(fed, b, origin);
      ReferenceByte(b);
      if |prefix| < PREFIX_MAX {
        prefix := prefix + [b];
      }
      lastByte := b;
      offset := offset + 1;
      fed := fed + [b];
    }

    lemma RefusedGrows(n: nat, t: seq<Byte>)
      requires n <= |t| && Refused(t[..n]) && result != Ok
      ensures Refused(t)
    {
      hide References, Markers, Judge, Count;
      ReferencesPrefix(t, n, origin);
      MarkersPrefix(t, n, origin);
      var ms := Markers(t, origin);
      assert ms[..|Markers(t[..n], origin)|] == Markers(t[..n], origin);
      if Judge(Markers(t[..n], origin)) != Ok { JudgePrefix(ms, |Markers(t[..n], origin)|); }
      assert t[..n] + t[n..] == t;
      CountConcat(t[..n], t[n..], LF);
    }

    /** The loop of feed. */
    method Scan(bytes: seq<Byte>)
      requires Streaming() && |bytes| <= UINT32_MAX - offset
      modifies this, sink
      ensures !finished
      ensures result == Ok ==> Streaming() && fed == old(fed) + bytes
      ensures result != Ok ==> Refused(old(fed) + bytes)
    {
      hide Positioned, Candidate, Tabled, Reported, Refused;
      ghost var t := fed + bytes;
      ghost var base := |fed|;
      assert fed == t[..base];
      OffsetOfFed();
      for i := 0 to |bytes|
        invariant Streaming() && fed == t[..base + i] && offset == origin.offset + base + i
        invariant origin.offset + |t| <= UINT32_MAX
      {
        var b := bytes[i];
        assert t[..base + i] + [b] == t[..base + i + 1];
        if b == LF {
          LineByte();
        } else {
          ContentByte(b);
        }
        if result != Ok {
          RefusedGrows(base + i + 1, t);
          return;
        }
        OffsetOfFed();
      }
      assert t[..base + |bytes|] == t;
    }

    /** yan_block_parser_feed */
    method Feed(bytes: seq<Byte>) returns (r: Result)
      requires Valid()
      modifies this, sink
      ensures Valid()
      ensures old(result) != Ok ==> r == old(result) && unchanged(this) && unchanged(sink)
      ensures old(result == Ok && (finished || |bytes| > UINT32_MAX - offset)) ==>
                r == Invalid && unchanged(this) && unchanged(sink)
      ensures old(result == Ok && !finished && |bytes| <= UINT32_MAX - offset) ==> r == result && !finished
      ensures old(result == Ok && !finished && |bytes| <= UINT32_MAX - offset) ==>
                if r == Ok then fed == old(fed) + bytes else Refused(old(fed) + bytes)
    {
      hide Positioned, Candidate, Tabled, Reported, Refused, Blocks, AllMarkers;
      if result != Ok {
        return result;
      }
      if finished || |bytes| > UINT32_MAX - offset {
        return Invalid;
      }
      Scan(bytes);
      r := result;
    }

    lemma Fed()
      requires Valid() && result == Ok
      ensures offset == origin.offset + |fed| <= UINT32_MAX && sink.delivered == References(fed, origin) && origin.line > 0
    {
    }

    /** A refusal met while feeding is the verdict on the whole body. */
    lemma WholeBody(n: nat, t: seq<Byte>)
      requires n <= |t| && Refused(t[..n]) && result != Ok
      ensures Refused(t)
      ensures result != Invalid && result != Stopped ==> result == Judge(AllMarkers(t, origin))
    {
      hide References, Markers, Judge, Count, AllMarkers;
      RefusedGrows(n, t);
      if Judge(Markers(t, origin)) != Ok {
        assert t[..|t|] == t;
        VerdictStays(t, |t|, origin);
      }
    }

    lemma OffsetOfFed()
      requires Positioned()
      ensures offset == origin.offset + |fed| <= UINT32_MAX
    {
    }

    /** The final line and the open block end with the file. */
    method CloseBody()
      requires Streaming()
      modifies `blocks, `result
      ensures result != Stopped && (result != Invalid ==> Judge(AllMarkers(fed, origin)) == result)
      ensures result == Ok ==> blocks == Blocks(fed, origin)
      ensures result == Invalid ==> origin.line + Count(fed, LF) > UINT32_MAX
    {
      hide Candidate, Reported, Table, LastLine, Strip, Reserved, Judge, Markers, Count, Blocks, WithLine;
      var hasFinalLine := offset != lineStart;
      if hasFinalLine {
        ClassifyLine(offset, 0);
      } else {
        NoFinalLine(fed, origin);
      }
      if result == Ok {
        CloseLast(hasFinalLine);
      }
    }

    /** yan_block_parser_finish: after Ok the table and the references are those of the whole body,
        and any other verdict but Invalid is the one the body's markers deserve. */
    method Finish() returns (r: Result)
      requires Valid()
      modifies `blocks, `result, `finished
      ensures Valid()
      ensures old(result) != Ok ==> r == old(result) && unchanged(this)
      ensures old(result) == Ok && old(finished) ==> r == Invalid && unchanged(this)
      ensures old(result == Ok && !finished) ==> r == result && r != Stopped && finished == (r == Ok)
      ensures old(result == Ok && !finished) && r != Invalid ==> Judge(AllMarkers(fed, origin)) == r
      ensures r == Ok ==> blocks == Blocks(fed, origin) && sink.delivered == References(fed, origin)
      ensures r == Ok ==> BlockSource.Found(fed, origin, blocks, sink.delivered)
      ensures old(result == Ok && !finished) && r == Invalid ==> origin.line + Count(fed, LF) > UINT32_MAX
    {
      hide Positioned, Candidate, Tabled, Judge, AllMarkers, Blocks, Count, References, BlockSource.Found;
      if result != Ok {
        return result;
      }
      if finished {
        return Invalid;
      }
      Fed();
      CloseBody();
      if result == Ok {
        BlockSource.ReferencesAreFound(fed, origin);
        finished := true;
      }
      r := result;
    }

    /** The last step of finish: the open block ends with the file. */
    method CloseLast(hasFinalLine: bool)
      requires Positioned() && result == Ok && hasFinalLine == (LineBegin(fed) != |fed|)
      requires blocks == Table(AllMarkers(fed, origin))
      modifies `blocks, `result
      ensures result == Ok || result == Invalid
      ensures result == Ok ==> blocks == Blocks(fed, origin)
      ensures result == Invalid ==> origin.line + Count(fed, LF) > UINT32_MAX
    {
      hide AllMarkers, Count, Table, Closed, Placed, LineAt;
      ghost var ms := AllMarkers(fed, origin);
      AllMarkersPlaced(fed, origin);
      if ms != [] && ms[|ms| - 1].after != offset { LastNonempty(ms[|ms| - 1]); }
      CloseBlock(offset, if hasFinalLine then line else line - 1, ms);
      TableEntries(ms);
    }

    lemma LastNonempty(m: Marker)
      requires Placed(fed, origin, m) && m.after != origin.offset + |fed|
      ensures m.line + 1 <= origin.line + Count(fed, LF)
    {
      hide Count;
      AfterMarker(fed, origin, m);
      var a := m.after - origin.offset;
      assert fed[..a] + fed[a..] == fed;
      CountConcat(fed[..a], fed[a..], LF);
    }
  }

  lemma NoFinalLine(s: seq<Byte>, o: Origin)
    requires LineBegin(s) == |s|
    ensures AllMarkers(s, o) == Markers(s, o)
  {
    hide Markers, LineBegin;
  }

  lemma ReferencesSnoc(s: seq<Byte>, b: Byte, o: Origin)
    ensures References(s, o) <= References(s + [b], o)
  {
    ReferencesPrefix(s + [b], |s|, o);
    assert (s + [b])[..|s|] == s;
  }

  /** A line feed completes no reference and leaves no candidate. */
  lemma NoneAlive(s: seq<Byte>, o: Origin, shape: Shape, start: nat)
    requires Tracked(s, shape, start)
    ensures Tracked(s + [LF], Empty, |s| + 1)
    ensures References(s + [LF], o) == References(s, o)
  {
    hide Tracked, References;
    assert Next(shape, LF).Dead?;
    AllDead(s, shape, start, LF);
    ReferenceStep(s, o, shape, start, LF);
  }

  function Flatten(pieces: seq<seq<Byte>>): seq<Byte> {
    if pieces == [] then [] else Flatten(pieces[..|pieces| - 1]) + pieces[|pieces| - 1]
  }

  lemma {:induction false} FlattenPrefix(pieces: seq<seq<Byte>>, k: nat)
    requires k <= |pieces|
    ensures Flatten(pieces[..k]) <= Flatten(pieces)
  {
    if k < |pieces| {
      assert pieces[..|pieces| - 1][..k] == pieces[..k];
      FlattenPrefix(pieces[..|pieces| - 1], k);
    } else {
      assert pieces[..k] == pieces;
    }
  }

  /** A body fed in any pieces has one outcome: unless the sink stops it or its line numbers pass 32
      bits, the verdict, the table and the references are those of the whole body. */
  method ParseBody(pieces: seq<seq<Byte>>, bodyOffset: nat, firstLine: nat, sink: ReferenceSink)
    returns (p: Parser, r: Result)
    requires bodyOffset + |Flatten(pieces)| <= UINT32_MAX && 0 < firstLine <= UINT32_MAX && sink.delivered == []
    modifies sink
    ensures p.origin == Origin(bodyOffset, firstLine)
    ensures r != Invalid && r != Stopped ==> r == Judge(AllMarkers(Flatten(pieces), p.origin))
    ensures r == Ok ==> p.blocks == Blocks(Flatten(pieces), p.origin)
    ensures r == Ok ==> sink.delivered == References(Flatten(pieces), p.origin)
    ensures r == Ok ==> BlockSource.Found(Flatten(pieces), p.origin, p.blocks, sink.delivered)
    ensures sink.delivered <= References(Flatten(pieces), p.origin)
    ensures r == Stopped ==> sink.delivered != [] && !sink.accepts(sink.delivered)
    ensures r == Invalid ==> firstLine + Count(Flatten(pieces), LF) > UINT32_MAX
  {
    hide Parser.Positioned, Parser.Candidate, Parser.Tabled, Judge, AllMarkers, Blocks, Count, References, BlockSource.Found;
    p := new Parser(bodyOffset, firstLine, sink);
    ghost var s := Flatten(pieces);
    assert pieces[..0] == [];
    for k := 0 to |pieces|
      invariant p.Valid() && p.result == Ok && !p.finished && p.sink == sink
      invariant p.fed == Flatten(pieces[..k]) && p.origin == Origin(bodyOffset, firstLine)
      invariant fresh(p)
    {
      FlattenPrefix(pieces, k + 1);
      assert pieces[..k + 1][..k] == pieces[..k];
      p.Fed();
      ghost var t := p.fed + pieces[k];
      assert t == Flatten(pieces[..k + 1]) <= s;
      r := p.Feed(pieces[k]);
      if r != Ok {
        assert s[..|t|] == t;
        p.WholeBody(|t|, s);
        return;
      }
    }
    assert pieces[..|pieces|] == pieces;
    p.Fed();
    r := p.Finish();
  }
}
