/** os/search_linear.c: literal search over the lines of files, streamed in 4096-byte reads
    with a KMP machine, a pending-CR latch and a pending-new-line latch. */
module SearchLinear {
  import opened Bytes
  import opened Kmp
  import FileSource

  const SCAN_SIZE: nat := 4096
  const PATTERN_MAX: nat := 1023

  /** The content of a line, without its terminator. */
  datatype Line = Line(start: nat, length: nat, number: nat)

  datatype Match = Match(name: seq<Byte>, line: Line)

  datatype Status = Ok | Failed(code: nat)

  // ----- the definition: split at LF or CRLF, keep the lines that contain the pattern

  /** The line from start to the LF at lf, or to the end of the file. */
  function LineAt(file: seq<Byte>, start: nat, number: nat, lf: nat): Line
    requires start <= lf <= |file|
  {
    var crlf := lf < |file| && start < lf && file[lf - 1] == CR;
    Line(start, if crlf then lf - start - 1 else lf - start, number)
  }

  function LinesFrom(file: seq<Byte>, start: nat, number: nat): seq<Line>
    requires start <= |file|
    decreases |file| - start
  {
    if start == |file| then []
    else
      var lf := IndexFrom(file, LF, start);
      [LineAt(file, start, number, lf)] + LinesFrom(file, if lf < |file| then lf + 1 else lf, number + 1)
  }

  predicate InFile(file: seq<Byte>, line: Line) {
    line.start + line.length <= |file|
  }

  function Content(file: seq<Byte>, line: Line): seq<Byte>
    requires InFile(file, line)
  {
    file[line.start..line.start + line.length]
  }

  /** The matches among some lines, in order. */
  ghost function Hits(name: seq<Byte>, file: seq<Byte>, p: seq<Byte>, lines: seq<Line>): seq<Match>
    requires forall k | 0 <= k < |lines| :: InFile(file, lines[k])
  {
    if lines == [] then []
    else
      var last := lines[|lines| - 1];
      Hits(name, file, p, lines[..|lines| - 1])
      + if Occurs(Content(file, last), p) then [Match(name, last)] else []
  }

  lemma {:induction false} LinesInFile(file: seq<Byte>, start: nat, number: nat)
    requires start <= |file|
    ensures forall k | 0 <= k < |LinesFrom(file, start, number)| :: InFile(file, LinesFrom(file, start, number)[k])
    decreases |file| - start
  {
    hide IndexFrom;
    if start < |file| {
      var lf := IndexFrom(file, LF, start);
      if lf < |file| { LinesInFile(file, lf + 1, number + 1); }
    }
  }

  /** What the search must report for one file: nothing when it holds a NUL. */
  ghost function FileHits(name: seq<Byte>, file: seq<Byte>, p: seq<Byte>): seq<Match> {
    LinesInFile(file, 0, 1);
    if 0 in file then [] else Hits(name, file, p, LinesFrom(file, 0, 1))
  }

  /** What stands between the content of a line and `next`, where the following line
      starts: LF, CRLF, or nothing at the end of the file. */
  predicate Terminated(file: seq<Byte>, line: Line, next: nat)
    requires InFile(file, line)
  {
    var end := line.start + line.length;
    || next == end == |file|
    || (next == end + 1 <= |file| && file[end] == LF && (line.length > 0 ==> file[end - 1] != CR))
    || (next == end + 2 <= |file| && file[end] == CR && file[end + 1] == LF)
  }

  predicate NoLf(file: seq<Byte>, from: nat, to: nat)
    requires to <= |file|
  {
    forall k | from <= k < to :: file[k] != LF
  }

  /** The lines fill the file from start on: they follow each other with exactly one
      terminator between, hold no LF and are numbered from number. */
  predicate Fills(file: seq<Byte>, lines: seq<Line>, start: nat, number: nat)
    requires start <= |file|
    decreases lines
  {
    if lines == [] then start == |file|
    else
      var next := if |lines| > 1 then lines[1].start else |file|;
      && lines[0].start == start < |file| && lines[0].number == number
      && InFile(file, lines[0]) && NoLf(file, start, start + lines[0].length)
      && Terminated(file, lines[0], next)
      && next <= |file| && Fills(file, lines[1..], next, number + 1)
  }

  lemma {:induction false} LinesFill(file: seq<Byte>, start: nat, number: nat)
    requires start <= |file|
    ensures Fills(file, LinesFrom(file, start, number), start, number)
    decreases |file| - start
  {
    if start < |file| {
      var next := FirstLine(file, start, number);
      hide LinesFrom;
      LinesFill(file, next, number + 1);
    }
  }

  lemma {:induction false} FirstLine(file: seq<Byte>, start: nat, number: nat) returns (next: nat)
    requires start < |file|
    ensures start < next <= |file|
    ensures var lines := LinesFrom(file, start, number);
            && lines != [] && lines[0].start == start && lines[0].number == number
            && InFile(file, lines[0]) && NoLf(file, start, start + lines[0].length)
            && Terminated(file, lines[0], next)
            && lines[1..] == LinesFrom(file, next, number + 1)
    ensures LinesFrom(file, next, number + 1) == [] ==> next == |file|
    ensures LinesFrom(file, next, number + 1) != [] ==> LinesFrom(file, next, number + 1)[0].start == next
  {
    hide IndexFrom;
    var lf := IndexFrom(file, LF, start);
    next := if lf < |file| then lf + 1 else |file|;
    assert LinesFrom(file, start, number)[1..] == LinesFrom(file, next, number + 1);
  }

  // ----- steps of the scan

  lemma {:induction false} NextLf(file: seq<Byte>, start: nat, lf: nat)
    requires start <= lf <= |file| && NoLf(file, start, lf)
    requires lf < |file| ==> file[lf] == LF
    ensures IndexFrom(file, LF, start) == lf
  {
    hide IndexFrom;
  }

  lemma {:induction false} LineEnds(file: seq<Byte>, start: nat, number: nat, lf: nat)
    requires start <= lf <= |file| && start < |file| && NoLf(file, start, lf)
    requires lf < |file| ==> file[lf] == LF
    ensures LinesFrom(file, start, number)
            == [LineAt(file, start, number, lf)] + LinesFrom(file, if lf < |file| then lf + 1 else lf, number + 1)
  {
    hide IndexFrom, LineAt;
    NextLf(file, start, lf);
  }

  lemma OccursSnoc(t: seq<Byte>, c: Byte, p: seq<Byte>)
    ensures Occurs(t + [c], p) <==> Occurs(t, p) || EndsWith(t + [c], p, |p|)
  {
    var u := t + [c];
    forall e | 0 <= e <= |t| ensures u[..e] == t[..e] {}
    assert u[..|u|] == u;
    if Occurs(u, p) && !EndsWith(u, p, |p|) {
      var e :| 0 <= e <= |u| && EndsWith(u[..e], p, |p|);
      assert e <= |t| && EndsWith(t[..e], p, |p|);
    }
    if Occurs(t, p) {
      var e :| 0 <= e <= |t| && EndsWith(t[..e], p, |p|);
      assert EndsWith(u[..e], p, |p|);
    }
  }

  lemma OccursEmpty(p: seq<Byte>)
    requires p != []
    ensures !Occurs([], p) && Longest([], p, 0, |p|)
  {
  }

  lemma HitsSnoc(name: seq<Byte>, file: seq<Byte>, p: seq<Byte>, lines: seq<Line>, line: Line)
    requires forall k | 0 <= k < |lines| :: InFile(file, lines[k])
    requires InFile(file, line)
    ensures forall k | 0 <= k < |lines + [line]| :: InFile(file, (lines + [line])[k])
    ensures Hits(name, file, p, lines + [line])
            == Hits(name, file, p, lines) + if Occurs(Content(file, line), p) then [Match(name, line)] else []
  {
    var all := lines + [line];
    assert all[..|all| - 1] == lines;
  }

  /** An arbitrary consumer: whether to go on is a function of everything received. */
  class MatchSink {
    const accepts: seq<Match> -> bool
    var delivered: seq<Match>

    constructor (accepts: seq<Match> -> bool)
      ensures delivered == [] && this.accepts == accepts
    {
      this.accepts := accepts;
      delivered := [];
    }

    method Receive(m: Match) returns (keep: bool)
      modifies this
      ensures delivered == old(delivered) + [m] && keep == accepts(delivered)
    {
      delivered := delivered + [m];
      keep := accepts(delivered);
    }
  }

  class LinearSearch {
    const pattern: array<Byte>
    const prefix: array<nat>
    const sink: MatchSink
    var name: seq<Byte>
    var lineNumber: nat
    var lineStart: nat
    var lineContent: nat
    var kmp: nat
    var lineHasMatch: bool
    var pendingCr: bool
    var pendingNewLine: bool

    ghost var current: nat        // where the line being read starts
    ghost var lines: seq<Line>    // the lines already ended

    ghost predicate Ready()
      reads this, pattern, prefix
    {
      && 1 <= pattern.Length <= PATTERN_MAX && pattern.Length <= prefix.Length
      && Table(pattern[..], prefix[..pattern.Length], pattern.Length)
    }

    /** The machine has read exactly the content t of the current line. */
    ghost predicate Matching(t: seq<Byte>)
      reads `kmp, `lineHasMatch, pattern
    {
      && Longest(t, pattern[..], kmp, pattern.Length)
      && (lineHasMatch <==> Occurs(t, pattern[..]))
    }

    ghost predicate Reported(file: seq<Byte>, before: seq<Match>)
      reads this, pattern, sink
    {
      && (forall k | 0 <= k < |lines| :: InFile(file, lines[k]))
      && sink.delivered == before + Hits(name, file, pattern[..], lines)
    }

    /** The scan stands before byte pos of the file. */
    ghost predicate At(file: seq<Byte>, pos: nat)
      reads this, pattern
    {
      && current <= pos <= |file| && NoLf(file, current, pos)
      && LinesFrom(file, 0, 1)
         == lines + LinesFrom(file, current, if pendingNewLine then lineNumber + 1 else lineNumber)
      && if pendingNewLine then current == pos && !pendingCr
         else
           && lineStart == current
           && lineContent == (if pendingCr then pos - 1 else pos) - current
           && (pendingCr ==> current < pos && file[pos - 1] == CR)
           && Matching(file[current..current + lineContent])
    }

    /** No CR before pos is still undecided. */
    ghost predicate Decided(file: seq<Byte>, pos: nat)
      requires pos <= |file|
      reads this
    {
      !pendingCr && current < pos ==> file[pos - 1] != CR
    }

    /** The pattern and table part of linear_run. */
    constructor (pattern: array<Byte>, sink: MatchSink)
      requires 1 <= pattern.Length <= PATTERN_MAX
      ensures Ready() && this.pattern == pattern && this.sink == sink && fresh(prefix)
    {
      this.pattern, this.sink := pattern, sink;
      prefix := new nat[PATTERN_MAX](_ => 0);
      name, lineNumber, lineStart, lineContent, kmp := [], 1, 0, 0, 0;
      lineHasMatch, pendingCr, pendingNewLine := false, false, false;
      current, lines := 0, [];
      new;
      Build(pattern, prefix, 0, pattern.Length);
      assert pattern[0..0 + pattern.Length] == pattern[..];
      assert prefix[0..0 + pattern.Length] == prefix[..pattern.Length];
    }

    /** linear_feed_content */
    method FeedContent(b: Byte, ghost t: seq<Byte>)
      requires Ready() && Matching(t)
      modifies this`lineContent, this`kmp, this`lineHasMatch
      ensures Matching(t + [b]) && lineContent == old(lineContent) + 1
    {
      hide Longest, EndsWith, Occurs;
      lineContent := lineContent + 1;
      assert pattern[0..0 + pattern.Length] == pattern[..];
      assert prefix[0..0 + pattern.Length] == prefix[..pattern.Length];
      ghost var p := pattern[..];
      var q := Advance(pattern, prefix, 0, pattern.Length, kmp, b, t, pattern.Length);
      OccursSnoc(t, b, p);
      FullOrNot(t + [b], p, q);
      if q == pattern.Length {
        lineHasMatch := true;
        assert p[..|p|] == p;
        AfterFull(t + [b], p, prefix[q - 1]);
        q := prefix[q - 1];
      }
      kmp := q;
    }

    /** linear_end_line, for the line the scan has just completed. */
    method EndLine(ghost file: seq<Byte>, ghost before: seq<Match>) returns (stop: bool)
      requires Reported(file, before)
      requires InFile(file, Line(lineStart, lineContent, lineNumber))
      requires lineHasMatch <==> Occurs(file[lineStart..lineStart + lineContent], pattern[..])
      modifies this`lines, this`lineHasMatch, sink
      ensures lines == old(lines) + [Line(lineStart, lineContent, lineNumber)]
      ensures Reported(file, before)
      ensures stop ==> sink.delivered != [] && !sink.accepts(sink.delivered)
    {
      ghost var line := Line(lineStart, lineContent, lineNumber);
      HitsSnoc(name, file, pattern[..], lines, line);
      lines := lines + [line];
      stop := false;
      if lineHasMatch {
        var keep := sink.Receive(Match(name, Line(lineStart, lineContent, lineNumber)));
        lineHasMatch := false;
        stop := !keep;
      }
    }

    /** The line that the LF at pos ends. */
    method TakeLf(ghost file: seq<Byte>, ghost pos: nat, ghost before: seq<Match>) returns (stop: bool)
      requires Reported(file, before) && pos < |file| && file[pos] == LF
      requires current <= pos && NoLf(file, current, pos) && lineStart == current
      requires lineContent == pos - current - if current < pos && file[pos - 1] == CR then 1 else 0
      requires lineHasMatch <==> Occurs(file[current..current + lineContent], pattern[..])
      requires LinesFrom(file, 0, 1) == lines + LinesFrom(file, current, lineNumber)
      requires !pendingCr && !pendingNewLine
      modifies this, sink
      ensures name == old(name)
      ensures Reported(file, before)
      ensures stop ==> Stopped(file)
      ensures !stop ==> At(file, pos + 1) && Decided(file, pos + 1)
    {
      hide LinesFrom, Occurs, Hits, Longest;
      LineEnds(file, current, lineNumber, pos);
      ghost var after := LinesFrom(file, pos + 1, lineNumber + 1);
      ghost var line := Line(lineStart, lineContent, lineNumber);
      assert lines + ([line] + after) == lines + [line] + after;
      stop := EndLine(file, before);
      if !stop {
        pendingNewLine := true;
        current := pos + 1;
      }
    }

    /** The sink has just refused; what it has are matches of the first lines only. */
    ghost predicate Stopped(file: seq<Byte>)
      reads this, sink
    {
      && sink.delivered != [] && !sink.accepts(sink.delivered)
      && lines <= LinesFrom(file, 0, 1)
    }

    /** A CR that no LF followed becomes content. */
    method ResolveCr(ghost file: seq<Byte>, ghost pos: nat)
      requires Ready() && At(file, pos) && pendingCr
      modifies this`pendingCr, this`lineContent, this`kmp, this`lineHasMatch
      ensures At(file, pos) && !pendingCr
    {
      hide LinesFrom, Longest, EndsWith, Occurs, Table;
      ghost var t := file[current..current + lineContent];
      pendingCr := false;
      FeedContent(CR, t);
      assert t + [CR] == file[current..pos];
    }

    /** The line after the last terminator opens with the byte at pos. */
    method OpenLine(ghost file: seq<Byte>, pos: nat)
      requires Ready() && At(file, pos) && pendingNewLine
      modifies this`lineNumber, this`lineStart, this`lineContent, this`kmp, this`lineHasMatch, this`pendingNewLine
      ensures At(file, pos) && !pendingNewLine && current == pos
    {
      hide LinesFrom, Longest, EndsWith, Occurs, Table;
      lineNumber := lineNumber + 1;
      lineStart := pos;
      lineContent := 0;
      kmp := 0;
      lineHasMatch := false;
      pendingNewLine := false;
      OccursEmpty(pattern[..]);
      assert file[pos..pos] == [];
    }

    /** linear_feed_byte */
    method FeedByte(b: Byte, pos: nat, ghost file: seq<Byte>, ghost before: seq<Match>) returns (stop: bool)
      requires Ready() && At(file, pos) && Decided(file, pos) && Reported(file, before)
      requires pos < |file| && file[pos] == b
      modifies this, sink
      ensures Ready() && Reported(file, before) && name == old(name)
      ensures stop ==> Stopped(file)
      ensures !stop ==> At(file, pos + 1) && Decided(file, pos + 1)
    {
      hide LinesFrom, Longest, EndsWith, Occurs, Hits, Table;
      if pendingCr {
        if b == LF {
          pendingCr := false;
          stop := TakeLf(file, pos, before);
          return;
        }
        ResolveCr(file, pos);
      }
      if pendingNewLine {
        OpenLine(file, pos);
      }
      stop := false;
      if b == CR {
        pendingCr := true;
      } else if b == LF {
        stop := TakeLf(file, pos, before);
      } else {
        ContentByte(b, file, pos);
      }
    }

    method ContentByte(b: Byte, ghost file: seq<Byte>, ghost pos: nat)
      requires Ready() && At(file, pos) && !pendingCr && !pendingNewLine
      requires pos < |file| && file[pos] == b && b != LF && b != CR
      modifies this`lineContent, this`kmp, this`lineHasMatch
      ensures At(file, pos + 1) && Decided(file, pos + 1)
    {
      hide LinesFrom, Longest, EndsWith, Occurs, Table;
      ghost var t := file[current..current + lineContent];
      FeedContent(b, t);
      assert t + [b] == file[current..pos + 1];
    }

    /** linear_finish_eof */
    method FinishEof(ghost file: seq<Byte>, ghost before: seq<Match>) returns (stop: bool)
      requires Ready() && At(file, |file|) && Reported(file, before)
      modifies this, sink
      ensures Ready() && name == old(name)
      ensures Reported(file, before)
      ensures stop ==> Stopped(file)
      ensures !stop ==> lines == LinesFrom(file, 0, 1)
    {
      hide Longest, EndsWith, Occurs, Hits, Table, IndexFrom;
      if pendingCr {
        ResolveCr(file, |file|);
      }
      if pendingNewLine || lineContent == 0 {
        return false;
      }
      LineEnds(file, current, lineNumber, |file|);
      assert LinesFrom(file, |file|, lineNumber + 1) == [];
      stop := EndLine(file, before);
    }

    /** linear_preflight: whether the file holds a NUL. */
    method Preflight(file: seq<Byte>) returns (r: Status, hasNul: bool)
      ensures r.Ok? ==> (hasNul <==> 0 in file)
    {
      var offset := 0;
      hasNul := false;
      while true
        invariant offset <= |file| && !hasNul && forall k | 0 <= k < offset :: file[k] != 0
        decreases |file| - offset
      {
        var got := FileSource.Read(file, offset, SCAN_SIZE);
        if got.Failed? {
          return Failed(got.code), false;
        }
        if |got.bytes| == 0 {
          return Ok, false;
        }
        for i := 0 to |got.bytes|
          invariant forall k | 0 <= k < offset + i :: file[k] != 0
        {
          assert got.bytes[i] == file[offset..][i] == file[offset + i];
          if got.bytes[i] == 0 {
            return Ok, true;
          }
        }
        offset := offset + |got.bytes|;
      }
    }

    /** One read's worth of bytes goes through the machine. */
    method FeedChunk(chunk: seq<Byte>, offset: nat, ghost file: seq<Byte>, ghost before: seq<Match>) returns (stop: bool)
      requires offset <= |file| && chunk <= file[offset..]
      requires Ready() && At(file, offset) && Decided(file, offset) && Reported(file, before)
      modifies this, sink
      ensures Ready() && Reported(file, before) && name == old(name)
      ensures stop ==> Stopped(file)
      ensures !stop ==> At(file, offset + |chunk|) && Decided(file, offset + |chunk|)
    {
      hide LinesFrom, Hits, Ready, Reported, At, Decided, Stopped;
      for i := 0 to |chunk|
        invariant offset + i <= |file|
        invariant Ready() && At(file, offset + i) && Decided(file, offset + i) && Reported(file, before)
        invariant name == old(name)
      {
        assert chunk[i] == file[offset..][i] == file[offset + i];
        stop := FeedByte(chunk[i], offset + i, file, before);
        if stop {
          return;
        }
      }
      stop := false;
    }

    /** linear_scan_file: however the filesystem cuts its reads, the sink receives exactly
        the matches of the definition, or a prefix of them when it refuses or a read fails. */
    method ScanFile(file: seq<Byte>, fileName: seq<Byte>) returns (r: Status, stop: bool)
      requires Ready()
      modifies this, sink
      ensures Ready()
      ensures r.Ok? && !stop ==> sink.delivered == old(sink.delivered) + FileHits(fileName, file, pattern[..])
      ensures sink.delivered <= old(sink.delivered) + FileHits(fileName, file, pattern[..])
      ensures stop ==> sink.delivered != [] && !sink.accepts(sink.delivered)
    {
      hide LinesFrom, Hits, Longest, EndsWith, Occurs, Table, FileHits, At, Decided, Reported;
      stop := false;
      EmptyWithNul(fileName, file, pattern[..]);
      var hasNul;
      r, hasNul := Preflight(file);
      if r.Failed? || hasNul {
        return;
      }
      name, lineNumber, lineStart, lineContent, kmp := fileName, 1, 0, 0, 0;
      lineHasMatch, pendingCr, pendingNewLine := false, false, false;
      current, lines := 0, [];
      Begin(file);
      r, stop := ScanText(file);
    }

    method ScanText(file: seq<Byte>) returns (r: Status, stop: bool)
      requires Ready() && At(file, 0) && Decided(file, 0) && Reported(file, sink.delivered) && 0 !in file
      modifies this, sink
      ensures Ready()
      ensures r.Ok? && !stop ==> sink.delivered == old(sink.delivered) + FileHits(old(name), file, pattern[..])
      ensures sink.delivered <= old(sink.delivered) + FileHits(old(name), file, pattern[..])
      ensures stop ==> sink.delivered != [] && !sink.accepts(sink.delivered)
    {
      hide LinesFrom, Hits, At, Decided, Ready;
      ghost var before := sink.delivered;
      r, stop := Stream(file, before);
      Prefix(file);
    }

    lemma Begin(file: seq<Byte>)
      requires Ready() && lineNumber == 1 && lineStart == lineContent == kmp == current == 0 && lines == []
      requires !lineHasMatch && !pendingCr && !pendingNewLine
      ensures At(file, 0) && Decided(file, 0) && Reported(file, sink.delivered)
    {
      OccursEmpty(pattern[..]);
      assert file[0..0] == [];
    }

    lemma Prefix(file: seq<Byte>)
      requires lines <= LinesFrom(file, 0, 1)
      ensures forall k | 0 <= k < |LinesFrom(file, 0, 1)| :: InFile(file, LinesFrom(file, 0, 1)[k])
      ensures Hits(name, file, pattern[..], lines) <= Hits(name, file, pattern[..], LinesFrom(file, 0, 1))
    {
      LinesInFile(file, 0, 1);
      HitsPrefix(name, file, pattern[..], lines, LinesFrom(file, 0, 1));
    }

    /** The read loop of linear_scan_file. */
    method Stream(file: seq<Byte>, ghost before: seq<Match>) returns (r: Status, stop: bool)
      requires Ready() && At(file, 0) && Decided(file, 0) && Reported(file, before)
      modifies this, sink
      ensures Ready() && Reported(file, before) && name == old(name)
      ensures lines <= LinesFrom(file, 0, 1)
      ensures stop ==> sink.delivered != [] && !sink.accepts(sink.delivered)
      ensures r.Ok? && !stop ==> lines == LinesFrom(file, 0, 1)
    {
      hide LinesFrom, Hits, Ready, Reported, Decided;
      var offset := 0;
      stop := false;
      while true
        invariant offset <= |file| && Ready() && At(file, offset) && Decided(file, offset) && Reported(file, before)
        invariant name == old(name)
        decreases |file| - offset
      {
        var got := FileSource.Read(file, offset, SCAN_SIZE);
        if got.Failed? {
          return Failed(got.code), false;
        }
        if |got.bytes| == 0 {
          break;
        }
        stop := FeedChunk(got.bytes, offset, file, before);
        if stop {
          return Ok, true;
        }
        offset := offset + |got.bytes|;
      }
      stop := FinishEof(file, before);
      r := Ok;
    }

    /** linear_run: the files of one listing, in order. */
    method Run(files: seq<(seq<Byte>, seq<Byte>)>) returns (r: Status, stop: bool)
      requires Ready()
      modifies this, sink
      ensures Ready()
      ensures r.Ok? && !stop ==> sink.delivered == old(sink.delivered) + AllHits(files, pattern[..])
      ensures sink.delivered <= old(sink.delivered) + AllHits(files, pattern[..])
    {
      hide FileHits;
      ghost var before := sink.delivered;
      assert files[..0] == [];
      for k := 0 to |files|
        invariant Ready() && sink.delivered == before + AllHits(files[..k], pattern[..])
      {
        assert files[..k + 1][..k] == files[..k];
        AllHitsPrefix(files, k, pattern[..]);
        AllHitsPrefix(files, k + 1, pattern[..]);
        var listed: bool := *;
        if !listed {
          return Failed(0), false;
        }
        r, stop := ScanFile(files[k].1, files[k].0);
        if r.Failed? || stop {
          return;
        }
      }
      assert files[..|files|] == files;
      return Ok, false;
    }
  }

  lemma {:induction false} HitsPrefix(name: seq<Byte>, file: seq<Byte>, p: seq<Byte>, some: seq<Line>, all: seq<Line>)
    requires forall k | 0 <= k < |all| :: InFile(file, all[k])
    requires some <= all
    ensures Hits(name, file, p, some) <= Hits(name, file, p, all)
    decreases all
  {
    hide Occurs;
    if |some| < |all| {
      HitsPrefix(name, file, p, some, all[..|all| - 1]);
    } else {
      assert some == all;
    }
  }

  /** What a query over a directory (name, content) must report. */
  ghost function AllHits(files: seq<(seq<Byte>, seq<Byte>)>, p: seq<Byte>): seq<Match> {
    if files == [] then []
    else
      var last := files[|files| - 1];
      AllHits(files[..|files| - 1], p) + FileHits(last.0, last.1, p)
  }

  lemma {:induction false} AllHitsPrefix(files: seq<(seq<Byte>, seq<Byte>)>, k: nat, p: seq<Byte>)
    requires k <= |files|
    ensures AllHits(files[..k], p) <= AllHits(files, p)
    decreases |files|
  {
    hide FileHits;
    if k < |files| {
      AllHitsPrefix(files[..|files| - 1], k, p);
      assert files[..|files| - 1][..k] == files[..k];
    } else {
      assert files[..k] == files;
    }
  }

  lemma EmptyWithNul(name: seq<Byte>, file: seq<Byte>, p: seq<Byte>)
    ensures 0 in file ==> FileHits(name, file, p) == []
  {
  }
}
