/** host/block_query.c: reading a block page by page. A page ends at the last place within 64 KiB that
    splits neither a scalar nor a CRLF. */
module BlockPages {
  import opened Bytes
  import opened Utf8
  import opened LegalText

  const PAGE_MAX: nat := 65536
  const PAGE_BUFFER: nat := 65540

  /** A place where text may be cut: not inside a scalar and not between CR and LF. */
  predicate Cut(s: seq<Byte>, k: nat) {
    k <= |s| && (k == 0 || k == |s| || (!Continuation(s[k]) && !(s[k - 1] == CR && s[k] == LF)))
  }

  /** e ends the page that begins at offset: the last cut within reach. */
  predicate PageEnds(s: seq<Byte>, offset: nat, e: nat) {
    && offset < e <= |s| && e <= offset + PAGE_MAX && Cut(s, e)
    && (forall k | e < k <= |s| && k <= offset + PAGE_MAX :: !Cut(s, k))
  }

  predicate StartsWell(s: seq<Byte>, offset: nat)
    requires offset < |s|
  {
    !Continuation(s[offset]) && !(offset > 0 && s[offset - 1] == CR && s[offset] == LF)
  }

  predicate NoCut(s: seq<Byte>, offset: nat) {
    forall k | offset < k <= |s| && k <= offset + PAGE_MAX :: !Cut(s, k)
  }

  // ----- cuts of legal text

  /** The scalar that holds byte p. */
  lemma {:induction false} Covering(vs: seq<Scalar>, p: nat) returns (j: nat)
    requires p < |EncodeAll(vs)|
    ensures j < |vs| && |EncodeAll(vs[..j])| <= p < |EncodeAll(vs[..j])| + |Encode(vs[j])|
    ensures EncodeAll(vs) == EncodeAll(vs[..j]) + Encode(vs[j]) + EncodeAll(vs[j + 1..])
  {
    hide Encode;
    var n := |Encode(vs[0])|;
    if p < n {
      j := 0;
      assert vs[..0] == [] && EncodeAll(vs[..0]) == [];
    } else {
      var i := Covering(vs[1..], p - n);
      j := i + 1;
      assert vs[..j] == [vs[0]] + vs[1..][..i] && vs[..j][1..] == vs[1..][..i];
      assert vs[j + 1..] == vs[1..][i + 1..];
      assert EncodeAll(vs[..j]) == Encode(vs[0]) + EncodeAll(vs[1..][..i]);
    }
  }

  /** At most three continuation bytes stand in a row, behind a lead byte. */
  lemma LeadBefore(s: seq<Byte>, p: nat) returns (d: nat)
    requires Legal(s) && p < |s| && Continuation(s[p])
    ensures 1 <= d <= 3 && d <= p && s[p - d] >= 0xC2 && forall k | p - d < k <= p :: Continuation(s[k])
  {
    hide Encode;
    var vs: seq<Scalar> :| EncodeAll(vs) == s && LegalScalars(vs);
    var j := Covering(vs, p);
    var b, e := |EncodeAll(vs[..j])|, Encode(vs[j]);
    assert forall i | 0 <= i < |e| :: s[b + i] == e[i];
    EncodeShape(vs[j]);
    d := p - b;
    assert s[b] == e[0];
    assert forall k | b < k <= p :: s[k] == e[k - b];
  }

  lemma InsideContinues(v: Scalar, i: nat)
    requires 0 < i < |Encode(v)|
    ensures Continuation(Encode(v)[i])
  {
    EncodeShape(v);
  }

  /** Cutting legal text at a cut leaves legal text on both sides. */
  lemma CutLegal(s: seq<Byte>, k: nat)
    requires Legal(s) && Cut(s, k)
    ensures Legal(s[..k]) && Legal(s[k..])
  {
    hide Encode;
    var vs: seq<Scalar> :| EncodeAll(vs) == s && LegalScalars(vs);
    if k == |s| {
      assert s[..k] == s && s[k..] == [];
      assert EncodeAll([]) == [] && LegalScalars([]);
    } else {
      var j := Covering(vs, k);
      var b, e := |EncodeAll(vs[..j])|, Encode(vs[j]);
      assert s[k] == e[k - b];
      if k > b { InsideContinues(vs[j], k - b); }
      EncodeAllConcat(vs[..j], vs[j..]);
      assert vs[..j] + vs[j..] == vs;
      assert EncodeAll(vs[..j]) == s[..k] && EncodeAll(vs[j..]) == s[k..];
      if j > 0 && vs[j - 1] == CR { CrLfBytes(vs, j); }
      CutScalars(vs, j);
    }
  }

  lemma CrLfBytes(vs: seq<Scalar>, j: nat)
    requires LegalScalars(vs) && 0 < j < |vs| && vs[j - 1] == CR
    ensures var b := |EncodeAll(vs[..j])|;
            0 < b < |EncodeAll(vs)| && EncodeAll(vs)[b - 1] == CR && EncodeAll(vs)[b] == LF
  {
    hide Encode, EncodeAll;
    EncodeAllAscii(CR);
    EncodeAllAscii(LF);
    assert vs[j] == LF;
    assert vs[..j] == vs[..j - 1] + [vs[j - 1]] && vs[j..] == [vs[j]] + vs[j + 1..] && vs == vs[..j] + vs[j..];
    EncodeAllSnoc(vs[..j - 1], vs[j - 1]);
    EncodeAllConcat(vs[..j], vs[j..]);
    EncodeAllConcat([vs[j]], vs[j + 1..]);
    EncodeAllSnoc([], vs[j]);
    NothingEncoded(vs[j]);
  }

  lemma NothingEncoded(v: Scalar)
    ensures EncodeAll([]) == [] && [] + [v] == [v]
  {
  }

  lemma CutScalars(vs: seq<Scalar>, j: nat)
    requires LegalScalars(vs) && j < |vs| && (j > 0 ==> vs[j - 1] != CR)
    ensures LegalScalars(vs[..j]) && LegalScalars(vs[j..])
  {
    hide Allowed;
    var a, b := vs[..j], vs[j..];
    forall i | 0 <= i < |a|
      ensures Allowed(a[i]) && (a[i] == CR && i + 1 < |a| ==> a[i + 1] == LF)
    {
      assert a[i] == vs[i];
    }
    forall i | 0 <= i < |b|
      ensures Allowed(b[i]) && (b[i] == CR && i + 1 < |b| ==> b[i + 1] == LF)
    {
      assert b[i] == vs[j + i] && (i + 1 < |b| ==> b[i + 1] == vs[j + i + 1]);
    }
    assert b[|b| - 1] == vs[|vs| - 1];
  }

  /** Every page of legal text that is not the last fills the limit up to three bytes. */
  lemma PageIsFull(s: seq<Byte>, offset: nat, e: nat)
    requires Legal(s) && PageEnds(s, offset, e) && e < |s|
    ensures e >= offset + PAGE_MAX - 3
  {
    var p := offset + PAGE_MAX;
    if p < |s| {
      if Continuation(s[p]) {
        var d := LeadBefore(s, p);
        assert Cut(s, p - d);
      } else if s[p - 1] == CR && s[p] == LF {
        assert Cut(s, p - 1);
      } else {
        assert Cut(s, p);
      }
    } else {
      assert Cut(s, |s|);
    }
  }

  // ----- one page

  datatype Result = Ok | Invalid | Protocol

  datatype Page = Page(start: nat, end: nat, text: seq<Byte>, firstLine: nat, lastLine: nat, complete: bool, next: nat)

  /** The page of block text s from `offset` on: its end is the last cut within reach, its lines are those
      of its first and last byte, and `next` is where the following page begins. */
  predicate RightPage(s: seq<Byte>, start: nat, firstLine: nat, offset: nat, p: Page) {
    && offset <= |s| && p.start == start + offset
    && if offset == |s| then p == Page(start + offset, start + offset, [], 0, 0, true, 0)
       else
         && offset < p.end - start && p.end >= start && PageEnds(s, offset, p.end - start)
         && p.text == s[offset..p.end - start]
         && p.firstLine == firstLine + Count(s[..offset], LF)
         && p.lastLine == firstLine + Count(s[..p.end - start - 1], LF)
         && p.complete == (p.end == start + |s|) && p.next == if p.complete then 0 else p.end - start
  }

  predicate Right(s: seq<Byte>, start: nat, firstLine: nat, p: Page) {
    p.start >= start && RightPage(s, start, firstLine, p.start - start, p)
  }

  lemma CountNext(s: seq<Byte>, i: nat)
    requires i < |s|
    ensures Count(s[..i + 1], LF) == Count(s[..i], LF) + (if s[i] == LF then 1 else 0)
  {
    assert s[..i + 1][..i] == s[..i];
  }

  class ReadState {
    const page: array<Byte>
    // The block the stream shows, and where the requested page begins in it.
    const start: nat
    const firstLine: nat
    const blockLength: nat
    const offset: nat
    var lfBefore: nat
    var collected: nat
    var previous: Byte
    var havePrevious: bool

    /** The first `seen` bytes of the block have been streamed. */
    ghost predicate Seen(s: seq<Byte>, seen: nat)
      reads this, page
    {
      && page.Length == PAGE_BUFFER && seen <= |s| == blockLength && offset <= |s|
      && lfBefore == Count(s[..if seen < offset then seen else offset], LF)
      && collected == (if seen <= offset then 0 else if seen - offset < PAGE_BUFFER then seen - offset else PAGE_BUFFER)
      && (forall k | 0 <= k < collected :: page[k] == s[offset + k])
      && havePrevious == (0 < offset <= seen) && (havePrevious ==> previous == s[offset - 1])
    }

    /** read_row */
    constructor (offset: nat, start: nat, firstLine: nat, blockLength: nat, ghost s: seq<Byte>)
      requires offset <= |s| == blockLength
      ensures Seen(s, 0) && this.offset == offset && this.start == start && this.firstLine == firstLine && fresh(page)
    {
      page := new Byte[PAGE_BUFFER];
      this.start, this.firstLine, this.offset, this.blockLength := start, firstLine, offset, blockLength;
      lfBefore, collected, previous, havePrevious := 0, 0, 0, false;
      new;
      assert s[..0] == [];
    }

    /** read_chunk: the next bytes of the stream, in any cut. */
    method ReadChunk(at: nat, bytes: seq<Byte>, ghost s: seq<Byte>)
      requires Seen(s, at) && at + |bytes| <= |s| && bytes == s[at..at + |bytes|]
      modifies `lfBefore, `collected, `previous, `havePrevious, page
      ensures Seen(s, at + |bytes|)
    {
      var end := at + |bytes|;
      if at < offset {
        CountBefore(at, bytes, s);
      }
      var wantedEnd := offset + PAGE_BUFFER;
      if end > offset && at < wantedEnd {
        var from := if at > offset then at else offset;
        var to := if end < wantedEnd then end else wantedEnd;
        for i := from to to
          invariant forall k | 0 <= k < i - offset :: page[k] == s[offset + k]
          invariant lfBefore == old(lfBefore) || at < offset
          modifies page
        {
          page[i - offset] := bytes[i - at];
        }
        var used := to - offset;
        if used > collected {
          collected := used;
        }
      }
    }

    /** The LFs before the page, and the byte just before it. */
    method CountBefore(at: nat, bytes: seq<Byte>, ghost s: seq<Byte>)
      requires at < offset <= |s| && at + |bytes| <= |s| && bytes == s[at..at + |bytes|]
      requires lfBefore == Count(s[..at], LF) && !havePrevious
      modifies `lfBefore, `previous, `havePrevious
      ensures lfBefore == Count(s[..if at + |bytes| < offset then at + |bytes| else offset], LF)
      ensures havePrevious == (offset <= at + |bytes|) && (havePrevious ==> previous == s[offset - 1])
    {
      hide Count;
      var end := at + |bytes|;
      var stop := if end < offset then end else offset;
      for i := at to stop
        invariant lfBefore == Count(s[..i], LF) && !havePrevious
      {
        CountNext(s, i);
        if bytes[i - at] == LF {
          lfBefore := lfBefore + 1;
        }
      }
      if stop == offset {
        previous := bytes[stop - 1 - at];
        havePrevious := true;
      }
    }

    /** The end of the page: back to the lead byte, and off a CR that its LF follows. */
    method FindEnd(ghost s: seq<Byte>) returns (length: nat)
      requires Seen(s, |s|) && offset < |s|
      ensures length <= PAGE_MAX && length <= collected
      ensures length > 0 ==> PageEnds(s, offset, offset + length)
      ensures length == 0 ==> NoCut(s, offset)
    {
      var remaining := blockLength - offset;
      length := if remaining > PAGE_MAX then PAGE_MAX else remaining;
      if length < remaining {
        while length > 0 && Continuation(page[length])
          invariant length <= PAGE_MAX
          invariant forall k | offset + length < k <= offset + PAGE_MAX :: Continuation(s[k])
        {
          length := length - 1;
        }
        if length > 0 && page[length - 1] == CR && page[length] == LF {
          length := length - 1;
        }
      }
    }

    /** prepare_read: a start inside a scalar or between CR and LF is refused, and so is text with no cut
        within reach, which legal text never is. */
    method PrepareRead(ghost s: seq<Byte>) returns (r: Result, p: Page)
      requires Seen(s, |s|)
      ensures r == Ok ==> RightPage(s, start, firstLine, offset, p)
      ensures r != Protocol
      ensures r == Invalid <==> offset < |s| && (!StartsWell(s, offset) || NoCut(s, offset))
    {
      hide Count, Cut, PageEnds;
      p := Page(start + offset, start + offset, [], 0, 0, true, 0);
      if offset == blockLength {
        return Ok, p;
      }
      var remaining := blockLength - offset;
      if collected == 0 || collected < (if remaining < PAGE_MAX + 1 then remaining else PAGE_MAX + 1) {
        assert false;
      }
      if Continuation(page[0]) {
        return Invalid, p;
      }
      if offset > 0 && havePrevious && previous == CR && page[0] == LF {
        return Invalid, p;
      }
      var length := FindEnd(s);
      if length == 0 {
        return Invalid, p;
      }
      var pageEnd := start + offset + length;
      var lastLine := LastLine(length, s);
      assert page[..length] == s[offset..offset + length];
      var complete := pageEnd == start + blockLength;
      p := Page(start + offset, pageEnd, page[..length], firstLine + lfBefore, lastLine, complete,
                if complete then 0 else pageEnd - start);
      r := Ok;
    }

    method LastLine(length: nat, ghost s: seq<Byte>) returns (lastLine: nat)
      requires Seen(s, |s|) && 0 < length <= collected
      ensures lastLine == firstLine + Count(s[..offset + length - 1], LF)
    {
      hide Count;
      lastLine := firstLine + lfBefore;
      for i := 0 to length - 1
        invariant lastLine == firstLine + Count(s[..offset + i], LF)
      {
        CountNext(s, offset + i);
        if page[i] == LF {
          lastLine := lastLine + 1;
        }
      }
    }
  }

  /** Legal text can be read from every cut. */
  lemma LegalReads(s: seq<Byte>, offset: nat)
    requires Legal(s) && offset < |s| && Cut(s, offset)
    ensures StartsWell(s, offset) && !NoCut(s, offset)
  {
    if offset == 0 && Continuation(s[0]) {
      var d := LeadBefore(s, 0);
    }
    var p := offset + PAGE_MAX;
    if p >= |s| {
      assert Cut(s, |s|);
    } else if Continuation(s[p]) {
      var d := LeadBefore(s, p);
      assert Cut(s, p - d);
    } else if s[p - 1] == CR && s[p] == LF {
      assert Cut(s, p - 1);
    } else {
      assert Cut(s, p);
    }
  }

  /** yan_block_query_read: the block is streamed in pieces of any size, then the page is cut. */
  method ReadPage(s: seq<Byte>, start: nat, firstLine: nat, offset: nat) returns (r: Result, p: Page)
    ensures r == Ok ==> RightPage(s, start, firstLine, offset, p)
    ensures r != Protocol
    ensures r == Invalid <==> offset > |s| || (offset < |s| && (!StartsWell(s, offset) || NoCut(s, offset)))
  {
    if offset > |s| {
      return Invalid, Page(0, 0, [], 0, 0, true, 0);
    }
    var state := new ReadState(offset, start, firstLine, |s|, s);
    var at: nat := 0;
    while at < |s|
      invariant at <= |s| && state.Seen(s, at) && fresh(state) && fresh(state.page)
      invariant state.offset == offset && state.start == start && state.firstLine == firstLine
    {
      var piece: nat := *;
      var amount := if 0 < piece <= |s| - at then piece else |s| - at;
      state.ReadChunk(at, s[at..at + amount], s);
      at := at + amount;
    }
    r, p := state.PrepareRead(s);
  }

  /** Following `next` from 0 always succeeds, ends, and the pages spell the block. Each page is legal text
      by itself, and each but the last is full up to three bytes. */
  method ReadAll(s: seq<Byte>, start: nat, firstLine: nat) returns (pages: seq<Page>)
    requires Legal(s)
    ensures Spelled(pages) == s
    ensures forall k | 0 <= k < |pages| :: |pages[k].text| <= PAGE_MAX && Legal(pages[k].text)
    ensures forall k | 0 <= k < |pages| - 1 :: |pages[k].text| >= PAGE_MAX - 3
    ensures forall k | 0 <= k < |pages| :: Right(s, start, firstLine, pages[k])
  {
    hide Legal, Cut, RightPage, PageEnds, Spelled;
    pages := [];
    var offset := 0;
    Started(s);
    while true
      invariant offset <= |s| && Cut(s, offset) && Spelled(pages) == s[..offset] && (offset == |s| ==> s == [])
      invariant forall k | 0 <= k < |pages| :: |pages[k].text| <= PAGE_MAX && Legal(pages[k].text)
      invariant forall k | 0 <= k < |pages| :: |pages[k].text| >= PAGE_MAX - 3
      invariant forall k | 0 <= k < |pages| :: Right(s, start, firstLine, pages[k])
      decreases |s| - offset
    {
      if offset < |s| { LegalReads(s, offset); }
      var r, p := ReadPage(s, start, firstLine, offset);
      PageFacts(s, start, firstLine, offset, p);
      SpelledSnoc(pages, p);
      pages := pages + [p];
      if p.complete {
        return;
      }
      offset := p.next;
    }
  }

  function Spelled(pages: seq<Page>): seq<Byte> {
    if pages == [] then [] else Spelled(pages[..|pages| - 1]) + pages[|pages| - 1].text
  }

  lemma SpelledSnoc(pages: seq<Page>, p: Page)
    ensures Spelled(pages + [p]) == Spelled(pages) + p.text
  {
    assert (pages + [p])[..|pages|] == pages;
  }

  lemma Started(s: seq<Byte>)
    ensures Cut(s, 0) && Spelled([]) == s[..0]
  {
  }

  lemma PageFacts(s: seq<Byte>, start: nat, firstLine: nat, offset: nat, p: Page)
    requires Legal(s) && offset <= |s| && Cut(s, offset) && (offset == |s| ==> s == [])
    requires RightPage(s, start, firstLine, offset, p)
    ensures p.start == start + offset && Legal(p.text) && |p.text| <= PAGE_MAX
    ensures p.complete ==> s[..offset] + p.text == s
    ensures !p.complete ==> offset < p.next < |s| && Cut(s, p.next) && s[..offset] + p.text == s[..p.next]
    ensures !p.complete ==> |p.text| >= PAGE_MAX - 3
  {
    hide Legal;
    if offset < |s| {
      var e := p.end - start;
      CutLegal(s, e);
      CutWithin(s, e, offset);
      CutLegal(s[..e], offset);
      assert s[..e][offset..] == p.text;
      if e < |s| { PageIsFull(s, offset, e); }
    } else {
      assert p.text == [] == s;
    }
  }

  lemma CutWithin(s: seq<Byte>, e: nat, k: nat)
    requires k <= e <= |s| && Cut(s, k)
    ensures Cut(s[..e], k)
  {
  }
}
