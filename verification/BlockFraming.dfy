/** os/block.c: whole request frames into the guest's ring, whole response frames out of the host's. */
module BlockFraming {
  import opened Bytes
  import opened Ring
  import opened Transport

  const HEADER_SIZE: nat := 16
  const BLOCK_SIZE: nat := 4096
  const OP_READ: Byte := 1
  const OP_WRITE: Byte := 2
  const OP_CAPACITY: Byte := 3
  const STATUS_OK: Byte := 0

  type Half = v: int | 0 <= v < 0x1_0000
  type Word32 = v: int | 0 <= v < 0x1_0000_0000

  datatype Request = Request(op: Byte, flags: Byte, tag: Half, lba: Word32, count: Word32)
  datatype Response = Response(op: Byte, status: Byte, tag: Half, lba: Word32, count: Word32)
  datatype Result = Ok | Again | Invalid | Malformed

  // ----- the wire format

  function Low(v: nat): Byte {
    v % 256
  }

  function Le16(v: Half): seq<Byte> {
    var n: nat := v;
    [Low(n), Low(n / 256)]
  }

  function Le32(v: Word32): seq<Byte> {
    var n: nat := v;
    [Low(n), Low(n / 256), Low(n / 256 / 256), Low(n / 256 / 256 / 256)]
  }

  function Int(b: Byte): nat {
    b
  }

  function LoadLe16(s: seq<Byte>): Half
    requires |s| == 2
  {
    Int(s[0]) + 256 * Int(s[1])
  }

  function LoadLe32(s: seq<Byte>): Word32
    requires |s| == 4
  {
    Int(s[0]) + 256 * Int(s[1]) + 65536 * Int(s[2]) + 16777216 * Int(s[3])
  }

  lemma LittleEndian(v: Word32, h: Half)
    ensures LoadLe32(Le32(v)) == v && LoadLe16(Le16(h)) == h
  {
    var a: nat := v / 256;
    var b := a / 256;
    assert v == 256 * a + Low(v) && a == 256 * b + Low(a) && b == 256 * (b / 256) + Low(b) && b / 256 < 256;
  }

  function EncodeRequest(q: Request): (s: seq<Byte>)
    ensures |s| == HEADER_SIZE
  {
    [q.op, q.flags] + Le16(q.tag) + Le32(q.lba) + Le32(q.count) + Le32(0)
  }

  function DecodeResponse(h: seq<Byte>): Response
    requires |h| == HEADER_SIZE
  {
    Response(h[0], h[1], LoadLe16(h[2..4]), LoadLe32(h[4..8]), LoadLe32(h[8..12]))
  }

  /** The two header layouts are one: reading a request header back as a response gives its fields. */
  lemma HeaderRoundTrip(q: Request)
    ensures DecodeResponse(EncodeRequest(q)) == Response(q.op, q.flags, q.tag, q.lba, q.count)
  {
    hide LoadLe16, LoadLe32;
    var h := EncodeRequest(q);
    assert |Le16(q.tag)| == 2 && |Le32(q.lba)| == 4 && |Le32(q.count)| == 4 && |Le32(0)| == 4;
    hide Le16, Le32;
    assert h[2..4] == Le16(q.tag) && h[4..8] == Le32(q.lba) && h[8..12] == Le32(q.count);
    LittleEndian(q.lba, q.tag);
    LittleEndian(q.count, q.tag);
  }

  /** The number that four bytes from `at` on spell, least significant first. */
  function Read32(s: seq<Byte>, at: nat): int
    requires at + 4 <= |s|
  {
    Int(s[at]) + 256 * Int(s[at + 1]) + 65536 * Int(s[at + 2]) + 16777216 * Int(s[at + 3])
  }

  /** A header names an op, a flag or status byte, a tag at byte 2, a block address at byte 4 and a count at
      byte 8, least significant byte first. */
  predicate Spells(h: seq<Byte>, op: Byte, second: Byte, tag: int, lba: int, count: int) {
    && |h| >= HEADER_SIZE && h[0] == op && h[1] == second && Int(h[2]) + 256 * Int(h[3]) == tag
    && Read32(h, 4) == lba && Read32(h, 8) == count
  }

  /** Byte by byte, what a request header says; its last four bytes are zero. */
  lemma RequestBytes(q: Request)
    ensures Spells(EncodeRequest(q), q.op, q.flags, q.tag, q.lba, q.count)
    ensures forall k | 12 <= k < 16 :: EncodeRequest(q)[k] == 0
  {
    var h, t, l, c, z := EncodeRequest(q), Le16(q.tag), Le32(q.lba), Le32(q.count), Le32(0);
    LittleEndian(q.lba, q.tag);
    LittleEndian(q.count, q.tag);
    assert h[2] == t[0] && h[3] == t[1];
    assert h[4] == l[0] && h[5] == l[1] && h[6] == l[2] && h[7] == l[3];
    assert h[8] == c[0] && h[9] == c[1] && h[10] == c[2] && h[11] == c[3];
    assert h[12] == z[0] && h[13] == z[1] && h[14] == z[2] && h[15] == z[3];
  }

  /** The same reading of a response header gives the fields handed out. */
  lemma ResponseBytes(h: seq<Byte>)
    requires |h| == HEADER_SIZE
    ensures var r := DecodeResponse(h); Spells(h, r.op, r.status, r.tag, r.lba, r.count)
  {
  }

  // ----- requests

  predicate Buildable(q: Request, hasData: bool) {
    && q.flags == 0 && (q.op == OP_READ || q.op == OP_WRITE || q.op == OP_CAPACITY)
    && (q.op == OP_WRITE && q.count != 0 ==> hasData)
  }

  /** What a write sends or a read's response brings back has to fit a ring of this size. */
  predicate FitsRing(q: Request, size: nat) {
    q.op != OP_CAPACITY ==> q.count == 0 || HEADER_SIZE + q.count * BLOCK_SIZE <= size - 1
  }

  function Payload(q: Request): nat {
    if q.op == OP_WRITE then q.count * BLOCK_SIZE else 0
  }

  function Frame(q: Request, data: seq<Byte>): (f: seq<Byte>)
    requires Payload(q) <= |data|
    ensures |f| == HEADER_SIZE + Payload(q)
  {
    EncodeRequest(q) + data[..Payload(q)]
  }

  /** The bytes of a request on the wire: sixteen of header, and the blocks of a write. */
  ghost predicate Requests(f: seq<Byte>, q: Request, data: seq<Byte>) {
    && Spells(f, q.op, q.flags, q.tag, q.lba, q.count) && (forall k | 12 <= k < 16 :: f[k] == 0)
    && |f| == 16 + (if q.op == OP_WRITE then q.count * 4096 else 0)
    && |f| - 16 <= |data| && forall k | 16 <= k < |f| :: f[k] == data[k - 16]
  }

  lemma FrameRequests(q: Request, data: seq<Byte>)
    requires Payload(q) <= |data|
    ensures Requests(Frame(q, data), q, data)
  {
    hide EncodeRequest;
    RequestBytes(q);
    var h, f := EncodeRequest(q), Frame(q, data);
    assert forall k | 0 <= k < 16 :: f[k] == h[k];
  }

  lemma CountBound(count: nat, size: nat)
    requires RingSize(size)
    ensures count <= (size - 1 - HEADER_SIZE) / BLOCK_SIZE <==> count == 0 || HEADER_SIZE + count * BLOCK_SIZE <= size - 1
  {
    var usable: nat := size - 1 - HEADER_SIZE;
    assert usable / BLOCK_SIZE * BLOCK_SIZE <= usable < (usable / BLOCK_SIZE + 1) * BLOCK_SIZE;
  }

  /** yan_os_block_max_count: the largest count whose frame, either way, fits the ring. */
  method MaxCount(ch: Channel) returns (count: nat, ghost ready: bool)
    requires ch.Valid()
    modifies ch`notify, ch`overflow, ch`g2hTail, ch`drained, ch`h2gHead, ch`arrived, ch.ram
    ensures ch.Valid() && ch.sent == old(ch.sent) && ch.taken == old(ch.taken) && ch.bells == old(ch.bells)
    ensures old(ch.drained) <= ch.drained && old(ch.arrived) <= ch.arrived
    ensures !ready ==> count == 0
    ensures ready ==> RingSize(ch.size)
    ensures ready ==> forall n: nat :: n <= count <==> (n == 0 || HEADER_SIZE + n * BLOCK_SIZE <= ch.size - 1)
  {
    var isReady := ch.HostReady();
    ready := isReady;
    if !isReady {
      return 0, ready;
    }
    if ch.size <= HEADER_SIZE + 1 {
      assert false; // a configured ring is larger
    }
    forall n: nat
      ensures n <= (ch.size - 1 - HEADER_SIZE) / BLOCK_SIZE <==> (n == 0 || HEADER_SIZE + n * BLOCK_SIZE <= ch.size - 1)
    {
      CountBound(n, ch.size);
    }
    return (ch.size - 1 - HEADER_SIZE) / BLOCK_SIZE, ready;
  }

  /** The switch of yan_os_block_submit on the op. */
  method PayloadBytes(ch: Channel, q: Request) returns (ok: bool, payload: nat, ghost ready: bool)
    requires ch.Valid() && (q.op == OP_READ || q.op == OP_WRITE || q.op == OP_CAPACITY)
    modifies ch`notify, ch`overflow, ch`g2hTail, ch`drained, ch`h2gHead, ch`arrived, ch.ram
    ensures ch.Valid() && ch.sent == old(ch.sent) && ch.taken == old(ch.taken) && ch.bells == old(ch.bells)
    ensures old(ch.drained) <= ch.drained && old(ch.arrived) <= ch.arrived
    ensures ready ==> ok == FitsRing(q, ch.size)
    ensures ok ==> payload == Payload(q) < WORD32 && FitsRing(q, ch.size)
  {
    payload, ready := 0, true;
    if q.op == OP_READ || q.op == OP_WRITE {
      var most;
      most, ready := MaxCount(ch);
      if q.count > most {
        return false, 0, ready;
      }
      if q.op == OP_WRITE {
        payload := q.count * BLOCK_SIZE;
      }
    }
    return true, payload, ready;
  }

  /** yan_os_block_submit. `ready` tells whether the channel was up at every look. The whole frame is
      appended or nothing is, whatever the host does in between; the second push cannot fail. */
  method Submit(ch: Channel, q: Request, data: seq<Byte>, hasData: bool, address: nat) returns (r: Result, ghost ready: bool)
    requires ch.Valid() && (hasData ==> Payload(q) <= |data|)
    modifies ch`notify, ch`overflow, ch`g2hTail, ch`drained, ch`h2gHead, ch`arrived, ch.ram, ch`g2hHead, ch`sent, ch`bells
    ensures ch.Valid() && r != Malformed
    ensures ch.taken == old(ch.taken) && old(ch.drained) <= ch.drained && old(ch.arrived) <= ch.arrived
    ensures r == Ok ==> Payload(q) <= |data| && ch.sent == old(ch.sent) + Frame(q, data) && ch.bells == old(ch.bells) + 1
    ensures r == Ok ==> Requests(ch.sent[|old(ch.sent)|..], q, data)
    ensures r != Ok ==> ch.sent == old(ch.sent) && ch.bells == old(ch.bells)
    ensures !Buildable(q, hasData) ==> r == Invalid
    ensures ready && Buildable(q, hasData) ==> (r == Invalid <==> !FitsRing(q, ch.size))
    ensures ready && r == Again ==> |old(ch.sent)| - old(ch.drained) + HEADER_SIZE + Payload(q) > ch.size - 1
    ensures r == Ok ==> Buildable(q, hasData) && FitsRing(q, ch.size)
  {
    hide Channel.Valid;
    ready := true;
    if q.flags != 0 || (q.op != OP_READ && q.op != OP_WRITE && q.op != OP_CAPACITY)
       || (q.op == OP_WRITE && q.count != 0 && !hasData) {
      return Invalid, ready;
    }
    var up := ch.HostReady();
    if !up {
      return Again, false;
    }
    var ok, payload;
    ok, payload, ready := PayloadBytes(ch, q);
    if !ok {
      return Invalid, ready;
    }
    var space := ch.G2hSpace();
    if space < HEADER_SIZE + payload {
      return Again, ready;
    }
    assert up;
    SendFrame(ch, q, if payload == 0 then [] else data, address);
    FrameRequests(q, data);
    assert ch.sent[|old(ch.sent)|..] == Frame(q, data);
    ch.Doorbell();
    return Ok, ready;
  }

  /** Both pushes, in the room that was measured. */
  method SendFrame(ch: Channel, q: Request, data: seq<Byte>, address: nat)
    requires ch.Valid() && ch.size > 0 && Payload(q) <= |data|
    requires HEADER_SIZE + Payload(q) <= ch.size - 1 - (|ch.sent| - ch.drained)
    modifies ch`notify, ch`overflow, ch`g2hTail, ch`drained, ch`h2gHead, ch`arrived, ch.ram, ch`g2hHead, ch`sent
    ensures ch.Valid() && ch.sent == old(ch.sent) + Frame(q, data)
    ensures ch.taken == old(ch.taken) && old(ch.drained) <= ch.drained && old(ch.arrived) <= ch.arrived
  {
    hide Channel.Valid, EncodeRequest;
    var payload := Payload(q);
    var header := EncodeRequest(q);
    var pushed := ch.Push(header, 0);
    assert pushed;
    if payload != 0 {
      pushed := ch.Push(data[..payload], address);
      assert pushed;
    }
  }

  // ----- responses

  predicate Known(h: seq<Byte>)
    requires |h| == HEADER_SIZE
  {
    h[0] == OP_READ || h[0] == OP_WRITE || h[0] == OP_CAPACITY
  }

  predicate WellFormed(h: seq<Byte>)
    requires |h| == HEADER_SIZE
  {
    Known(h) && LoadLe32(h[12..16]) == 0
  }

  /** The payload a response header announces; 64 bits wide, so that no product wraps. */
  function Announced(h: seq<Byte>): nat
    requires |h| == HEADER_SIZE
  {
    if h[0] == OP_READ && h[1] == STATUS_OK then LoadLe32(h[8..12]) * BLOCK_SIZE
    else if h[0] == OP_CAPACITY && h[1] == STATUS_OK then 8
    else 0
  }

  /** The bytes a frame takes out of the stream: its header alone when the ring can never hold it. */
  function FrameLength(h: seq<Byte>, size: nat): (n: nat)
    requires |h| == HEADER_SIZE
    ensures n >= HEADER_SIZE
  {
    if HEADER_SIZE + Announced(h) > size - 1 then HEADER_SIZE else HEADER_SIZE + Announced(h)
  }

  function HeaderAt(s: seq<Byte>, at: nat): (h: seq<Byte>)
    requires at + HEADER_SIZE <= |s|
    ensures |h| == HEADER_SIZE
  {
    s[at..at + HEADER_SIZE]
  }

  /** A whole frame stands at `at`. */
  predicate FrameAt(s: seq<Byte>, at: nat, size: nat) {
    at + HEADER_SIZE <= |s| && at + FrameLength(HeaderAt(s, at), size) <= |s|
  }

  predicate Deliverable(h: seq<Byte>, size: nat)
    requires |h| == HEADER_SIZE
  {
    WellFormed(h) && HEADER_SIZE + Announced(h) <= size - 1
  }

  /** A response is delivered exactly for a known op, a zero last word, and a length the ring can hold. */
  lemma DeliverableBytes(h: seq<Byte>, size: nat)
    requires |h| == HEADER_SIZE
    ensures Deliverable(h, size) <==>
              && 1 <= h[0] <= 3 && (forall k | 12 <= k < 16 :: h[k] == 0)
              && 16 + (if h[0] == OP_READ && h[1] == 0 then Read32(h, 8) * 4096
                       else if h[0] == OP_CAPACITY && h[1] == 0 then 8 else 0) < size
  {
    assert LoadLe32(h[12..16]) == Read32(h, 12);
    assert LoadLe32(h[8..12]) == Read32(h, 8);
  }

  predicate Room(h: seq<Byte>, size: nat, capacity: nat, hasData: bool)
    requires |h| == HEADER_SIZE
  {
    HEADER_SIZE + Announced(h) > size - 1 || (Announced(h) <= capacity && (Announced(h) != 0 ==> hasData))
  }

  /** drop_response: in chunks of at most 64 bytes. */
  method DropResponse(ch: Channel, count: nat) returns (ok: bool)
    requires ch.Valid() && ch.size > 0 && count <= |ch.arrived| - ch.taken
    modifies ch`notify, ch`overflow, ch`g2hTail, ch`drained, ch`h2gHead, ch`arrived, ch.ram, ch`h2gTail, ch`taken
    ensures ch.Valid() && ok && ch.taken == old(ch.taken) + count <= |ch.arrived|
    ensures ch.sent == old(ch.sent) && old(ch.drained) <= ch.drained && old(ch.arrived) <= ch.arrived
  {
    hide Channel.Valid;
    var scratch := new Byte[64];
    ok := true;
    var left := count;
    while left > 0
      invariant ch.Valid() && 0 <= left <= count && ch.taken + left == old(ch.taken) + count <= |ch.arrived|
      invariant ch.sent == old(ch.sent) && old(ch.drained) <= ch.drained && old(ch.arrived) <= ch.arrived
      modifies ch`notify, ch`overflow, ch`g2hTail, ch`drained, ch`h2gHead, ch`arrived, ch.ram, ch`h2gTail, ch`taken, scratch
    {
      var chunk := if left < 64 then left else 64;
      label Before:
      ok := ch.Pop(scratch, 0, chunk, 0);
      assert ok && old@Before(ch.arrived) <= ch.arrived;
      left := left - chunk;
    }
  }

  lemma HeaderKept(s: seq<Byte>, t: seq<Byte>, at: nat)
    requires s <= t && at + HEADER_SIZE <= |s|
    ensures HeaderAt(s, at) == HeaderAt(t, at)
  {
  }

  /** The frame is complete and wanted: header first, then the payload into the caller's buffer. */
  method Deliver(ch: Channel, data: array<Byte>, payload: nat, address: nat) returns (r: Result, response: Response)
    requires ch.Valid() && ch.size > 0 && data != ch.ram && payload <= data.Length
    requires HEADER_SIZE + payload <= |ch.arrived| - ch.taken
    modifies ch`notify, ch`overflow, ch`g2hTail, ch`drained, ch`h2gHead, ch`arrived, ch.ram, ch`h2gTail, ch`taken, data
    ensures ch.Valid() && r == Ok && ch.taken == old(ch.taken) + HEADER_SIZE + payload <= |ch.arrived|
    ensures ch.sent == old(ch.sent) && old(ch.drained) <= ch.drained && old(ch.arrived) <= ch.arrived
    ensures response == DecodeResponse(HeaderAt(ch.arrived, old(ch.taken)))
    ensures data[..payload] == ch.arrived[old(ch.taken) + HEADER_SIZE..old(ch.taken) + HEADER_SIZE + payload]
    ensures forall k | payload <= k < data.Length :: data[k] == old(data[k])
  {
    hide Channel.Valid, DecodeResponse;
    var taken := new Byte[HEADER_SIZE];
    var popped := ch.Pop(taken, 0, HEADER_SIZE, 0);
    assert popped && taken[..] == HeaderAt(ch.arrived, old(ch.taken));
    label Header:
    if payload != 0 {
      popped := ch.Pop(data, 0, payload, address);
      assert popped;
      HeaderKept(old@Header(ch.arrived), ch.arrived, old(ch.taken));
    }
    response := DecodeResponse(taken[..]);
    r := Ok;
  }

  /** The look at the header. */
  method PeekHeader(ch: Channel) returns (h: seq<Byte>)
    requires ch.Valid() && ch.size > 0 && HEADER_SIZE <= |ch.arrived| - ch.taken
    modifies ch`notify, ch`overflow, ch`g2hTail, ch`drained, ch`h2gHead, ch`arrived, ch.ram
    ensures ch.Valid() && ch.HostOnly()
    ensures ch.taken + HEADER_SIZE <= |ch.arrived| && h == HeaderAt(ch.arrived, ch.taken)
  {
    hide Channel.Valid;
    var peeked := new Byte[HEADER_SIZE];
    ch.Peek(peeked, HEADER_SIZE);
    h := peeked[..];
  }

  /** A frame left the stream by exactly the length its header implies; it was delivered exactly when
      it was deliverable. */
  ghost predicate Consumed(s: seq<Byte>, from: nat, taken: nat, size: nat, delivered: bool) {
    && FrameAt(s, from, size) && taken == from + FrameLength(HeaderAt(s, from), size) <= |s|
    && (delivered <==> Deliverable(HeaderAt(s, from), size))
  }

  /** The fields are those the sixteen header bytes spell, and the payload is as long as they say: the blocks
      of a successful read, the eight bytes of a successful capacity answer, else nothing. */
  ghost predicate Reports(s: seq<Byte>, from: nat, response: Response, length: nat) {
    && from + HEADER_SIZE <= |s|
    && Spells(s[from..from + HEADER_SIZE], response.op, response.status, response.tag, response.lba, response.count)
    && length == if response.op == OP_READ && response.status == 0 then response.count * 4096
                 else if response.op == OP_CAPACITY && response.status == 0 then 8 else 0
  }

  lemma HandedReports(s: seq<Byte>, from: nat, response: Response, length: nat, data: seq<Byte>, was: seq<Byte>)
    requires Handed(s, from, response, length, data, was)
    ensures Reports(s, from, response, length)
  {
    hide LoadLe16;
    ResponseBytes(HeaderAt(s, from));
  }

  /** The caller got the fields and the payload of the frame at `from`. */
  ghost predicate Handed(s: seq<Byte>, from: nat, response: Response, length: nat, data: seq<Byte>, was: seq<Byte>) {
    && from + HEADER_SIZE + length <= |s| && length <= |data| == |was|
    && length == Announced(HeaderAt(s, from)) && response == DecodeResponse(HeaderAt(s, from))
    && data[..length] == s[from + HEADER_SIZE..from + HEADER_SIZE + length]
    && (forall k | length <= k < |data| :: data[k] == was[k])
  }

  ghost predicate Refused(s: seq<Byte>, from: nat, size: nat, capacity: nat, hasData: bool) {
    FrameAt(s, from, size) && !Room(HeaderAt(s, from), size, capacity, hasData)
  }

  /** What take does once it has seen a header. */
  method TakeFrame(ch: Channel, peeked: seq<Byte>, available: nat, data: array<Byte>, hasData: bool, before: Response, address: nat)
    returns (r: Result, response: Response, length: nat)
    requires ch.Valid() && ch.size > 0 && data != ch.ram && HEADER_SIZE <= available <= |ch.arrived| - ch.taken
    requires |peeked| == HEADER_SIZE && peeked == HeaderAt(ch.arrived, ch.taken)
    modifies ch`notify, ch`overflow, ch`g2hTail, ch`drained, ch`h2gHead, ch`arrived, ch.ram, ch`h2gTail, ch`taken, data
    ensures ch.Valid() && ch.sent == old(ch.sent) && old(ch.drained) <= ch.drained && old(ch.arrived) <= ch.arrived
    ensures r == Again || r == Invalid ==> ch.taken == old(ch.taken)
    ensures r == Again ==> available < FrameLength(peeked, ch.size)
    ensures r == Invalid ==> Refused(ch.arrived, ch.taken, ch.size, data.Length, hasData)
    ensures r != Ok ==> response == before && length == 0 && data[..] == old(data[..])
    ensures r == Ok || r == Malformed ==> Consumed(ch.arrived, old(ch.taken), ch.taken, ch.size, r == Ok)
    ensures r == Ok ==> Handed(ch.arrived, old(ch.taken), response, length, data[..], old(data[..]))
  {
    hide Channel.Valid, DecodeResponse, LoadLe32, Known, Announced;
    response, length := before, 0;
    var payload := Announced(peeked);
    var total := HEADER_SIZE + payload;
    if total > ch.size - 1 {
      var _ := DropResponse(ch, HEADER_SIZE);
      HeaderKept(old(ch.arrived), ch.arrived, old(ch.taken));
      return Malformed, before, 0;
    }
    if available < total {
      return Again, before, 0;
    }
    if payload > data.Length || (payload != 0 && !hasData) {
      return Invalid, before, 0;
    }
    if !WellFormed(peeked) {
      var _ := DropResponse(ch, total);
      HeaderKept(old(ch.arrived), ch.arrived, old(ch.taken));
      return Malformed, before, 0;
    }
    r, response := Deliver(ch, data, payload, address);
    HeaderKept(old(ch.arrived), ch.arrived, old(ch.taken));
    length := payload;
  }

  /** yan_os_block_take. `response` keeps `before` unless a frame is delivered; `ready` tells whether the
      channel was up. Again means that no whole frame had arrived at the call. */
  method Take(ch: Channel, data: array<Byte>, hasData: bool, before: Response, address: nat)
    returns (r: Result, response: Response, length: nat, ghost ready: bool)
    requires ch.Valid() && data != ch.ram
    modifies ch`notify, ch`overflow, ch`g2hTail, ch`drained, ch`h2gHead, ch`arrived, ch.ram, ch`h2gTail, ch`taken, data
    ensures ch.Valid() && ch.sent == old(ch.sent) && old(ch.drained) <= ch.drained && old(ch.arrived) <= ch.arrived
    ensures !ready ==> r == Invalid
    ensures r == Again || r == Invalid ==> ch.taken == old(ch.taken)
    ensures r == Again ==> !FrameAt(old(ch.arrived), old(ch.taken), ch.size)
    ensures r == Invalid && ready ==> Refused(ch.arrived, ch.taken, ch.size, data.Length, hasData)
    ensures r != Ok ==> response == before && length == 0 && data[..] == old(data[..])
    ensures r == Ok || r == Malformed ==> Consumed(ch.arrived, old(ch.taken), ch.taken, ch.size, r == Ok)
    ensures r == Ok ==> Handed(ch.arrived, old(ch.taken), response, length, data[..], old(data[..]))
    ensures r == Ok ==> Reports(ch.arrived, old(ch.taken), response, length)
  {
    hide Channel.Valid, FrameLength, Consumed, Handed, Refused, Reports;
    var up := ch.HostReady();
    ready := up;
    if !up {
      return Invalid, before, 0, ready;
    }
    label Up:
    var available := ch.H2gAvailable();
    assert old(ch.arrived) <= ch.arrived;
    if available < HEADER_SIZE {
      return Again, before, 0, ready;
    }
    var peeked := PeekHeader(ch);
    if |old(ch.arrived)| >= old(ch.taken) + HEADER_SIZE {
      HeaderKept(old(ch.arrived), ch.arrived, old(ch.taken));
    }
    r, response, length := TakeFrame(ch, peeked, available, data, hasData, before, address);
    if r == Ok { HandedReports(ch.arrived, old(ch.taken), response, length, data[..], old(data[..])); }
  }

  // ----- whole streams

  function Concat(frames: seq<seq<Byte>>): seq<Byte> {
    if frames == [] then [] else Concat(frames[..|frames| - 1]) + frames[|frames| - 1]
  }

  predicate IsFrame(f: seq<Byte>, size: nat) {
    |f| >= HEADER_SIZE && |f| == FrameLength(f[..HEADER_SIZE], size)
  }

  lemma {:induction false} ConcatPrefix(frames: seq<seq<Byte>>, k: nat)
    requires k <= |frames|
    ensures Concat(frames[..k]) <= Concat(frames)
    ensures k < |frames| ==> Concat(frames[..k]) + frames[k] <= Concat(frames)
  {
    if k == |frames| {
      assert frames[..k] == frames;
    } else if k + 1 < |frames| {
      ConcatPrefix(frames[..|frames| - 1], k);
      assert frames[..|frames| - 1][..k] == frames[..k];
    }
  }

  /** When the host sends whole frames, every call that consumes anything takes exactly the next frame,
      so the stream stays aligned whatever the verdicts were. */
  lemma FrameByFrame(s: seq<Byte>, frames: seq<seq<Byte>>, k: nat, taken: nat, size: nat, delivered: bool)
    requires k < |frames| && Concat(frames) <= s && forall j | 0 <= j < |frames| :: IsFrame(frames[j], size)
    requires Consumed(s, |Concat(frames[..k])|, taken, size, delivered)
    ensures taken == |Concat(frames[..k + 1])|
    ensures IsFrame(frames[k], size) && HeaderAt(s, |Concat(frames[..k])|) == frames[k][..HEADER_SIZE]
    ensures s[|Concat(frames[..k])|..taken] == frames[k]
  {
    hide FrameLength;
    ConcatPrefix(frames, k);
    var at := |Concat(frames[..k])|;
    assert IsFrame(frames[k], size);
    var t := Concat(frames[..k]) + frames[k];
    assert t <= s && s[at..|t|] == t[at..] == frames[k];
    assert HeaderAt(s, at) == s[at..|t|][..HEADER_SIZE];
    assert frames[..k + 1][..k] == frames[..k];
  }
}
