/** host/semantic_sha256.c: streaming SHA-256 against sections 5.1.1, 5.3.3 and 6.2 of FIPS 180-4. */
module Sha256 {
  type Octet = bv8
  type Word = bv32

  const BLOCK: nat := 64
  const MAX_BYTES: nat := 0x1FFF_FFFF_FFFF_FFFF

  /** The round constants, eight in a row. */
  const K0: seq<Word> := [0x428a2f98, 0x71374491, 0xb5c0fbcf, 0xe9b5dba5, 0x3956c25b, 0x59f111f1, 0x923f82a4, 0xab1c5ed5]
  const K1: seq<Word> := [0xd807aa98, 0x12835b01, 0x243185be, 0x550c7dc3, 0x72be5d74, 0x80deb1fe, 0x9bdc06a7, 0xc19bf174]
  const K2: seq<Word> := [0xe49b69c1, 0xefbe4786, 0x0fc19dc6, 0x240ca1cc, 0x2de92c6f, 0x4a7484aa, 0x5cb0a9dc, 0x76f988da]
  const K3: seq<Word> := [0x983e5152, 0xa831c66d, 0xb00327c8, 0xbf597fc7, 0xc6e00bf3, 0xd5a79147, 0x06ca6351, 0x14292967]
  const K4: seq<Word> := [0x27b70a85, 0x2e1b2138, 0x4d2c6dfc, 0x53380d13, 0x650a7354, 0x766a0abb, 0x81c2c92e, 0x92722c85]
  const K5: seq<Word> := [0xa2bfe8a1, 0xa81a664b, 0xc24b8b70, 0xc76c51a3, 0xd192e819, 0xd6990624, 0xf40e3585, 0x106aa070]
  const K6: seq<Word> := [0x19a4c116, 0x1e376c08, 0x2748774c, 0x34b0bcb5, 0x391c0cb3, 0x4ed8aa4a, 0x5b9cca4f, 0x682e6ff3]
  const K7: seq<Word> := [0x748f82ee, 0x78a5636f, 0x84c87814, 0x8cc70208, 0x90befffa, 0xa4506ceb, 0xbef9a3f7, 0xc67178f2]
  const K: seq<Word> := K0 + K1 + K2 + K3 + K4 + K5 + K6 + K7

  const H0: seq<Word> := [
    0x6a09e667, 0xbb67ae85, 0x3c6ef372, 0xa54ff53a, 0x510e527f, 0x9b05688c, 0x1f83d9ab, 0x5be0cd19]

  // ----- the standard's functions (section 4.1.2)

  function Rotr(x: Word, n: nat): Word
    requires 0 < n < 32
  {
    (x >> n) | (x << (32 - n))
  }

  function Ch(x: Word, y: Word, z: Word): Word {
    (x & y) ^ (!x & z)
  }

  function Maj(x: Word, y: Word, z: Word): Word {
    (x & y) ^ (x & z) ^ (y & z)
  }

  function BigSigma0(x: Word): Word { Rotr(x, 2) ^ Rotr(x, 13) ^ Rotr(x, 22) }
  function BigSigma1(x: Word): Word { Rotr(x, 6) ^ Rotr(x, 11) ^ Rotr(x, 25) }
  function Sigma0(x: Word): Word { Rotr(x, 7) ^ Rotr(x, 18) ^ (x >> 3) }
  function Sigma1(x: Word): Word { Rotr(x, 17) ^ Rotr(x, 19) ^ (x >> 10) }

  function BigEndian(a: Octet, b: Octet, c: Octet, d: Octet): Word {
    ((a as Word) << 24) | ((b as Word) << 16) | ((c as Word) << 8) | (d as Word)
  }

  // ----- the hash computation (section 6.2.2)

  function Mixed(w2: Word, w7: Word, w15: Word, w16: Word): Word {
    Sigma1(w2) + w7 + Sigma0(w15) + w16
  }

  /** The message schedule. */
  function Schedule(block: seq<Octet>, t: nat): Word
    requires |block| == BLOCK && t < 64
  {
    if t < 16 then BigEndian(block[4 * t], block[4 * t + 1], block[4 * t + 2], block[4 * t + 3])
    else Mixed(Schedule(block, t - 2), Schedule(block, t - 7), Schedule(block, t - 15), Schedule(block, t - 16))
  }

  datatype Vars = Vars(a: Word, b: Word, c: Word, d: Word, e: Word, f: Word, g: Word, h: Word)

  function T1(e: Word, f: Word, g: Word, h: Word, k: Word, w: Word): Word {
    h + BigSigma1(e) + Ch(e, f, g) + k + w
  }

  function T2(a: Word, b: Word, c: Word): Word {
    BigSigma0(a) + Maj(a, b, c)
  }

  function Plus(x: Word, y: Word): Word {
    x + y
  }

  function Round(v: Vars, k: Word, w: Word): Vars {
    var t1, t2 := T1(v.e, v.f, v.g, v.h, k, w), T2(v.a, v.b, v.c);
    Vars(Plus(t1, t2), v.a, v.b, v.c, Plus(v.d, t1), v.e, v.f, v.g)
  }

  function Rounds(block: seq<Octet>, v: Vars, t: nat): Vars
    requires |block| == BLOCK && t <= 64
  {
    if t == 0 then v else Round(Rounds(block, v, t - 1), K[t - 1], Schedule(block, t - 1))
  }

  function Start(s: seq<Word>): Vars
    requires |s| == 8
  {
    Vars(s[0], s[1], s[2], s[3], s[4], s[5], s[6], s[7])
  }

  function Listed(v: Vars): (s: seq<Word>)
    ensures |s| == 8
  {
    [v.a, v.b, v.c, v.d, v.e, v.f, v.g, v.h]
  }

  function Added(s: seq<Word>, v: Vars): seq<Word>
    requires |s| == 8
  {
    seq(8, i requires 0 <= i < 8 => Plus(s[i], Listed(v)[i]))
  }

  function Compress(s: seq<Word>, block: seq<Octet>): (r: seq<Word>)
    requires |s| == 8 && |block| == BLOCK
    ensures |r| == 8
  {
    Added(s, Rounds(block, Start(s), 64))
  }

  /** The hash value after whole blocks. */
  function Absorb(m: seq<Octet>): (s: seq<Word>)
    requires |m| % BLOCK == 0
    ensures |s| == 8
  {
    if m == [] then H0 else Compress(Absorb(m[..|m| - BLOCK]), m[|m| - BLOCK..])
  }

  // ----- padding (section 5.1.1)

  function Zeros(n: nat): (z: seq<Octet>)
    ensures |z| == n
  {
    seq(n, _ => 0)
  }

  /** The smallest number of zero bytes that leaves room for the length. */
  function ZeroCount(n: nat): (k: nat)
    ensures (n + 1 + k) % BLOCK == 56 && k < BLOCK
  {
    (119 - n % 64) % 64
  }

  function Power256(i: nat): (p: nat)
    ensures p > 0
  {
    if i == 0 then 1 else 256 * Power256(i - 1)
  }

  function LengthByte(n: nat, i: nat): Octet
    requires i < 8
  {
    ((n / Power256(7 - i)) % 256) as Octet
  }

  /** The 64-bit big-endian length. */
  function LengthBytes(n: nat): (s: seq<Octet>)
    ensures |s| == 8
  {
    seq(8, i requires 0 <= i < 8 => LengthByte(n, i))
  }

  function Pad(m: seq<Octet>): (p: seq<Octet>)
    ensures |p| % BLOCK == 0
  {
    m + [0x80] + Zeros(ZeroCount(|m|)) + LengthBytes(8 * |m|)
  }

  function WordBytes(x: Word): (s: seq<Octet>)
    ensures |s| == 4
  {
    [((x >> 24) & 0xFF) as Octet, ((x >> 16) & 0xFF) as Octet, ((x >> 8) & 0xFF) as Octet, (x & 0xFF) as Octet]
  }

  function Output(s: seq<Word>): seq<Octet>
    decreases |s|
  {
    if s == [] then [] else Output(s[..|s| - 1]) + WordBytes(s[|s| - 1])
  }

  function Digest(m: seq<Octet>): seq<Octet> {
    Output(Absorb(Pad(m)))
  }

  // ----- streaming

  /** The part of m made of whole blocks, and the rest. */
  function Whole(m: seq<Octet>): (w: seq<Octet>)
    ensures |w| % BLOCK == 0
  {
    m[..|m| - |m| % BLOCK]
  }

  function Rest(m: seq<Octet>): (r: seq<Octet>)
    ensures |r| == |m| % BLOCK
  {
    m[|m| - |m| % BLOCK..]
  }

  lemma FillRest(m: seq<Octet>, t: seq<Octet>)
    requires |m| % BLOCK + |t| < BLOCK
    ensures Whole(m + t) == Whole(m) && Rest(m + t) == Rest(m) + t
  {
    ModAdd(|m|, |t|);
  }

  lemma ModAdd(a: nat, b: nat)
    requires a % BLOCK + b < BLOCK
    ensures (a + b) % BLOCK == a % BLOCK + b
  {
  }

  lemma FillBlock(m: seq<Octet>, t: seq<Octet>)
    requires |m| % BLOCK + |t| == BLOCK
    ensures Whole(m + t) == Whole(m) + (Rest(m) + t) && Rest(m + t) == []
    ensures Absorb(Whole(m + t)) == Compress(Absorb(Whole(m)), Rest(m) + t)
  {
    hide Compress;
    assert (|m| + |t|) % BLOCK == 0;
    var w := Whole(m + t);
    assert w == Whole(m) + (Rest(m) + t);
    assert w[..|w| - BLOCK] == Whole(m) && w[|w| - BLOCK..] == Rest(m) + t;
  }

  lemma AbsorbAppend(w: seq<Octet>, block: seq<Octet>)
    requires |w| % BLOCK == 0 && |block| == BLOCK
    ensures |w + block| % BLOCK == 0 && Absorb(w + block) == Compress(Absorb(w), block)
  {
    hide Compress;
    var all := w + block;
    assert all[..|all| - BLOCK] == w && all[|all| - BLOCK..] == block;
  }

  /** Both ways in which final lays out the last bytes give the padded message. */
  lemma PadBlocks(m: seq<Octet>)
    ensures |m| % BLOCK < 56 ==>
      var last := Rest(m) + [0x80] + Zeros(55 - |m| % BLOCK) + LengthBytes(8 * |m|);
      |last| == BLOCK && Absorb(Pad(m)) == Compress(Absorb(Whole(m)), last)
    ensures |m| % BLOCK >= 56 ==>
      var first, last := Rest(m) + [0x80] + Zeros(63 - |m| % BLOCK), Zeros(56) + LengthBytes(8 * |m|);
      |first| == |last| == BLOCK && Absorb(Pad(m)) == Compress(Compress(Absorb(Whole(m)), first), last)
  {
    hide Compress, Absorb, LengthBytes, Zeros;
    var r := |m| % BLOCK;
    assert m == Whole(m) + Rest(m);
    if r < 56 {
      var last := Rest(m) + [0x80] + Zeros(55 - r) + LengthBytes(8 * |m|);
      assert ZeroCount(|m|) == 55 - r;
      assert Pad(m) == Whole(m) + last;
      AbsorbAppend(Whole(m), last);
    } else {
      var first, last := Rest(m) + [0x80] + Zeros(63 - r), Zeros(56) + LengthBytes(8 * |m|);
      assert ZeroCount(|m|) == (63 - r) + 56;
      ZerosSplit(63 - r, 56);
      assert Pad(m) == Whole(m) + first + last;
      AbsorbAppend(Whole(m), first);
      AbsorbAppend(Whole(m) + first, last);
    }
  }

  lemma ZerosSplit(a: nat, b: nat)
    ensures Zeros(a + b) == Zeros(a) + Zeros(b)
  {
  }

  // ----- yan_sha256_compress

  /** The sum that extends the schedule, in the order the code adds it. */
  function Extended(w16: Word, w15: Word, w7: Word, w2: Word): Word {
    w16 + Sigma0(w15) + w7 + Sigma1(w2)
  }

  lemma ScheduleExtends(block: seq<Octet>, t: nat)
    requires |block| == BLOCK && 16 <= t < 64
    ensures Schedule(block, t) ==
      Extended(Schedule(block, t - 16), Schedule(block, t - 15), Schedule(block, t - 7), Schedule(block, t - 2))
  {
    hide Mixed, Extended, BigEndian;
    SameMix(Schedule(block, t - 16), Schedule(block, t - 15), Schedule(block, t - 7), Schedule(block, t - 2));
  }

  lemma SameMix(w16: Word, w15: Word, w7: Word, w2: Word)
    ensures Mixed(w2, w7, w15, w16) == Extended(w16, w15, w7, w2)
  {
    hide Sigma0, Sigma1;
    SameSum(w16, Sigma0(w15), w7, Sigma1(w2));
  }

  lemma SameSum(a: Word, b: Word, c: Word, d: Word)
    ensures a + b + c + d == d + c + b + a
  {
  }

  lemma ScheduleWord(block: seq<Octet>, t: nat)
    requires |block| == BLOCK && t < 16
    ensures Schedule(block, t) == BigEndian(block[4 * t], block[4 * t + 1], block[4 * t + 2], block[4 * t + 3])
  {
  }

  method FillSchedule(block: seq<Octet>) returns (w: array<Word>)
    requires |block| == BLOCK
    ensures fresh(w) && w.Length == 64 && forall t | 0 <= t < 64 :: w[t] == Schedule(block, t)
  {
    hide Extended, BigEndian, Schedule;
    w := new Word[64];
    for i := 0 to 16
      invariant forall t | 0 <= t < i :: w[t] == Schedule(block, t)
    {
      ScheduleWord(block, i);
      w[i] := BigEndian(block[4 * i], block[4 * i + 1], block[4 * i + 2], block[4 * i + 3]);
    }
    for i := 16 to 64
      invariant forall t | 0 <= t < i :: w[t] == Schedule(block, t)
    {
      ScheduleExtends(block, i);
      w[i] := Extended(w[i - 16], w[i - 15], w[i - 7], w[i - 2]);
    }
  }

  /** The 64 rounds on eight variables. */
  method RunRounds(block: seq<Octet>, s: seq<Word>) returns (v: Vars)
    requires |block| == BLOCK && |s| == 8
    ensures v == Rounds(block, Start(s), 64)
  {
    hide Schedule, T1, T2, Plus;
    var w := FillSchedule(block);
    var a, b, c, d := s[0], s[1], s[2], s[3];
    var e, f, g, h := s[4], s[5], s[6], s[7];
    for i := 0 to 64
      invariant Vars(a, b, c, d, e, f, g, h) == Rounds(block, Start(s), i)
    {
      var temp1 := T1(e, f, g, h, K[i], w[i]);
      var temp2 := T2(a, b, c);
      h := g;
      g := f;
      f := e;
      e := Plus(d, temp1);
      d := c;
      c := b;
      b := a;
      a := Plus(temp1, temp2);
    }
    v := Vars(a, b, c, d, e, f, g, h);
  }

  /** The closing additions into the state. */
  method AddInto(state: array<Word>, v: Vars)
    requires state.Length == 8
    modifies state
    ensures state[..] == Added(old(state[..]), v)
  {
    hide Plus, Listed;
    var add := Listed(v);
    for i := 0 to 8
      invariant forall k | 0 <= k < i :: state[k] == Plus(old(state[k]), add[k])
      invariant forall k | i <= k < 8 :: state[k] == old(state[k])
    {
      state[i] := Plus(state[i], add[i]);
    }
  }

  method CompressBlock(state: array<Word>, block: seq<Octet>)
    requires state.Length == 8 && |block| == BLOCK
    modifies state
    ensures state[..] == Compress(old(state[..]), block)
  {
    hide Rounds, Added;
    var v := RunRounds(block, state[..]);
    AddInto(state, v);
  }

  datatype Result = Ok | Invalid | TooLarge

  class Context {
    const state: array<Word>
    const block: array<Octet>
    var totalBytes: nat
    var blockLength: nat
    var initialized: bool
    ghost var fed: seq<Octet>

    ghost predicate Valid()
      reads this, state, block
    {
      && state.Length == 8 && block.Length == BLOCK
      && (initialized ==>
            && totalBytes == |fed| <= MAX_BYTES && blockLength == |fed| % BLOCK
            && state[..] == Absorb(Whole(fed)) && block[..blockLength] == Rest(fed))
    }

    /** yan_semantic_sha256_init */
    constructor ()
      ensures Valid() && initialized && fed == [] && fresh(state) && fresh(block)
    {
      state := new Word[8](i requires 0 <= i < 8 => H0[i]);
      block := new Octet[BLOCK](_ => 0);
      totalBytes, blockLength, initialized, fed := 0, 0, true, [];
      new;
      assert state[..] == H0;
    }

    method CopyIn(bytes: seq<Octet>, offset: nat, take: nat)
      requires block.Length == BLOCK && blockLength + take <= BLOCK && offset + take <= |bytes|
      modifies block
      ensures block[..blockLength + take] == old(block[..blockLength]) + bytes[offset..offset + take]
    {
      for i := 0 to take
        invariant block[..blockLength + i] == old(block[..blockLength]) + bytes[offset..offset + i]
      {
        block[blockLength + i] := bytes[offset + i];
        assert block[..blockLength + i + 1] == block[..blockLength + i] + [bytes[offset + i]];
      }
    }

    /** yan_semantic_sha256_update: the block buffer holds what no whole block holds yet. */
    method Update(bytes: seq<Octet>) returns (r: Result)
      requires Valid()
      modifies this, state, block
      ensures Valid() && initialized == old(initialized)
      ensures r == if !initialized then Invalid else if |old(fed)| + |bytes| > MAX_BYTES then TooLarge else Ok
      ensures fed == old(fed) + (if r == Ok then bytes else [])
      ensures r != Ok ==> state[..] == old(state[..]) && block[..] == old(block[..]) && totalBytes == old(totalBytes)
    {
      if !initialized {
        return Invalid;
      }
      if |bytes| > MAX_BYTES - totalBytes {
        return TooLarge;
      }
      HoldingFed();
      hide Holding;
      Scan(bytes, fed);
      totalBytes := totalBytes + |bytes|;
      fed := fed + bytes;
      HeldFed();
      r := Ok;
    }

    /** The update loop. */
    method Scan(bytes: seq<Octet>, ghost was: seq<Octet>)
      requires Holding(was)
      modifies `blockLength, state, block
      ensures Holding(was + bytes)
    {
      hide Holding;
      var offset := 0;
      assert was + bytes[..0] == was;
      while offset < |bytes|
        invariant offset <= |bytes| && Holding(was + bytes[..offset])
        decreases |bytes| - offset
      {
        BufferRoom(was + bytes[..offset]);
        var room := BLOCK - blockLength;
        var take := |bytes| - offset;
        if take > room {
          take := room;
        }
        assert was + bytes[..offset + take] == was + bytes[..offset] + bytes[offset..offset + take];
        Append(bytes, offset, take, was + bytes[..offset]);
        offset := offset + take;
      }
      assert bytes[..|bytes|] == bytes;
    }

    /** The state and the buffer after message m. */
    ghost predicate Holding(m: seq<Octet>)
      reads `blockLength, state, block
    {
      && state.Length == 8 && block.Length == BLOCK && blockLength == |m| % BLOCK
      && state[..] == Absorb(Whole(m)) && block[..blockLength] == Rest(m)
    }

    lemma HoldingFed()
      requires Valid() && initialized
      ensures Holding(fed)
    {
    }

    lemma HeldFed()
      requires Holding(fed) && initialized && totalBytes == |fed| <= MAX_BYTES
      ensures Valid()
    {
    }

    lemma BufferRoom(m: seq<Octet>)
      requires Holding(m)
      ensures blockLength < BLOCK
    {
    }

    /** One turn of the update loop. */
    method Append(bytes: seq<Octet>, offset: nat, take: nat, ghost m: seq<Octet>)
      requires Holding(m) && offset + take <= |bytes| && take <= BLOCK - blockLength
      modifies `blockLength, state, block
      ensures Holding(m + bytes[offset..offset + take])
    {
      hide Absorb, Compress, Whole, Rest;
      ghost var t := bytes[offset..offset + take];
      CopyIn(bytes, offset, take);
      blockLength := blockLength + take;
      RestLength(m + t);
      if blockLength == BLOCK {
        FillBlock(m, t);
        assert block[..] == block[..BLOCK];
        CompressBlock(state, block[..]);
        blockLength := 0;
      } else {
        FillRest(m, t);
      }
    }

    lemma RestLength(m: seq<Octet>)
      ensures |Rest(m)| == |m| % BLOCK
    {
    }

    /** yan_semantic_sha256_final: the digest of everything fed, by whichever padding case applies. */
    method Final() returns (r: Result, out: seq<Octet>)
      requires Valid()
      modifies `initialized, `blockLength, state, block
      ensures Valid() && !initialized
      ensures r == if old(initialized) then Ok else Invalid
      ensures r == Ok ==> out == Digest(old(fed))
    {
      if !initialized {
        return Invalid, [];
      }
      HoldingFed();
      hide Holding;
      PadAndCompress(fed);
      out := WriteDigest();
      initialized := false;
      r := Ok;
    }

    method FillZeros(from: nat, to: nat)
      requires from <= to <= block.Length
      modifies block
      ensures block[..to] == old(block[..from]) + Zeros(to - from)
    {
      for i := from to to
        invariant block[..i] == old(block[..from]) + Zeros(i - from)
      {
        block[i] := 0;
        assert Zeros(i + 1 - from) == Zeros(i - from) + [0];
      }
    }

    /** The last eight bytes of a block. */
    method WriteLength(bits: nat)
      requires block.Length == BLOCK
      modifies block
      ensures block[..] == old(block[..56]) + LengthBytes(bits)
    {
      for i := 0 to 8
        invariant block[..56 + i] == old(block[..56]) + LengthBytes(bits)[..i]
      {
        block[56 + i] := LengthByte(bits, i);
        assert LengthBytes(bits)[..i + 1] == LengthBytes(bits)[..i] + [LengthByte(bits, i)];
      }
      assert block[..56 + 8] == block[..] && LengthBytes(bits)[..8] == LengthBytes(bits);
    }

    method PadAndCompress(ghost m: seq<Octet>)
      requires Holding(m) && totalBytes == |m|
      modifies state, block
      ensures state.Length == 8 && state[..] == Absorb(Pad(m))
    {
      hide Absorb, Compress, LengthBytes, Zeros, Whole, Rest, Pad;
      PadBlocks(m);
      var index := blockLength;
      block[index] := 0x80;
      index := index + 1;
      assert block[..index] == Rest(m) + [0x80] by { RestLength(m); }
      if index > 56 {
        FillZeros(index, BLOCK);
        assert block[..] == block[..BLOCK];
        CompressBlock(state, block[..]);
        index := 0;
      }
      FillZeros(index, 56);
      assert index == 0 ==> block[..56] == Zeros(56);
      WriteLength(totalBytes * 8);
      CompressBlock(state, block[..]);
    }

    method WriteDigest() returns (out: seq<Octet>)
      requires state.Length == 8
      ensures out == Output(state[..])
    {
      hide WordBytes;
      out := [];
      for i := 0 to 8
        invariant out == Output(state[..i])
      {
        assert state[..i + 1][..i] == state[..i];
        out := out + WordBytes(state[i]);
      }
      assert state[..8] == state[..];
    }
  }

  /** Hashing a message in any pieces gives its FIPS 180-4 digest, or the message is too long for the
      64-bit length field. */
  method Hash(pieces: seq<seq<Octet>>) returns (r: Result, out: seq<Octet>)
    ensures r == if |Joined(pieces)| <= MAX_BYTES then Ok else TooLarge
    ensures r == Ok ==> out == Digest(Joined(pieces))
  {
    hide Absorb, Digest, Context.Valid;
    var ctx := new Context();
    assert pieces[..0] == [];
    for k := 0 to |pieces|
      invariant ctx.Valid() && ctx.initialized && ctx.fed == Joined(pieces[..k]) && fresh(ctx) && fresh(ctx.state) && fresh(ctx.block)
      invariant |Joined(pieces[..k])| <= MAX_BYTES
    {
      assert pieces[..k + 1][..k] == pieces[..k];
      JoinedPrefix(pieces, k + 1);
      r := ctx.Update(pieces[k]);
      if r != Ok {
        return TooLarge, [];
      }
    }
    assert pieces[..|pieces|] == pieces;
    r, out := ctx.Final();
  }

  function Joined(pieces: seq<seq<Octet>>): seq<Octet> {
    if pieces == [] then [] else Joined(pieces[..|pieces| - 1]) + pieces[|pieces| - 1]
  }

  lemma {:induction false} JoinedPrefix(pieces: seq<seq<Octet>>, k: nat)
    requires k <= |pieces|
    ensures |Joined(pieces[..k])| <= |Joined(pieces)|
  {
    if k < |pieces| {
      assert pieces[..|pieces| - 1][..k] == pieces[..k];
      JoinedPrefix(pieces[..|pieces| - 1], k);
    } else {
      assert pieces[..k] == pieces;
    }
  }

  // ----- the constants and functions, said another way

  /** c / 2^32 is the largest such fraction that is at most the cube root of p. */
  predicate Root3(p: nat, c: nat) {
    c * c * c <= p * 0x1_0000_0000_0000_0000_0000_0000 < (c + 1) * (c + 1) * (c + 1)
  }

  predicate Root2(p: nat, c: nat) {
    c * c <= p * 0x1_0000_0000_0000_0000 < (c + 1) * (c + 1)
  }

  /** The words of the row are the first 32 bits of the fractions of the cube roots of the numbers, whose whole
      parts are given. */
  predicate CubeRoots(row: seq<Word>, ps: seq<nat>, whole: seq<nat>) {
    |row| == |ps| == |whole| && forall r | 0 <= r < |row| :: Root3(ps[r], whole[r] * 0x1_0000_0000 + row[r] as nat)
  }

  predicate SquareRoots(row: seq<Word>, ps: seq<nat>, whole: seq<nat>) {
    |row| == |ps| == |whole| && forall r | 0 <= r < |row| :: Root2(ps[r], whole[r] * 0x1_0000_0000 + row[r] as nat)
  }

  lemma Row0()
    ensures CubeRoots(K0, [2, 3, 5, 7, 11, 13, 17, 19], [1, 1, 1, 1, 2, 2, 2, 2])
  {
    assert Root3(2, 1 * 0x1_0000_0000 + 0x428a2f98);
    assert Root3(3, 1 * 0x1_0000_0000 + 0x71374491);
    assert Root3(5, 1 * 0x1_0000_0000 + 0xb5c0fbcf);
    assert Root3(7, 1 * 0x1_0000_0000 + 0xe9b5dba5);
    assert Root3(11, 2 * 0x1_0000_0000 + 0x3956c25b);
    assert Root3(13, 2 * 0x1_0000_0000 + 0x59f111f1);
    assert Root3(17, 2 * 0x1_0000_0000 + 0x923f82a4);
    assert Root3(19, 2 * 0x1_0000_0000 + 0xab1c5ed5);
  }

  lemma Row1()
    ensures CubeRoots(K1, [23, 29, 31, 37, 41, 43, 47, 53], [2, 3, 3, 3, 3, 3, 3, 3])
  {
    assert Root3(23, 2 * 0x1_0000_0000 + 0xd807aa98);
    assert Root3(29, 3 * 0x1_0000_0000 + 0x12835b01);
    assert Root3(31, 3 * 0x1_0000_0000 + 0x243185be);
    assert Root3(37, 3 * 0x1_0000_0000 + 0x550c7dc3);
    assert Root3(41, 3 * 0x1_0000_0000 + 0x72be5d74);
    assert Root3(43, 3 * 0x1_0000_0000 + 0x80deb1fe);
    assert Root3(47, 3 * 0x1_0000_0000 + 0x9bdc06a7);
    assert Root3(53, 3 * 0x1_0000_0000 + 0xc19bf174);
  }

  lemma Row2()
    ensures CubeRoots(K2, [59, 61, 67, 71, 73, 79, 83, 89], [3, 3, 4, 4, 4, 4, 4, 4])
  {
    assert Root3(59, 3 * 0x1_0000_0000 + 0xe49b69c1);
    assert Root3(61, 3 * 0x1_0000_0000 + 0xefbe4786);
    assert Root3(67, 4 * 0x1_0000_0000 + 0x0fc19dc6);
    assert Root3(71, 4 * 0x1_0000_0000 + 0x240ca1cc);
    assert Root3(73, 4 * 0x1_0000_0000 + 0x2de92c6f);
    assert Root3(79, 4 * 0x1_0000_0000 + 0x4a7484aa);
    assert Root3(83, 4 * 0x1_0000_0000 + 0x5cb0a9dc);
    assert Root3(89, 4 * 0x1_0000_0000 + 0x76f988da);
  }

  lemma Row3()
    ensures CubeRoots(K3, [97, 101, 103, 107, 109, 113, 127, 131], [4, 4, 4, 4, 4, 4, 5, 5])
  {
    assert Root3(97, 4 * 0x1_0000_0000 + 0x983e5152);
    assert Root3(101, 4 * 0x1_0000_0000 + 0xa831c66d);
    assert Root3(103, 4 * 0x1_0000_0000 + 0xb00327c8);
    assert Root3(107, 4 * 0x1_0000_0000 + 0xbf597fc7);
    assert Root3(109, 4 * 0x1_0000_0000 + 0xc6e00bf3);
    assert Root3(113, 4 * 0x1_0000_0000 + 0xd5a79147);
    assert Root3(127, 5 * 0x1_0000_0000 + 0x06ca6351);
    assert Root3(131, 5 * 0x1_0000_0000 + 0x14292967);
  }

  lemma Row4()
    ensures CubeRoots(K4, [137, 139, 149, 151, 157, 163, 167, 173], [5, 5, 5, 5, 5, 5, 5, 5])
  {
    assert Root3(137, 5 * 0x1_0000_0000 + 0x27b70a85);
    assert Root3(139, 5 * 0x1_0000_0000 + 0x2e1b2138);
    assert Root3(149, 5 * 0x1_0000_0000 + 0x4d2c6dfc);
    assert Root3(151, 5 * 0x1_0000_0000 + 0x53380d13);
    assert Root3(157, 5 * 0x1_0000_0000 + 0x650a7354);
    assert Root3(163, 5 * 0x1_0000_0000 + 0x766a0abb);
    assert Root3(167, 5 * 0x1_0000_0000 + 0x81c2c92e);
    assert Root3(173, 5 * 0x1_0000_0000 + 0x92722c85);
  }

  lemma Row5()
    ensures CubeRoots(K5, [179, 181, 191, 193, 197, 199, 211, 223], [5, 5, 5, 5, 5, 5, 5, 6])
  {
    assert Root3(179, 5 * 0x1_0000_0000 + 0xa2bfe8a1);
    assert Root3(181, 5 * 0x1_0000_0000 + 0xa81a664b);
    assert Root3(191, 5 * 0x1_0000_0000 + 0xc24b8b70);
    assert Root3(193, 5 * 0x1_0000_0000 + 0xc76c51a3);
    assert Root3(197, 5 * 0x1_0000_0000 + 0xd192e819);
    assert Root3(199, 5 * 0x1_0000_0000 + 0xd6990624);
    assert Root3(211, 5 * 0x1_0000_0000 + 0xf40e3585);
    assert Root3(223, 6 * 0x1_0000_0000 + 0x106aa070);
  }

  lemma Row6()
    ensures CubeRoots(K6, [227, 229, 233, 239, 241, 251, 257, 263], [6, 6, 6, 6, 6, 6, 6, 6])
  {
    assert Root3(227, 6 * 0x1_0000_0000 + 0x19a4c116);
    assert Root3(229, 6 * 0x1_0000_0000 + 0x1e376c08);
    assert Root3(233, 6 * 0x1_0000_0000 + 0x2748774c);
    assert Root3(239, 6 * 0x1_0000_0000 + 0x34b0bcb5);
    assert Root3(241, 6 * 0x1_0000_0000 + 0x391c0cb3);
    assert Root3(251, 6 * 0x1_0000_0000 + 0x4ed8aa4a);
    assert Root3(257, 6 * 0x1_0000_0000 + 0x5b9cca4f);
    assert Root3(263, 6 * 0x1_0000_0000 + 0x682e6ff3);
  }

  lemma Row7()
    ensures CubeRoots(K7, [269, 271, 277, 281, 283, 293, 307, 311], [6, 6, 6, 6, 6, 6, 6, 6])
  {
    assert Root3(269, 6 * 0x1_0000_0000 + 0x748f82ee);
    assert Root3(271, 6 * 0x1_0000_0000 + 0x78a5636f);
    assert Root3(277, 6 * 0x1_0000_0000 + 0x84c87814);
    assert Root3(281, 6 * 0x1_0000_0000 + 0x8cc70208);
    assert Root3(283, 6 * 0x1_0000_0000 + 0x90befffa);
    assert Root3(293, 6 * 0x1_0000_0000 + 0xa4506ceb);
    assert Root3(307, 6 * 0x1_0000_0000 + 0xbef9a3f7);
    assert Root3(311, 6 * 0x1_0000_0000 + 0xc67178f2);
  }

  /** The round constants are those of section 4.2.2: the fractions of the cube roots of the first 64 primes. */
  lemma RoundConstants()
    ensures K == K0 + K1 + K2 + K3 + K4 + K5 + K6 + K7
    ensures CubeRoots(K0, [2, 3, 5, 7, 11, 13, 17, 19], [1, 1, 1, 1, 2, 2, 2, 2])
    ensures CubeRoots(K1, [23, 29, 31, 37, 41, 43, 47, 53], [2, 3, 3, 3, 3, 3, 3, 3])
    ensures CubeRoots(K2, [59, 61, 67, 71, 73, 79, 83, 89], [3, 3, 4, 4, 4, 4, 4, 4])
    ensures CubeRoots(K3, [97, 101, 103, 107, 109, 113, 127, 131], [4, 4, 4, 4, 4, 4, 5, 5])
    ensures CubeRoots(K4, [137, 139, 149, 151, 157, 163, 167, 173], [5, 5, 5, 5, 5, 5, 5, 5])
    ensures CubeRoots(K5, [179, 181, 191, 193, 197, 199, 211, 223], [5, 5, 5, 5, 5, 5, 5, 6])
    ensures CubeRoots(K6, [227, 229, 233, 239, 241, 251, 257, 263], [6, 6, 6, 6, 6, 6, 6, 6])
    ensures CubeRoots(K7, [269, 271, 277, 281, 283, 293, 307, 311], [6, 6, 6, 6, 6, 6, 6, 6])
  {
    hide CubeRoots;
    Row0(); Row1(); Row2(); Row3(); Row4(); Row5(); Row6(); Row7();
  }

  /** The initial words are those of section 5.3.3: the fractions of the square roots of the first eight primes. */
  lemma InitialWords()
    ensures SquareRoots(H0, [2, 3, 5, 7, 11, 13, 17, 19], [1, 1, 2, 2, 3, 3, 4, 4])
  {
  }

  function Rotated(x: Word, n: nat): Word
    requires n < 32
  {
    x.RotateRight(n)
  }

  lemma Rotations(x: Word)
    ensures Rotr(x, 2) == Rotated(x, 2) && Rotr(x, 13) == Rotated(x, 13) && Rotr(x, 22) == Rotated(x, 22)
    ensures Rotr(x, 6) == Rotated(x, 6) && Rotr(x, 11) == Rotated(x, 11) && Rotr(x, 25) == Rotated(x, 25)
    ensures Rotr(x, 7) == Rotated(x, 7) && Rotr(x, 18) == Rotated(x, 18)
    ensures Rotr(x, 17) == Rotated(x, 17) && Rotr(x, 19) == Rotated(x, 19)
  {
  }

  /** The functions of section 4.1.2, with the rotation of the language and with disjunctions. */
  lemma ChoiceAndMajority(x: Word, y: Word, z: Word)
    ensures Ch(x, y, z) == (x & y) | (!x & z)
    ensures Maj(x, y, z) == (x & y) | (x & z) | (y & z)
  {
  }

  lemma Big0(x: Word)
    ensures BigSigma0(x) == Rotated(x, 2) ^ Rotated(x, 13) ^ Rotated(x, 22)
  {
    hide Rotr, Rotated;
    Rotations(x);
  }

  lemma Big1(x: Word)
    ensures BigSigma1(x) == Rotated(x, 6) ^ Rotated(x, 11) ^ Rotated(x, 25)
  {
    hide Rotr, Rotated;
    Rotations(x);
  }

  lemma Small0(x: Word)
    ensures Sigma0(x) == Rotated(x, 7) ^ Rotated(x, 18) ^ (x >> 3)
  {
    hide Rotr, Rotated;
    Rotations(x);
  }

  lemma Small1(x: Word)
    ensures Sigma1(x) == Rotated(x, 17) ^ Rotated(x, 19) ^ (x >> 10)
  {
    hide Rotr, Rotated;
    Rotations(x);
  }

  /** The four bytes of a word, most significant first. */
  lemma WordOfBytes(a: Octet, b: Octet, c: Octet, d: Octet)
    ensures var w := BigEndian(a, b, c, d);
            (w >> 24) as Octet == a && ((w >> 16) & 0xFF) as Octet == b && ((w >> 8) & 0xFF) as Octet == c && (w & 0xFF) as Octet == d
  {
  }
}
