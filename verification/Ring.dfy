/** Circular byte buffers: slots, distances and the wrapping copies of os/platform.h. */
module Ring {
  import opened Bytes

  const WORD32: nat := 0x1_0000_0000
  const RING_MIN: nat := 64

  function Exp2(k: nat): (n: nat)
    ensures n >= 1
  {
    if k == 0 then 1 else 2 * Exp2(k - 1)
  }

  /** What the device accepts as a ring size: a power of two, at least 64, two of which fit RAM. */
  ghost predicate RingSize(size: nat) {
    RING_MIN <= size <= WORD32 / 2 && exists k: nat :: Exp2(k) == size
  }

  /** Where the i-th byte of a stream lies. The mask (size - 1) of the source is % size. */
  function Slot(i: nat, size: nat): (c: nat)
    requires size > 0
    ensures c < size
  {
    i % size
  }

  /** (a - b) & (size - 1) on 32-bit registers. */
  function Distance(a: nat, b: nat, size: nat): (d: nat)
    requires size > 0
    ensures d < size
  {
    ((a - b) % WORD32) % size
  }

  function Wrap(start: nat, j: nat, size: nat): nat {
    if start + j < size then start + j else start + j - size
  }

  // ----- arithmetic of slots

  lemma {:induction false} Exp2Divides(k: nat, m: nat)
    requires k <= m
    ensures Exp2(m) % Exp2(k) == 0
  {
    if k == m {
    } else {
      Exp2Divides(k, m - 1);
      Doubled(Exp2(m - 1), Exp2(k));
    }
  }

  lemma Doubled(a: nat, n: nat)
    requires n > 0 && a % n == 0
    ensures (2 * a) % n == 0
  {
    var q := a / n;
    assert 2 * a == n * (2 * q);
    Multiple(2 * q, n);
  }

  lemma Multiple(q: nat, n: nat)
    requires n > 0
    ensures (n * q) % n == 0
  {
    Remainder(n * q, q, 0, n);
  }

  lemma Remainder(a: nat, q: nat, r: nat, n: nat)
    requires n > 0 && a == n * q + r && r < n
    ensures a % n == r && a / n == q
  {
    var p := a / n;
    assert a == n * p + a % n;
    Quotient(n, p, q, a % n, r);
  }

  lemma Quotient(n: nat, p: nat, q: nat, r: nat, s: nat)
    requires n * p + r == n * q + s && r < n && s < n
    ensures p == q
  {
    assert n * (p - q) == s - r;
    if p > q { Larger(n, p - q); }
    assert n * (q - p) == r - s;
    if q > p { Larger(n, q - p); }
  }

  lemma Larger(n: nat, d: nat)
    requires d >= 1
    ensures n * d >= n
  {
  }

  lemma {:induction false} Exp2Monotone(k: nat, m: nat)
    requires k <= m
    ensures Exp2(k) <= Exp2(m)
  {
    if k < m { Exp2Monotone(k, m - 1); }
  }

  lemma {:induction false} Exp2Sum(a: nat, b: nat)
    ensures Exp2(a + b) == Exp2(a) * Exp2(b)
  {
    if b > 0 {
      Exp2Sum(a, b - 1);
      assert Exp2(a + b) == 2 * Exp2(a + b - 1) == 2 * (Exp2(a) * Exp2(b - 1)) == Exp2(a) * (2 * Exp2(b - 1));
    }
  }

  lemma Exp2Word()
    ensures Exp2(32) == WORD32
  {
    assert Exp2(2) == 4;
    Exp2Sum(2, 2);
    Exp2Sum(4, 4);
    Exp2Sum(8, 8);
    Exp2Sum(16, 16);
  }

  lemma SizeDivides(size: nat)
    requires RingSize(size)
    ensures WORD32 % size == 0
  {
    var k: nat :| Exp2(k) == size;
    Exp2Word();
    if k > 32 { Exp2Monotone(33, k); }
    Exp2Divides(k, 32);
  }

  /** The slot of a later byte, as long as it lies within one turn. */
  lemma SlotStep(a: nat, j: nat, size: nat)
    requires size > 0 && j <= size
    ensures Slot(a + j, size) == (if j == size then Slot(a, size) else Wrap(Slot(a, size), j, size))
  {
    var q, r := a / size, a % size;
    assert a == size * q + r;
    if r + j < size {
      Remainder(a + j, q, r + j, size);
    } else {
      assert size * (q + 1) == size * q + size;
      Remainder(a + j, q + 1, r + j - size, size);
    }
  }

  lemma SlotsDiffer(i: nat, j: nat, size: nat)
    requires size > 0 && i < j < i + size
    ensures Slot(i, size) != Slot(j, size)
  {
    SlotStep(i, j - i, size);
  }

  /** The registers hold two stream positions modulo the ring size, and their masked 32-bit difference
      is the true distance. */
  lemma DistanceIsCount(a: nat, b: nat, size: nat)
    requires RingSize(size) && b <= a < b + size
    ensures Distance(Slot(a, size), Slot(b, size), size) == a - b
  {
    SizeDivides(size);
    SlotStep(b, a - b, size);
    var x, y := Slot(a, size), Slot(b, size);
    if x >= y {
      Remainder(x - y, 0, x - y, WORD32);
      Remainder(x - y, 0, x - y, size);
    } else {
      var d: nat := x - y + WORD32;
      Borrow(x, y);
      var q := WORD32 / size;
      assert WORD32 == size * q;
      assert d == size * (q - 1) + (x - y + size);
      Remainder(d, q - 1, x - y + size, size);
    }
  }

  lemma Borrow(x: nat, y: nat)
    requires x < y < WORD32
    ensures (x - y) % WORD32 == x - y + WORD32
  {
  }

  // ----- the copies

  /** The cell c is the j-th one from `start`. */
  function Back(c: nat, start: nat, size: nat): (j: nat)
    requires c < size && start < size
    ensures j < size && Wrap(start, j, size) == c
  {
    if c >= start then c - start else c + size - start
  }

  /** n bytes of `bytes` from `done` on now stand at `at`, and nothing else has changed. */
  predicate Written(now: seq<Byte>, was: seq<Byte>, at: nat, bytes: seq<Byte>, done: nat, n: nat)
    requires at + n <= |was| && done + n <= |bytes|
  {
    && |now| == |was|
    && (forall k | at <= k < at + n :: now[k] == bytes[done + (k - at)])
    && (forall k | 0 <= k < at :: now[k] == was[k])
    && (forall k | at + n <= k < |was| :: now[k] == was[k])
  }

  method CopyWords(to: array<Byte>, ghost was: seq<Byte>, at: nat, bytes: seq<Byte>, done: nat, i: nat, words: nat)
    requires to.Length == |was| && at + i + 4 * words <= |was| && done + i + 4 * words <= |bytes|
    requires Written(to[..], was, at, bytes, done, i)
    modifies to
    ensures Written(to[..], was, at, bytes, done, i + 4 * words)
  {
    for w := 0 to words
      invariant Written(to[..], was, at, bytes, done, i + 4 * w)
    {
      var o, j := at + i + 4 * w, done + i + 4 * w;
      to[o], to[o + 1], to[o + 2], to[o + 3] := bytes[j], bytes[j + 1], bytes[j + 2], bytes[j + 3];
    }
  }

  /** One contiguous run of copy_in or copy_out, by words when both byte addresses share their
      alignment. */
  method CopyRun(to: array<Byte>, at: nat, bytes: seq<Byte>, done: nat, amount: nat, toAddress: nat, fromAddress: nat)
    requires at + amount <= to.Length && done + amount <= |bytes|
    modifies to
    ensures Written(to[..], old(to[..]), at, bytes, done, amount)
  {
    ghost var was := to[..];
    var i := 0;
    if (toAddress + at) % 4 == (fromAddress + done) % 4 {
      while i < amount && (fromAddress + done + i) % 4 != 0
        invariant i <= amount && Written(to[..], was, at, bytes, done, i)
      {
        to[at + i] := bytes[done + i];
        i := i + 1;
      }
      while amount - i >= 16
        invariant i <= amount && Written(to[..], was, at, bytes, done, i)
      {
        CopyWords(to, was, at, bytes, done, i, 4);
        i := i + 16;
      }
      while amount - i >= 4
        invariant i <= amount && Written(to[..], was, at, bytes, done, i)
      {
        CopyWords(to, was, at, bytes, done, i, 1);
        i := i + 4;
      }
    }
    while i < amount
      invariant i <= amount && Written(to[..], was, at, bytes, done, i)
    {
      to[at + i] := bytes[done + i];
      i := i + 1;
    }
  }

  /** yan_os_ring_copy_in: the ring occupies ram[base..base + size]. */
  method CopyIn(ram: array<Byte>, base: nat, size: nat, start: nat, bytes: seq<Byte>, ramAddress: nat, address: nat)
    requires base + size <= ram.Length && start < size && |bytes| <= size
    modifies ram
    ensures forall j | 0 <= j < |bytes| :: ram[base + Wrap(start, j, size)] == bytes[j]
    ensures forall c | 0 <= c < size && Back(c, start, size) >= |bytes| :: ram[base + c] == old(ram[base + c])
    ensures forall k | 0 <= k < ram.Length && !(base <= k < base + size) :: ram[k] == old(ram[k])
  {
    var done, position := 0, start;
    while done < |bytes|
      invariant done <= |bytes| && position < size
      invariant done < |bytes| ==> position == Wrap(start, done, size)
      invariant forall j | 0 <= j < done :: ram[base + Wrap(start, j, size)] == bytes[j]
      invariant forall c | 0 <= c < size && Back(c, start, size) >= done :: ram[base + c] == old(ram[base + c])
      invariant forall k | 0 <= k < ram.Length && !(base <= k < base + size) :: ram[k] == old(ram[k])
    {
      var amount := size - position;
      if amount > |bytes| - done {
        amount := |bytes| - done;
      }
      ghost var was := ram[..];
      CopyRun(ram, base + position, bytes, done, amount, ramAddress, address);
      forall j | 0 <= j < done + amount
        ensures ram[base + Wrap(start, j, size)] == bytes[j]
      {
        var w := base + Wrap(start, j, size);
        assert ram[w] == ram[..][w];
      }
      forall c | 0 <= c < size && Back(c, start, size) >= done + amount
        ensures ram[base + c] == old(ram[base + c])
      {
        assert ram[base + c] == ram[..][base + c] == was[base + c];
      }
      done, position := done + amount, 0;
    }
  }

  /** yan_os_ring_copy_out */
  method CopyOut(ram: array<Byte>, base: nat, size: nat, start: nat, out: array<Byte>, at: nat, count: nat,
                 ramAddress: nat, address: nat)
    requires base + size <= ram.Length && start < size && count <= size && at + count <= out.Length && ram != out
    modifies out
    ensures forall k | at <= k < at + count :: out[k] == ram[base + Wrap(start, k - at, size)]
    ensures forall k | 0 <= k < at :: out[k] == old(out[k])
    ensures forall k | at + count <= k < out.Length :: out[k] == old(out[k])
  {
    var done, position := 0, start;
    while done < count
      invariant done <= count && position < size
      invariant done < count ==> position == Wrap(start, done, size)
      invariant forall k | at <= k < at + done :: out[k] == ram[base + Wrap(start, k - at, size)]
      invariant forall k | 0 <= k < at :: out[k] == old(out[k])
      invariant forall k | at + done <= k < out.Length :: out[k] == old(out[k])
    {
      var amount := size - position;
      if amount > count - done {
        amount := count - done;
      }
      ghost var was := out[..];
      CopyRun(out, at + done, ram[..], base + position, amount, address, ramAddress);
      assert forall k | 0 <= k < out.Length :: out[..][k] == out[k];
      done, position := done + amount, 0;
    }
  }
}
