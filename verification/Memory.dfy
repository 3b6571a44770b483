/** os/memory.c: the freestanding copy routines. One array stands for the memory both
    pointers lead into; `base` is the address of its first byte, so alignment is
    (base + index) % 4. */
module Memory {
  import opened Bytes

  /** The memory after n bytes at src have been read at once and written at dst. */
  function Move(was: seq<Byte>, dst: nat, src: nat, n: nat): (r: seq<Byte>)
    requires dst + n <= |was| && src + n <= |was|
    ensures |r| == |was|
  {
    was[..dst] + was[src..src + n] + was[dst + n..]
  }

  /** The same, read off byte by byte. */
  predicate Moved(now: seq<Byte>, was: seq<Byte>, dst: nat, src: nat, n: nat)
    requires dst + n <= |was| && src + n <= |was|
  {
    && |now| == |was|
    && (forall j | dst <= j < dst + n :: now[j] == was[src + (j - dst)])
    && (forall j | 0 <= j < dst :: now[j] == was[j])
    && (forall j | dst + n <= j < |was| :: now[j] == was[j])
  }

  lemma MovedIsMove(now: seq<Byte>, was: seq<Byte>, dst: nat, src: nat, n: nat)
    requires dst + n <= |was| && src + n <= |was|
    ensures Moved(now, was, dst, src, n) <==> now == Move(was, dst, src, n)
  {
    var r := Move(was, dst, src, n);
    assert forall j | dst <= j < dst + n :: r[j] == was[src + (j - dst)];
    assert forall j | dst + n <= j < |was| :: r[j] == was[j];
  }

  method CopyWord(mem: array<Byte>, o: nat, i: nat)
    requires o + 4 <= mem.Length && i + 4 <= mem.Length
    modifies mem
    ensures Moved(mem[..], old(mem[..]), o, i, 4)
  {
    mem[o], mem[o + 1], mem[o + 2], mem[o + 3] := mem[i], mem[i + 1], mem[i + 2], mem[i + 3];
  }

  /** A forward word step of a partly finished move, eight times in a row for a batch. */
  method ForwardWords(mem: array<Byte>, ghost was: seq<Byte>, dst: nat, src: nat, at: nat, words: nat)
    requires mem.Length == |was| && dst + at + 4 * words <= |was| && src + at + 4 * words <= |was|
    requires Apart(dst, src, at + 4 * words)
    requires Moved(mem[..], was, dst, src, at)
    modifies mem
    ensures Moved(mem[..], was, dst, src, at + 4 * words)
  {
    for w := 0 to words
      invariant Moved(mem[..], was, dst, src, at + 4 * w)
    {
      CopyWord(mem, dst + at + 4 * w, src + at + 4 * w);
    }
  }

  /** Both pointers aligned: the words a forward copy reads and writes are disjoint. */
  predicate Apart(dst: nat, src: nat, n: nat) {
    dst + 4 <= src || src + n <= dst
  }

  lemma AlignedApart(low: int, high: int)
    requires low < high && low % 4 == 0 && high % 4 == 0
    ensures low + 4 <= high
  {
  }

  method CopyForward(mem: array<Byte>, base: nat, dst: nat, src: nat, n: nat)
    requires dst + n <= mem.Length && src + n <= mem.Length
    requires dst < src || src + n <= dst
    modifies mem
    ensures Moved(mem[..], old(mem[..]), dst, src, n)
  {
    ghost var was := mem[..];
    var at: nat := 0;
    while at < n && ((base + dst + at) % 4 != 0 || (base + src + at) % 4 != 0)
      invariant at <= n
      invariant Moved(mem[..], was, dst, src, at)
    {
      mem[dst + at] := mem[src + at];
      at := at + 1;
    }
    if at < n && dst < src { AlignedApart(base + dst + at, base + src + at); }
    while n - at >= 32
      invariant at <= n
      invariant at == n || Apart(dst, src, n)
      invariant Moved(mem[..], was, dst, src, at)
    {
      ForwardWords(mem, was, dst, src, at, 8);
      at := at + 32;
    }
    while n - at >= 4
      invariant at <= n
      invariant at == n || Apart(dst, src, n)
      invariant Moved(mem[..], was, dst, src, at)
    {
      ForwardWords(mem, was, dst, src, at, 1);
      at := at + 4;
    }
    while at < n
      invariant at <= n
      invariant Moved(mem[..], was, dst, src, at)
    {
      mem[dst + at] := mem[src + at];
      at := at + 1;
    }
  }

  method BackwardWords(mem: array<Byte>, ghost was: seq<Byte>, dst: nat, src: nat, n: nat, left: nat, words: nat)
    requires mem.Length == |was| && dst + n <= |was| && src + n <= |was|
    requires 4 * words <= left <= n && src + 4 <= dst
    requires Moved(mem[..], was, dst + left, src + left, n - left)
    modifies mem
    ensures Moved(mem[..], was, dst + left - 4 * words, src + left - 4 * words, n - left + 4 * words)
  {
    for w := 0 to words
      invariant Moved(mem[..], was, dst + left - 4 * w, src + left - 4 * w, n - left + 4 * w)
    {
      CopyWord(mem, dst + left - 4 * w - 4, src + left - 4 * w - 4);
    }
  }

  method CopyBackward(mem: array<Byte>, base: nat, dst: nat, src: nat, n: nat)
    requires dst + n <= mem.Length && src + n <= mem.Length && src < dst
    modifies mem
    ensures Moved(mem[..], old(mem[..]), dst, src, n)
  {
    ghost var was := mem[..];
    var left: nat := n;
    while left > 0 && ((base + dst + left) % 4 != 0 || (base + src + left) % 4 != 0)
      invariant left <= n
      invariant Moved(mem[..], was, dst + left, src + left, n - left)
    {
      left := left - 1;
      mem[dst + left] := mem[src + left];
    }
    if left > 0 { AlignedApart(base + src + left, base + dst + left); }
    while left >= 32
      invariant left <= n
      invariant left == 0 || src + 4 <= dst
      invariant Moved(mem[..], was, dst + left, src + left, n - left)
    {
      BackwardWords(mem, was, dst, src, n, left, 8);
      left := left - 32;
    }
    while left >= 4
      invariant left <= n
      invariant left == 0 || src + 4 <= dst
      invariant Moved(mem[..], was, dst + left, src + left, n - left)
    {
      BackwardWords(mem, was, dst, src, n, left, 1);
      left := left - 4;
    }
    while left > 0
      invariant left <= n
      invariant Moved(mem[..], was, dst + left, src + left, n - left)
    {
      left := left - 1;
      mem[dst + left] := mem[src + left];
    }
  }

  /** memmove equals a simultaneous copy for every overlap and every alignment. */
  method MemMove(mem: array<Byte>, base: nat, dst: nat, src: nat, n: nat)
    requires dst + n <= mem.Length && src + n <= mem.Length
    modifies mem
    ensures mem[..] == Move(old(mem[..]), dst, src, n)
  {
    MovedIsMove(mem[..], mem[..], dst, src, n);
    if dst == src || n == 0 {
      return;
    }
    ghost var was := mem[..];
    if dst < src {
      CopyForward(mem, base, dst, src, n);
    } else {
      CopyBackward(mem, base, dst, src, n);
    }
    MovedIsMove(mem[..], was, dst, src, n);
  }
}
