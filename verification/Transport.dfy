/** The host transport channel: the registers and host operations of src/transport.c and the guest
    accessors of os/platform.h. Between any two accesses of the guest the host may take any number of
    steps; both rings must behave as byte queues all the same. */
module Transport {
  import opened Bytes
  import opened Ring

  // ----- a stream stored in a ring

  /** The unread part s[from..] of a stream lies in its slots of ram[base..base + size]. */
  ghost predicate Stored(ram: seq<Byte>, base: nat, size: nat, s: seq<Byte>, from: nat) {
    && size > 0 && base + size <= |ram| && from <= |s| < from + size
    && (forall i | from <= i < |s| :: InSlot(ram, base, size, s, i))
  }

  ghost predicate InSlot(ram: seq<Byte>, base: nat, size: nat, s: seq<Byte>, i: nat)
    requires size > 0 && base + size <= |ram| && i < |s|
  {
    ram[base + Slot(i, size)] == s[i]
  }

  lemma FreeCell(i: nat, end: nat, n: nat, size: nat)
    requires size > 0 && i < end && end + n < i + size
    ensures Back(Slot(i, size), Slot(end, size), size) >= n
  {
    hide Slot, Wrap;
    var j := Back(Slot(i, size), Slot(end, size), size);
    if j < n {
      SlotStep(end, j, size);
      SlotsDiffer(i, end + j, size);
    }
  }

  /** What a push writes extends the stored stream: it only touches free cells. */
  lemma StoredPush(was: seq<Byte>, now: seq<Byte>, base: nat, size: nat, s: seq<Byte>, from: nat, bytes: seq<Byte>)
    requires Stored(was, base, size, s, from) && |now| == |was| && |s| + |bytes| < from + size
    requires forall j | 0 <= j < |bytes| :: now[base + Wrap(Slot(|s|, size), j, size)] == bytes[j]
    requires forall c | 0 <= c < size && Back(c, Slot(|s|, size), size) >= |bytes| :: now[base + c] == was[base + c]
    ensures Stored(now, base, size, s + bytes, from) && Stored(now, base, size, s, from)
  {
    hide Slot, Wrap, Back;
    forall i | from <= i < |s|
      ensures InSlot(now, base, size, s + bytes, i) && InSlot(now, base, size, s, i)
    {
      FreeCell(i, |s|, |bytes|, size);
      assert InSlot(was, base, size, s, i);
    }
    forall i | |s| <= i < |s + bytes|
      ensures InSlot(now, base, size, s + bytes, i)
    {
      SlotStep(|s|, i - |s|, size);
    }
  }

  lemma StoredPop(ram: seq<Byte>, base: nat, size: nat, s: seq<Byte>, from: nat, n: nat)
    requires Stored(ram, base, size, s, from) && from + n <= |s|
    ensures Stored(ram, base, size, s, from + n)
    ensures forall j | 0 <= j < n :: ram[base + Wrap(Slot(from, size), j, size)] == s[from + j]
  {
    hide Slot;
    forall j | 0 <= j < n
      ensures ram[base + Wrap(Slot(from, size), j, size)] == s[from + j]
    {
      SlotStep(from, j, size);
      assert InSlot(ram, base, size, s, from + j);
    }
  }

  lemma StoredKept(was: seq<Byte>, now: seq<Byte>, base: nat, size: nat, s: seq<Byte>, from: nat)
    requires Stored(was, base, size, s, from) && |now| == |was|
    requires forall k | base <= k < base + size :: now[k] == was[k]
    ensures Stored(now, base, size, s, from)
  {
    hide Slot;
    forall i | from <= i < |s|
      ensures InSlot(now, base, size, s, i)
    {
      assert InSlot(was, base, size, s, i);
    }
  }

  /** The register value of stream position n. */
  function Register(n: nat, size: nat): nat {
    if size == 0 then 0 else Slot(n, size)
  }

  /** (position + count) & (size - 1) */
  lemma Advanced(n: nat, count: nat, size: nat)
    requires RingSize(size) && count < size
    ensures (Slot(n, size) + count) % size == Slot(n + count, size)
  {
    SlotStep(n, count, size);
    var r := Slot(n, size);
    if r + count < size {
      Remainder(r + count, 0, r + count, size);
    } else {
      Remainder(r + count, 1, r + count - size, size);
    }
  }

  class Channel {
    const size: nat
    const ram: array<Byte>
    const ramAddress: nat
    var notify: bool
    var overflow: bool
    var g2hHead: nat
    var g2hTail: nat
    var h2gHead: nat
    var h2gTail: nat
    var bells: nat
    // Everything ever pushed or published, and how much of it the other side has taken.
    ghost var sent: seq<Byte>
    ghost var drained: nat
    ghost var arrived: seq<Byte>
    ghost var taken: nat

    ghost predicate Valid()
      reads this, ram
    {
      && ram.Length == 2 * size && (size > 0 ==> RingSize(size))
      && g2hHead == Register(|sent|, size) && g2hTail == Register(drained, size)
      && h2gHead == Register(|arrived|, size) && h2gTail == Register(taken, size)
      && (if size == 0 then sent == arrived == [] && drained == taken == 0
          else Stored(ram[..], 0, size, sent, drained) && Stored(ram[..], size, size, arrived, taken))
    }

    /** An unconfigured channel has size 0. */
    constructor (size: nat, ram: array<Byte>, ramAddress: nat)
      requires (size == 0 || RingSize(size)) && ram.Length == 2 * size
      ensures Valid() && sent == [] && arrived == [] && !notify && this.ram == ram && this.size == size
    {
      this.size, this.ram, this.ramAddress := size, ram, ramAddress;
      notify, overflow := false, false;
      g2hHead, g2hTail, h2gHead, h2gTail, bells := 0, 0, 0, 0, 0;
      sent, arrived, drained, taken := [], [], 0, 0;
      new;
      if size > 0 { Remainder(0, 0, 0, size); }
    }

    /** Only the host has moved: it has freed guest bytes or added its own. */
    twostate predicate HostOnly()
      reads this
    {
      && sent == old(sent) && taken == old(taken) && bells == old(bells)
      && old(drained) <= drained && old(arrived) <= arrived
    }

    // ----- the host's side: src/transport.c

    /** yan_transport_host_readable is the number of bytes sent and not yet consumed. */
    method HostReadable() returns (n: nat)
      requires Valid()
      ensures n == if notify && size > 0 then |sent| - drained else 0
    {
      if !notify || size == 0 {
        return 0;
      }
      DistanceIsCount(|sent|, drained, size);
      return Distance(g2hHead, g2hTail, size);
    }

    method HostWritable() returns (n: nat)
      requires Valid()
      ensures n == if notify && size > 0 then size - 1 - (|arrived| - taken) else 0
    {
      if !notify || size == 0 {
        return 0;
      }
      DistanceIsCount(|arrived|, taken, size);
      return size - 1 - Distance(h2gHead, h2gTail, size);
    }

    /** The host reads the next `count` bytes of the guest's ring: they are the next ones sent. */
    method HostRead(count: nat) returns (bytes: seq<Byte>)
      requires Valid() && size > 0 && count <= |sent| - drained
      ensures bytes == sent[drained..drained + count]
    {
      StoredPop(ram[..], 0, size, sent, drained, count);
      bytes := [];
      for j := 0 to count
        invariant bytes == sent[drained..drained + j]
      {
        assert ram[..][0 + Wrap(Slot(drained, size), j, size)] == sent[drained + j];
        bytes := bytes + [ram[Wrap(g2hTail, j, size)]];
      }
    }

    /** yan_transport_host_consume: the bytes are accounted for, or the overrun is latched. */
    method HostConsume(count: nat) returns (ok: bool)
      requires Valid()
      modifies `g2hTail, `overflow, `drained
      ensures Valid() && ok == (notify && size > 0 && count <= |sent| - old(drained))
      ensures drained == old(drained) + (if ok then count else 0)
      ensures overflow == (old(overflow) || (notify && size > 0 && !ok))
    {
      hide InSlot;
      if !notify || size == 0 {
        return false;
      }
      var readable := HostReadable();
      if count > readable {
        overflow := true;
        return false;
      }
      StoredPop(ram[..], 0, size, sent, drained, count);
      Advanced(drained, count, size);
      g2hTail := (g2hTail + count) % size;
      drained := drained + count;
      ok := true;
    }

    /** The host writes bytes into free cells of its ring and publishes them. */
    method HostPublish(bytes: seq<Byte>) returns (ok: bool)
      requires Valid()
      modifies `h2gHead, `overflow, `arrived, ram
      ensures Valid() && ok == (notify && size > 0 && |bytes| <= size - 1 - (|old(arrived)| - taken))
      ensures arrived == old(arrived) + (if ok then bytes else [])
      ensures forall k | 0 <= k < size :: ram[k] == old(ram[k])
    {
      if !notify || size == 0 {
        return false;
      }
      var writable := HostWritable();
      if |bytes| > writable {
        overflow := true;
        return false;
      }
      ghost var was := ram[..];
      CopyIn(ram, size, size, h2gHead, bytes, 0, 0);
      StoredPush(was, ram[..], size, size, arrived, taken, bytes);
      StoredKept(was, ram[..], 0, size, sent, drained);
      Advanced(|arrived|, |bytes|, size);
      h2gHead := (h2gHead + |bytes|) % size;
      arrived := arrived + bytes;
      ok := true;
    }

    /** One host operation. */
    method HostStep()
      requires Valid()
      modifies `notify, `overflow, `g2hTail, `drained, `h2gHead, `arrived, ram
      ensures Valid() && old(drained) <= drained && old(arrived) <= arrived
      ensures forall k | 0 <= k < size :: ram[k] == old(ram[k])
    {
      hide Stored, Register;
      var consume: bool, count: nat, bytes: seq<Byte> := *, *, *;
      if consume {
        var _ := HostConsume(count);
      } else {
        var _ := HostPublish(bytes);
      }
      notify := *;
    }

    /** Whatever the host does before the guest's next access. */
    method HostSteps()
      requires Valid()
      modifies `notify, `overflow, `g2hTail, `drained, `h2gHead, `arrived, ram
      ensures Valid() && HostOnly()
      ensures forall k | 0 <= k < size :: ram[k] == old(ram[k])
    {
      var steps: nat := *;
      HostRun(steps);
    }

    method HostRun(steps: nat)
      requires Valid()
      modifies `notify, `overflow, `g2hTail, `drained, `h2gHead, `arrived, ram
      ensures Valid() && old(drained) <= drained && old(arrived) <= arrived
      ensures forall k | 0 <= k < size :: ram[k] == old(ram[k])
      decreases steps
    {
      assert ram.Length == 2 * size;
      hide Channel.Valid;
      if steps > 0 {
        HostStep();
        HostRun(steps - 1);
      }
    }

    // ----- the guest's side: os/platform.h. The host may move before every register read.

    method HostReady() returns (ready: bool)
      requires Valid()
      modifies `notify, `overflow, `g2hTail, `drained, `h2gHead, `arrived, ram
      ensures Valid() && HostOnly() && ready == (notify && size > 0)
    {
      HostSteps();
      ready := notify && size != 0;
    }

    /** yan_os_transport_g2h_space */
    method G2hSpace() returns (space: nat)
      requires Valid()
      modifies `notify, `overflow, `g2hTail, `drained, `h2gHead, `arrived, ram
      ensures Valid() && HostOnly()
      ensures space == if size == 0 then 0 else size - 1 - (|sent| - drained)
    {
      HostSteps();
      if size == 0 {
        return 0;
      }
      DistanceIsCount(|sent|, drained, size);
      return size - 1 - Distance(g2hHead, g2hTail, size);
    }

    /** yan_os_transport_h2g_available */
    method H2gAvailable() returns (n: nat)
      requires Valid()
      modifies `notify, `overflow, `g2hTail, `drained, `h2gHead, `arrived, ram
      ensures Valid() && HostOnly()
      ensures n == if size == 0 then 0 else |arrived| - taken
    {
      HostSteps();
      if size == 0 {
        return 0;
      }
      DistanceIsCount(|arrived|, taken, size);
      return Distance(h2gHead, h2gTail, size);
    }

    /** The copy of g2h_push: with every free cell of the guest's ring at its disposal, the guest may
        write bytes there without changing what the host can see. */
    method WriteFree(bytes: seq<Byte>, address: nat)
      requires Valid() && size > 0 && |sent| + |bytes| < drained + size
      modifies ram
      ensures Valid() && forall j | 0 <= j < |bytes| :: ram[Wrap(g2hHead, j, size)] == bytes[j]
      ensures forall c | 0 <= c < size && Back(c, g2hHead, size) >= |bytes| :: ram[c] == old(ram[c])
    {
      ghost var was := ram[..];
      CopyIn(ram, 0, size, g2hHead, bytes, ramAddress, address);
      assert forall c | 0 <= c < size && Back(c, g2hHead, size) >= |bytes| :: ram[0 + c] == was[0 + c];
      StoredPush(was, ram[..], 0, size, sent, drained, bytes);
      StoredKept(was, ram[..], size, size, arrived, taken);
    }

    /** The register write that publishes them. */
    method SetG2hHead(position: nat, ghost bytes: seq<Byte>)
      requires Valid() && size > 0 && |sent| + |bytes| < drained + size
      requires position == (g2hHead + |bytes|) % size
      requires forall j | 0 <= j < |bytes| :: ram[Wrap(g2hHead, j, size)] == bytes[j]
      modifies `g2hHead, `sent
      ensures Valid() && sent == old(sent) + bytes
    {
      Advanced(|sent|, |bytes|, size);
      StoredPush(ram[..], ram[..], 0, size, sent, drained, bytes);
      g2hHead := position;
      sent := sent + bytes;
    }

    /** yan_os_transport_g2h_push: all of the bytes or none. It fails only if they did not fit the room
        there was at the call; from then on the host can only have made more. */
    method Push(bytes: seq<Byte>, address: nat) returns (ok: bool)
      requires Valid()
      modifies `notify, `overflow, `g2hTail, `drained, `h2gHead, `arrived, ram, `g2hHead, `sent
      ensures Valid() && sent == old(sent) + (if ok then bytes else [])
      ensures taken == old(taken) && old(drained) <= drained && old(arrived) <= arrived
      ensures size > 0 && |bytes| <= size - 1 - (|old(sent)| - old(drained)) ==> ok
    {
      HostSteps();
      if size == 0 {
        return false;
      }
      var head := g2hHead % size;
      assert head == g2hHead by { Remainder(g2hHead, 0, g2hHead, size); }
      HostSteps();
      DistanceIsCount(|sent|, drained, size);
      var used := Distance(head, g2hTail, size);
      if |bytes| > size - 1 - used {
        return false;
      }
      hide Channel.Valid;
      HostSteps();
      WriteFree(bytes, address);
      HostStepsKeep(bytes);
      SetG2hHead((head + |bytes|) % size, bytes);
      ok := true;
    }

    /** Host steps do not disturb what the guest has written and not yet published. */
    method HostStepsKeep(ghost bytes: seq<Byte>)
      requires Valid() && size > 0 && |sent| + |bytes| < drained + size
      requires forall j | 0 <= j < |bytes| :: ram[Wrap(g2hHead, j, size)] == bytes[j]
      modifies `notify, `overflow, `g2hTail, `drained, `h2gHead, `arrived, ram
      ensures Valid() && HostOnly()
      ensures forall j | 0 <= j < |bytes| :: ram[Wrap(g2hHead, j, size)] == bytes[j]
    {
      HostSteps();
    }

    /** yan_os_transport_h2g_pop: `count` bytes in arrival order, or nothing. */
    method Pop(out: array<Byte>, at: nat, count: nat, address: nat) returns (ok: bool)
      requires Valid() && out != ram && at + count <= out.Length
      modifies `notify, `overflow, `g2hTail, `drained, `h2gHead, `arrived, ram, `h2gTail, `taken, out
      ensures Valid() && taken == old(taken) + (if ok then count else 0) <= |arrived|
      ensures sent == old(sent) && old(drained) <= drained && old(arrived) <= arrived
      ensures size > 0 && count <= |old(arrived)| - old(taken) ==> ok
      ensures !ok ==> out[..] == old(out[..])
      ensures ok ==> out[at..at + count] == arrived[old(taken)..old(taken) + count]
      ensures forall k | 0 <= k < at :: out[k] == old(out[k])
      ensures forall k | at + count <= k < out.Length :: out[k] == old(out[k])
    {
      HostSteps();
      if size == 0 {
        return false;
      }
      var tail := h2gTail % size;
      assert tail == h2gTail by { Remainder(h2gTail, 0, h2gTail, size); }
      HostSteps();
      DistanceIsCount(|arrived|, taken, size);
      var available := Distance(h2gHead, tail, size);
      if count > available {
        return false;
      }
      HostSteps();
      ReadCells(out, at, count, address);
      HostSteps();
      SetH2gTail((tail + count) % size, count);
      ok := true;
    }

    method ReadCells(out: array<Byte>, at: nat, count: nat, address: nat)
      requires Valid() && size > 0 && count <= |arrived| - taken && out != ram && at + count <= out.Length
      modifies out
      ensures Valid() && out[at..at + count] == arrived[taken..taken + count]
      ensures forall k | 0 <= k < at :: out[k] == old(out[k])
      ensures forall k | at + count <= k < out.Length :: out[k] == old(out[k])
    {
      StoredPop(ram[..], size, size, arrived, taken, count);
      CopyOut(ram, size, size, h2gTail, out, at, count, ramAddress, address);
      forall k | at <= k < at + count
        ensures out[k] == arrived[taken + (k - at)]
      {
        assert ram[..][size + Wrap(h2gTail, k - at, size)] == arrived[taken + (k - at)];
      }
    }

    method SetH2gTail(position: nat, ghost count: nat)
      requires Valid() && size > 0 && count <= |arrived| - taken && position == (h2gTail + count) % size
      modifies `h2gTail, `taken
      ensures Valid() && taken == old(taken) + count
    {
      StoredPop(ram[..], size, size, arrived, taken, count);
      Advanced(taken, count, size);
      h2gTail := position;
      taken := taken + count;
    }

    /** yan_block_peek_header: the next bytes, without moving the position. */
    method Peek(out: array<Byte>, count: nat)
      requires Valid() && size > 0 && count <= |arrived| - taken && out != ram && count <= out.Length
      modifies `notify, `overflow, `g2hTail, `drained, `h2gHead, `arrived, ram, out
      ensures Valid() && HostOnly() && taken + count <= |arrived|
      ensures out[..count] == arrived[taken..taken + count]
    {
      HostSteps();
      ReadCells(out, 0, count, 0);
    }

    method Doorbell()
      requires Valid()
      modifies `bells
      ensures Valid() && bells == old(bells) + 1
    {
      bells := bells + 1;
    }
  }
}
