/** The split virtqueue of kvm/virtio/queue.go as a protocol between driver and
    device. Driver and device share one object. Each access of the driver to
    shared memory and each action of the device is a step of its own and keeps
    one invariant, so what is proved holds for every interleaving of these steps
    with a device that follows section 2.7 of VIRTIO 1.2. */
module Virtio {
  import opened Bits
  import opened Rings
  import opened Wire
  import opened VirtioLayout

  /** A completion: the descriptor the device returned and the bytes it wrote to it. */
  datatype Completion = Completion(id: nat, bytes: seq<byte>)

  /** Where a descriptor is: available as entry `k`, with the device, or returned as completion `k`. */
  datatype Place = Posted(k: nat) | Held | Returned(k: nat)

  // ---------------------------------------------------------------- ownership

  /** Entry `k` of the available ring offers a descriptor that is there and nowhere else. */
  ghost predicate PostedAt(size: nat, ring: seq<nat>, place: seq<Place>, k: nat)
    requires size > 0 && |ring| == size && |place| == size
  {
    ring[SlotOf(k, size)] < size && place[ring[SlotOf(k, size)]] == Posted(k)
  }

  ghost predicate ReturnedAt(size: nat, done: seq<Completion>, place: seq<Place>, k: nat)
    requires |place| == size && k < |done|
  {
    done[k].id < size && place[done[k].id] == Returned(k)
  }

  /** A descriptor is where the rings say it is. */
  ghost predicate Placed(size: nat, ring: seq<nat>, done: seq<Completion>, last: nat, taken: nat, p: Place, id: nat)
    requires size > 0 && |ring| == size
  {
    match p
    case Posted(k) => taken <= k < last + size && ring[SlotOf(k, size)] == id
    case Returned(k) => last <= k < |done| && done[k].id == id
    case Held => true
  }

  /** `last` completions were popped and `taken` entries taken by the device;
      `last + size` entries were ever made available. Every descriptor is in
      exactly one place, and the rings agree with it. */
  ghost predicate Ownership(size: nat, ring: seq<nat>, done: seq<Completion>, last: nat, taken: nat, place: seq<Place>)
    requires size > 0
  {
    && |ring| == size && |place| == size
    && last <= |done| <= taken <= last + size
    && (forall k :: taken <= k < last + size ==> PostedAt(size, ring, place, k))
    && (forall k :: last <= k < |done| ==> ReturnedAt(size, done, place, k))
    && (forall id :: 0 <= id < size ==> Placed(size, ring, done, last, taken, place[id], id))
  }

  /** The device takes the next available descriptor. */
  lemma TakeKeeps(size: nat, ring: seq<nat>, done: seq<Completion>, last: nat, taken: nat, place: seq<Place>)
    requires size > 0 && Ownership(size, ring, done, last, taken, place) && taken < last + size
    ensures ring[SlotOf(taken, size)] < size
    ensures Ownership(size, ring, done, last, taken + 1, place[ring[SlotOf(taken, size)] := Held])
  {
    var id := ring[SlotOf(taken, size)];
    assert PostedAt(size, ring, place, taken);
    var place' := place[id := Held];
    forall k | taken + 1 <= k < last + size ensures PostedAt(size, ring, place', k) {
      assert PostedAt(size, ring, place, k);
    }
    forall k | last <= k < |done| ensures ReturnedAt(size, done, place', k) {
      assert ReturnedAt(size, done, place, k);
    }
    forall i | 0 <= i < size ensures Placed(size, ring, done, last, taken + 1, place'[i], i) {
      assert Placed(size, ring, done, last, taken, place[i], i);
    }
  }

  /** The device returns a descriptor it holds. */
  lemma ReturnKeeps(size: nat, ring: seq<nat>, done: seq<Completion>, last: nat, taken: nat, place: seq<Place>,
      c: Completion)
    requires size > 0 && Ownership(size, ring, done, last, taken, place)
    requires c.id < size && place[c.id] == Held && |done| < taken
    ensures Ownership(size, ring, done + [c], last, taken, place[c.id := Returned(|done|)])
  {
    var place' := place[c.id := Returned(|done|)];
    var done' := done + [c];
    forall k | taken <= k < last + size ensures PostedAt(size, ring, place', k) {
      assert PostedAt(size, ring, place, k);
    }
    forall k | last <= k < |done'| ensures ReturnedAt(size, done', place', k) {
      if k < |done| { assert ReturnedAt(size, done, place, k); }
    }
    forall i | 0 <= i < size ensures Placed(size, ring, done', last, taken, place'[i], i) {
      assert Placed(size, ring, done, last, taken, place[i], i);
    }
  }

  /** The driver pops the oldest completion and offers its descriptor again, in
      a slot that no entry still to be taken uses. */
  lemma PopKeeps(size: nat, ring: seq<nat>, done: seq<Completion>, last: nat, taken: nat, place: seq<Place>)
    requires size > 0 && Ownership(size, ring, done, last, taken, place) && last < |done|
    ensures done[last].id < size && place[done[last].id] == Returned(last)
    ensures forall k :: taken <= k < last + size ==> SlotOf(k, size) != SlotOf(last + size, size)
    ensures Ownership(size, ring[SlotOf(last + size, size) := done[last].id], done, last + 1, taken,
                      place[done[last].id := Posted(last + size)])
  {
    var id := done[last].id;
    assert ReturnedAt(size, done, place, last);
    var s := SlotOf(last + size, size);
    var ring', place' := ring[s := id], place[id := Posted(last + size)];
    forall k | taken <= k < last + size ensures SlotOf(k, size) != s {
      SlotsApart(k, last + size, size);
    }
    forall k | taken <= k < last + 1 + size ensures PostedAt(size, ring', place', k) {
      if k < last + size { assert PostedAt(size, ring, place, k); }
    }
    forall k | last + 1 <= k < |done| ensures ReturnedAt(size, done, place', k) {
      assert ReturnedAt(size, done, place, k);
    }
    forall i | 0 <= i < size ensures Placed(size, ring', done, last + 1, taken, place'[i], i) {
      assert Placed(size, ring, done, last, taken, place[i], i);
    }
  }

  // ---------------------------------------------------------------- the used ring

  /** The used ring entry at slot `s`. */
  function UsedId(used: seq<byte>, s: nat): nat
    requires 4 + 8 * s + 8 <= |used|
  {
    Get32(used, 4 + 8 * s)
  }

  function UsedLength(used: seq<byte>, s: nat): nat
    requires 4 + 8 * s + 8 <= |used|
  {
    Get32(used, 4 + 8 * s + 4)
  }

  /** The used ring in memory lists the completions from `last` on. */
  ghost predicate UsedRing(size: nat, used: seq<byte>, done: seq<Completion>, last: nat)
    requires size > 0
  {
    && |used| == 6 + 8 * size
    && Get16(used, 2) == |done| % 0x1_0000
    && (forall k :: last <= k < |done| ==> UsedAt(size, used, done[k], k))
  }

  ghost predicate UsedAt(size: nat, used: seq<byte>, c: Completion, k: nat)
    requires size > 0 && |used| == 6 + 8 * size
  {
    UsedId(used, SlotOf(k, size)) == c.id && UsedLength(used, SlotOf(k, size)) == |c.bytes|
  }

  /** Descriptor buffers still hold what the device wrote. */
  ghost predicate Filled(data: seq<seq<byte>>, done: seq<Completion>, last: nat) {
    forall k :: last <= k < |done| ==>
      done[k].id < |data| && |done[k].bytes| <= |data[done[k].id]|
      && data[done[k].id][..|done[k].bytes|] == done[k].bytes
  }

  /** The used ring memory after the device writes entry `s` and its index. */
  function UsedPut(used: seq<byte>, s: nat, id: nat, length: nat, index: nat): (r: seq<byte>)
    requires 4 + 8 * s + 8 <= |used|
    ensures |r| == |used|
  {
    Put(Put(used, 4 + 8 * s, U32(id) + U32(length)), 2, U16(index))
  }

  lemma UsedPutRead(used: seq<byte>, s: nat, id: nat, length: nat, index: nat)
    requires 4 + 8 * s + 8 <= |used| && id < 0x1_0000_0000 && length < 0x1_0000_0000 && index < 0x1_0000
    ensures var r := UsedPut(used, s, id, length, index);
            UsedId(r, s) == id && UsedLength(r, s) == length && Get16(r, 2) == index
  {
    hide Get16, Get32, U16, U32;
    var r := UsedPut(used, s, id, length, index);
    var o := 4 + 8 * s;
    var entry := U32(id) + U32(length);
    assert r[o..o + 8] == entry;
    assert r[o..o + 4] == entry[..4] == U32(id);
    assert r[o + 4..o + 8] == entry[4..] == U32(length);
    Get32OfU32(r, o, id);
    Get32OfU32(r, o + 4, length);
    Get16OfU16(r, 2, index);
  }

  /** What the driver reads of an entry the device wrote (section 2.7.8 of VIRTIO
      1.2): the descriptor, then the length. */
  lemma UsedPutFields(used: seq<byte>, s: nat, id: nat, length: nat, index: nat)
    requires 4 + 8 * s + 8 <= |used| && id < 0x1_0000_0000 && length < 0x1_0000_0000 && index < 0x1_0000
    ensures var r := UsedPut(used, s, id, length, index);
            Get32(r, 4 + 8 * s) == id && Get32(r, 8 + 8 * s) == length && Get16(r, 2) == index
  {
    hide Get16, Get32, UsedPut;
    UsedPutRead(used, s, id, length, index);
  }

  lemma UsedPutOthers(used: seq<byte>, s: nat, id: nat, length: nat, index: nat, t: nat)
    requires 4 + 8 * s + 8 <= |used| && 4 + 8 * t + 8 <= |used| && t != s
    ensures var r := UsedPut(used, s, id, length, index);
            UsedId(r, t) == UsedId(used, t) && UsedLength(r, t) == UsedLength(used, t)
  {
  }

  lemma UsedReturned(size: nat, used: seq<byte>, done: seq<Completion>, last: nat, c: Completion)
    requires size > 0 && UsedRing(size, used, done, last) && last <= |done| < last + size
    requires c.id < 0x1_0000_0000 && |c.bytes| < 0x1_0000_0000
    ensures UsedRing(size, UsedPut(used, SlotOf(|done|, size), c.id, |c.bytes|, (|done| + 1) % 0x1_0000), done
            + [c], last)
  {
    hide Get16, Get32, UsedPut, UsedId, UsedLength;
    var n := |done|;
    var s := SlotOf(n, size);
    var index := (n + 1) % 0x1_0000;
    var used' := UsedPut(used, s, c.id, |c.bytes|, index);
    UsedPutRead(used, s, c.id, |c.bytes|, index);
    forall k | last <= k < n + 1 ensures UsedAt(size, used', (done + [c])[k], k) {
      if k < n {
        assert UsedAt(size, used, done[k], k);
        SlotsApart(k, n, size);
        UsedPutOthers(used, s, c.id, |c.bytes|, index, SlotOf(k, size));
      }
    }
  }

  // ---------------------------------------------------------------- the queue

  lemma ReducedSlot(k: nat, c: nat, size: nat)
    requires c * size == 0x1_0000 && c > 0 && size > 0
    ensures k % 0x1_0000 % size == k % size
  {
    ModMod(k, c, size);
  }

  /** The slot of a 16-bit index is the slot of the unbounded count, for every
      count, exactly for sizes that are powers of two. */
  lemma SlotsExact(size: nat)
    requires 0 < size < 0x1_0000
    ensures (forall k: nat :: k % 0x1_0000 % size == k % size) <==> IsPow2(size)
  {
    Pow2Values();
    if IsPow2(size) {
      var c := Pow2Divides(size, 16);
      hide IsPow2, Pow2;
      forall k: nat ensures k % 0x1_0000 % size == k % size {
        ReducedSlot(k, c, size);
      }
    } else {
      hide IsPow2, Pow2;
      if 0x1_0000 % size == 0 {
        DivisorOfPow2(0x1_0000 / size, size, 16);
      }
      assert 0x1_0000 % 0x1_0000 % size == 0;
    }
  }

  datatype PopResult = Empty | TooSmall(need: nat) | Popped(n: nat, buf: seq<byte>)

  /** Descriptor `i` addresses the `i`-th slice of one reservation at `base`. */
  function InitialDescriptors(size: nat, length: nat, flags: nat, base: nat): (ds: seq<Descriptor>)
    ensures |ds| == size
  {
    seq(size, (i: nat) => Descriptor(base + length * i, length, flags, 0))
  }

  lemma InitialAt(size: nat, length: nat, flags: nat, base: nat, i: nat)
    requires i < size
    ensures InitialDescriptors(size, length, flags, base)[i] == Descriptor(base + length * i, length, flags, 0)
  {
  }

  /** What a device finds in the memory of descriptor `i`: the address and length of
      its buffer, its flags, and no next descriptor. */
  ghost predicate DeviceSees(b: seq<byte>, i: nat, address: nat, length: nat, flags: nat) {
    && 16 * i + 16 <= |b|
    && Get32(b, 16 * i) + 0x1_0000_0000 * Get32(b, 16 * i + 4) == address
    && Get32(b, 16 * i + 8) == length && Get16(b, 16 * i + 12) == flags && Get16(b, 16 * i + 14) == 0
  }

  lemma InitialRead(size: nat, length: nat, flags: nat, base: nat, i: nat)
    requires i < size && base + length * size <= 0x1_0000_0000_0000_0000
    requires 0 < length < 0x1_0000_0000 && flags < 0x1_0000
    ensures var table := DescriptorTable(InitialDescriptors(size, length, flags, base));
            DeviceSees(table, i, base + length * i, length, flags)
  {
    hide InitialDescriptors, DescriptorTable, Get16, Get32;
    InitialAt(size, length, flags, base, i);
    SlicesApart(size, length, i, size);
    DescriptorRead(InitialDescriptors(size, length, flags, base), i);
  }

  lemma InitialSeen(size: nat, length: nat, flags: nat, base: nat)
    ensures base + length * size <= 0x1_0000_0000_0000_0000 && 0 < length < 0x1_0000_0000 && flags < 0x1_0000 ==>
        var table := DescriptorTable(InitialDescriptors(size, length, flags, base));
        forall i :: 0 <= i < size ==> DeviceSees(table, i, base + length * i, length, flags)
  {
    hide DeviceSees, DescriptorTable, InitialDescriptors;
    if base + length * size <= 0x1_0000_0000_0000_0000 && 0 < length < 0x1_0000_0000 && flags < 0x1_0000 {
      var table := DescriptorTable(InitialDescriptors(size, length, flags, base));
      forall i | 0 <= i < size ensures DeviceSees(table, i, base + length * i, length, flags) {
        InitialRead(size, length, flags, base, i);
      }
    }
  }

  /** The slices of one reservation are disjoint and inside it. */
  lemma SlicesApart(size: nat, length: nat, i: nat, j: nat)
    requires i < j <= size
    ensures length * i + length <= length * j <= length * size
  {
    assert length * j == length * (i + 1) + length * (j - i - 1);
    assert length * size == length * j + length * (size - j);
  }

  function Identity(size: nat): (r: seq<nat>)
    ensures |r| == size && forall i :: 0 <= i < size ==> r[i] == i
  {
    seq(size, (i: nat) => i)
  }

  ghost function InitialPlace(size: nat): (p: seq<Place>)
    ensures |p| == size && forall i :: 0 <= i < size ==> p[i] == Posted(i)
  {
    seq(size, (i: nat) => Posted(i))
  }

  lemma InitialOwnership(size: nat, used: seq<byte>)
    requires size > 0 && |used| == 6 + 8 * size && forall i :: 0 <= i < |used| ==> used[i] == 0
    ensures Ownership(size, Identity(size), [], 0, 0, InitialPlace(size))
    ensures UsedRing(size, used, [], 0) && forall s :: 0 <= s < size ==> UsedId(used, s) == 0
  {
  }

  class VirtualQueue {
    const size: nat
    /** Physical addresses of the descriptor, driver and device areas. */
    const desc: nat
    const driver: nat
    const device: nat
    var descriptors: seq<Descriptor>
    var avail: Available
    /** `Used.last`, the next completion to pop. */
    var last: nat

    // DMA memory: descriptor area, driver area, device area, descriptor buffers
    var descBuf: seq<byte>
    var availBuf: seq<byte>
    var usedBuf: seq<byte>
    var data: seq<seq<byte>>

    // the device: descriptors it holds, entries taken, completions written
    var held: set<nat>
    var taken: nat
    var done: seq<Completion>

    ghost var consumed: nat
    ghost var place: seq<Place>

    ghost predicate Shape()
      reads `descriptors, `avail, `last, `usedBuf, `data
    {
      && IsPow2(size) && 0 < size <= 4096
      && |descriptors| == size && |data| == size && |avail.ring| == size
      && (forall i :: 0 <= i < size ==> avail.ring[i] < size)
      && avail.index < 0x1_0000 && last < 0x1_0000
      && |usedBuf| == 6 + 8 * size
      && (forall s :: 0 <= s < size ==> UsedId(usedBuf, s) < size)
    }

    /** Descriptor and available-ring memory is the serialisation of the fields. */
    ghost predicate Mirror()
      reads `descriptors, `avail, `last, `usedBuf, `data, `descBuf, `availBuf
    {
      && Shape()
      && descBuf == DescriptorTable(descriptors)
      && 6 + 2 * size <= |availBuf| && availBuf[..6 + 2 * size] == AvailableBytes(avail)
    }

    ghost function Now(): State
      reads this
    {
      State(avail.ring, avail.index, last, usedBuf, data, done, held, consumed, taken, place)
    }

    /** The ownership protocol of a receive queue. */
    ghost predicate Receiving()
      reads this
    {
      && Mirror()
      && Protocol(size, Now())
    }

    /** `Init` with all buffers in one DMA reservation at `base` and the queue in
        another at `area`. */
    constructor (size: nat, length: nat, flags: nat, base: nat, area: nat)
      requires IsPow2(size) && 0 < size <= 4096
      ensures this.size == size && Mirror() && last == 0
      ensures desc == area && driver == area + 16 * size && (device - area) % 4096 == 0
      ensures driver + 6 + 2 * size <= device < driver + 6 + 2 * size + 4096
      ensures base + length * size <= 0x1_0000_0000_0000_0000 && 0 < length < 0x1_0000_0000 && flags < 0x1_0000 ==>
          forall i :: 0 <= i < size ==> DeviceSees(descBuf, i, base + length * i, length, flags)
      ensures descriptors == InitialDescriptors(size, length, flags, base)
      ensures avail == Available(0, if flags == 2 then size else 0, Identity(size), 0)
      ensures forall i :: 0 <= i < size ==> |data[i]| == length
      ensures flags == 2 ==> Receiving() && consumed == 0 && taken == 0 && done == []
    {
      hide InitialDescriptors, DescriptorTable, AvailableBytes, Ownership, UsedRing, IsPow2;
      this.size := size;
      var ds := InitialDescriptors(size, length, flags, base);
      var ring := Identity(size);
      var a := Available(0, if flags == 2 then size % 0x1_0000 else 0, ring, 0);
      var used := seq(6 + 8 * size, _ => 0);
      var q := QueueBytes(ds, a, used);
      desc, driver, device := area, area + q.1, area + q.2;
      descriptors, avail, last := ds, a, 0;
      descBuf, availBuf, usedBuf := q.0[..q.1], q.0[q.1..q.2], q.0[q.2..];
      data := seq(size, _ => seq(length, _ => 0));
      held, taken, done := {}, 0, [];
      consumed, place := 0, InitialPlace(size);
      new;
      InitialOwnership(size, used);
      hide DeviceSees;
      InitialSeen(size, length, flags, base);
      assert availBuf[..6 + 2 * size] == q.0[q.1..q.1 + 6 + 2 * size];
    }

    /** Write `v` as ring entry `n`, in memory and in the fields. */
    method SetRingIndex(n: nat, v: nat)
      requires Mirror() && n < size && v < size
      modifies this`availBuf, this`avail
      ensures Mirror() && avail == old(avail).(ring := old(avail).ring[n := v])
    {
      var off := RingOffset(n);
      OffsetsExact(size);
      RingWrite(avail, n, v);
      PutPrefix(availBuf, 6 + 2 * size, off, U16(v));
      availBuf := Put(availBuf, off, U16(v));
      avail := avail.(ring := avail.ring[n := v]);
    }

    method SetIndex(index: nat)
      requires Mirror() && index < 0x1_0000
      modifies this`availBuf, this`avail
      ensures Mirror() && avail == old(avail).(index := index)
    {
      IndexWrite(avail, index);
      PutPrefix(availBuf, 6 + 2 * size, 2, U16(index));
      availBuf := Put(availBuf, 2, U16(index));
      avail := avail.(index := index);
    }

    /** Write the length of descriptor `index`, in memory and in the fields. */
    method SetLength(index: nat, length: nat)
      requires Mirror() && index < size
      modifies this`descBuf, this`descriptors
      ensures Mirror() && descriptors == old(descriptors)[index := old(descriptors)[index].(length := length)]
    {
      var off := LengthOffset(index);
      OffsetsExact(size);
      LengthWrite(descriptors, index, length);
      descBuf := Put(descBuf, off, U32(length));
      descriptors := descriptors[index := descriptors[index].(length := length)];
    }

    /** `Available.Ring`: the entry in memory, which the fields already hold. */
    method RingEntry(n: nat) returns (index: nat)
      requires Mirror() && n < size
      modifies this`avail
      ensures avail == old(avail) && index == avail.ring[n]
    {
      OffsetsExact(size);
      AvailableRead(avail, n);
      index := Get16(availBuf, RingOffset(n));
      assert index == Get16(AvailableBytes(avail), 4 + 2 * n);
      avail := avail.(ring := avail.ring[n := index]);
      assert avail.ring == old(avail).ring;
    }

    /** Offer a descriptor filled from `b`; the memory stays the serialisation of the fields. */
    method Push(b: seq<byte>)
      requires Mirror() && |b| < 0x1_0000_0000
      modifies this`availBuf, this`avail, this`descBuf, this`descriptors, this`data
      ensures Mirror()
      ensures var i := old(avail).ring[SlotOf(old(avail).index, size)];
              && avail == old(avail).(index := (old(avail).index + 1) % 0x1_0000)
              && descriptors == old(descriptors)[i := old(descriptors)[i].(length := |b|)]
              && data == old(data)[i := Copy(old(data)[i], b)]
    {
      hide DescriptorTable, AvailableBytes, Copy, IsPow2, UsedId;
      var n := avail.index % size;
      SlotIsRemainder(avail.index, size);
      var index := RingEntry(n);
      SetLength(index, |b|);
      data := data[index := Copy(data[index], b)];
      SetRingIndex(n, index);
      assert avail.ring == old(avail).ring;
      SetIndex((avail.index + 1) % 0x1_0000);
    }

    /** Offer a popped descriptor again, in memory and in the fields. */
    method Offer(id: nat)
      requires Mirror() && id < size
      modifies this`availBuf, this`avail, this`last
      ensures Mirror()
      ensures avail == old(avail).(ring := old(avail).ring[SlotOf(old(avail).index, size) := id],
                                   index := (old(avail).index + 1) % 0x1_0000)
      ensures last == (old(last) + 1) % 0x1_0000
    {
      hide DescriptorTable, AvailableBytes, IsPow2, UsedId;
      SlotIsRemainder(avail.index, size);
      SetRingIndex(avail.index % size, id);
      Advance();
    }

    /** Offer the next ring entry by the index, and advance the cursor. */
    method Advance()
      requires Mirror()
      modifies this`availBuf, this`avail, this`last
      ensures Mirror() && avail == old(avail).(index := (old(avail).index + 1) % 0x1_0000)
      ensures last == (old(last) + 1) % 0x1_0000
    {
      hide DescriptorTable, AvailableBytes, IsPow2, UsedId;
      SetIndex((avail.index + 1) % 0x1_0000);
      last := (last + 1) % 0x1_0000;
    }

    /** Receive one used buffer; the memory stays the serialisation of the fields. */
    method Pop(buf: seq<byte>) returns (r: PopResult)
      requires Mirror()
      modifies this`availBuf, this`avail, this`last
      ensures Mirror()
      ensures r.Empty? <==> Get16(usedBuf, 2) == old(last)
      ensures !r.Empty? ==>
          var s := SlotOf(old(last), size);
          var id, length := UsedId(usedBuf, s), UsedLength(usedBuf, s);
          && id == Get32(usedBuf, 4 + 8 * s) && length == Get32(usedBuf, 8 + 8 * s)
          && (if |buf| < length then r == TooSmall(length) else r == Popped(length, Copy(buf, data[id])))
          && (r.Popped? ==>
                && avail == old(avail).(ring := old(avail).ring[SlotOf(old(avail).index, size) := id],
                                        index := (old(avail).index + 1) % 0x1_0000)
                && last == (old(last) + 1) % 0x1_0000)
      ensures !r.Popped? ==> avail == old(avail) && availBuf == old(availBuf) && last == old(last)
    {
      hide DescriptorTable, AvailableBytes, Copy, IsPow2;
      if Get16(usedBuf, 2) == last {
        return Empty;
      }
      var n := last % size;
      SlotIsRemainder(last, size);
      OffsetsExact(size);
      var off := UsedOffset(n);
      var id, length := Get32(usedBuf, off), Get32(usedBuf, off + 4);
      assert id == UsedId(usedBuf, n) && length == UsedLength(usedBuf, n);
      if |buf| < length {
        return TooSmall(length);
      }
      r := Popped(length, Copy(buf, data[id]));
      Offer(id);
    }

    /** `Pop` under the protocol, with the device running between any two of its
        accesses; `seen` completions were written when it read the used index.
        Completions are delivered once each, in the order the device wrote them;
        one that does not fit stays. */
    method Receive(buf: seq<byte>) returns (r: PopResult, ghost seen: nat)
      requires Receiving()
      modifies this
      ensures Receiving() && old(done) <= done && |old(done)| <= seen <= |done|
      ensures r.Empty? <==> old(consumed) == seen
      ensures old(consumed) < seen ==>
          var c := done[old(consumed)];
          if |buf| < |c.bytes| then r == TooSmall(|c.bytes|)
          else r.Popped? && r.n == |c.bytes| && |r.buf| == |buf| && r.buf[..r.n] == c.bytes
      ensures consumed == if r.Popped? then old(consumed) + 1 else old(consumed)
    {
      hide Mirror, Protocol, Copy, UsedId, UsedLength, SlotOf, Get16, Get32;
      PopReads(size, Now());
      seen := |done|;
      var index := Get16(usedBuf, 2);
      DeviceSteps();
      if index == last {
        return Empty, seen;
      }
      ghost var c := done[consumed];
      var id, length := UsedEntry();
      DeviceSteps();
      if |buf| < length {
        return TooSmall(length), seen;
      }
      PopReads(size, Now());
      CopiedPrefix(buf, data[id], length);
      r := Popped(length, Copy(buf, data[id]));
      DeviceSteps();
      WriteEntry(id);
      DeviceSteps();
      WriteIndex(id);
    }

    /** A call of `Pop` that the device does not interrupt is a run of `Receive`. */
    method ReceiveByPop(buf: seq<byte>) returns (r: PopResult)
      requires Receiving()
      modifies this`availBuf, this`avail, this`last, this`consumed, this`place
      ensures Receiving()
      ensures r.Empty? <==> old(consumed) == |done|
      ensures old(consumed) < |done| ==>
          var c := done[old(consumed)];
          if |buf| < |c.bytes| then r == TooSmall(|c.bytes|)
          else r.Popped? && r.n == |c.bytes| && |r.buf| == |buf| && r.buf[..r.n] == c.bytes
      ensures consumed == if r.Popped? then old(consumed) + 1 else old(consumed)
    {
      hide Mirror, Protocol;
      ghost var st := Now();
      PopReads(size, st);
      r := Pop(buf);
      if r.Popped? {
        PopProtocol(size, st, avail.ring, avail.index, last);
        place := place[done[consumed].id := Posted(consumed + size)];
        consumed := consumed + 1;
      }
    }

    /** The used entry at the cursor. */
    method UsedEntry() returns (id: nat, length: nat)
      requires Receiving() && consumed < |done|
      ensures id == done[consumed].id < size && length == |done[consumed].bytes|
    {
      hide DescriptorTable, AvailableBytes, Ownership, Filled, HeldIn;
      PopReads(size, Now());
      SlotIsRemainder(last, size);
      OffsetsExact(size);
      var off := UsedOffset(last % size);
      id, length := Get32(usedBuf, off), Get32(usedBuf, off + 4);
      assert id == UsedId(usedBuf, last % size) && length == UsedLength(usedBuf, last % size);
    }

    /** Write the popped descriptor to the next ring entry, which the index does not offer yet. */
    method WriteEntry(id: nat)
      requires Receiving() && consumed < |done| && id == done[consumed].id < size
      modifies this`availBuf, this`avail
      ensures Receiving() && avail.index == old(avail).index
      ensures avail.ring == old(avail).ring[SlotOf(avail.index, size) := id]
    {
      ghost var st := Now();
      SlotIsRemainder(avail.index, size);
      EntryProtocol(size, st, id);
      hide Protocol;
      SetRingIndex(avail.index % size, id);
    }

    /** Offer it by the index, and advance the cursor. */
    method WriteIndex(ghost id: nat)
      requires Receiving() && consumed < |done| && id == done[consumed].id < size
      requires |avail.ring| == size && avail.ring[SlotOf(avail.index, size)] == id
      modifies this`availBuf, this`avail, this`last, this`consumed, this`place
      ensures Receiving() && consumed == old(consumed) + 1
    {
      hide Protocol, Mirror, SlotOf, Get16, Get32;
      ghost var st := Now();
      PopReads(size, st);
      assert avail.ring == avail.ring[SlotOf(avail.index, size) := id];
      PopProtocol(size, st, avail.ring, (avail.index + 1) % 0x1_0000, (last + 1) % 0x1_0000);
      Advance();
      place := place[id := Posted(consumed + size)];
      consumed := consumed + 1;
    }

    /** Anything the device may do while the driver is between two accesses. */
    method DeviceSteps()
      requires Receiving()
      modifies this`held, this`taken, this`place, this`usedBuf, this`data, this`done
      ensures Receiving() && old(done) <= done
    {
      hide Protocol, Mirror;
      var steps: nat := *;
      while steps > 0
        invariant Receiving() && old(done) <= done
      {
        var take: bool := *;
        var id: nat := *;
        var bytes: seq<byte> := *;
        if take {
          var some := Offered();
          if some { id := DeviceTake(); }
        } else if id in held && id < size && id < |data| && |bytes| <= |data[id]| && |bytes| < 0x1_0000_0000 {
          DeviceReturn(id, bytes);
        }
        steps := steps - 1;
      }
    }

    /** Whether the index in memory offers an entry that was not taken. */
    method Offered() returns (some: bool)
      requires Receiving()
      ensures |availBuf| >= 6 && (some <==> Get16(availBuf, 2) != taken % 0x1_0000)
    {
      some := Get16(availBuf, 2) != taken % 0x1_0000;
    }

    lemma SizePositive()
      requires Mirror()
      ensures size > 0
    {
    }

    /** The available ring in memory is that of the fields. */
    lemma OfferedEntry(n: nat)
      requires Mirror() && n < size
      ensures |availBuf| >= 6 + 2 * size && |avail.ring| == size
      ensures Get16(availBuf, 2) == avail.index && Get16(availBuf, 4 + 2 * n) == avail.ring[n]
    {
      AvailableRead(avail, n);
      assert Get16(availBuf, 2) == Get16(AvailableBytes(avail), 2);
      assert Get16(availBuf, 4 + 2 * n) == Get16(AvailableBytes(avail), 4 + 2 * n);
    }

    /** The device takes the next available entry, when the index in memory says there is one. */
    method DeviceTake() returns (id: nat)
      requires Receiving() && Get16(availBuf, 2) != taken % 0x1_0000
      modifies this`held, this`taken, this`place
      ensures Receiving() && taken == old(taken) + 1 && held == old(held) + {id} && id !in old(held)
    {
      var n := taken % size;
      SizePositive();
      SlotIsRemainder(taken, size);
      OfferedEntry(n);
      hide Mirror, Protocol, SlotOf, Get16;
      id := Get16(availBuf, 4 + 2 * n);
      ghost var st := Now();
      TakeProtocol(size, st);
      taken := taken + 1;
      held := held + {id};
      place := place[id := Held];
      assert Now() == st.(taken := taken, held := held, place := place);
    }

    /** The device returns a descriptor it holds, in any order, after writing `bytes` to its buffer. */
    method DeviceReturn(id: nat, bytes: seq<byte>)
      requires Receiving() && id in held && id < size && |bytes| <= |data[id]| && |bytes| < 0x1_0000_0000
      modifies this`held, this`usedBuf, this`data, this`done, this`place
      ensures Receiving() && held == old(held) - {id} && done == old(done) + [Completion(id, bytes)]
      ensures var s := SlotOf(|old(done)|, size);
              && Get32(usedBuf, 4 + 8 * s) == id && Get32(usedBuf, 8 + 8 * s) == |bytes|
              && Get16(usedBuf, 2) == |done| % 0x1_0000
    {
      hide Protocol, UsedPut, DescriptorTable, AvailableBytes, IsPow2, Copy, UsedId;
      ghost var st := Now();
      var slot := |done| % size;
      SlotIsRemainder(|done|, size);
      ReturnProtocol(size, st, Completion(id, bytes));
      ReturnShape(size, usedBuf, slot, id, |bytes|, (|done| + 1) % 0x1_0000);
      UsedPutFields(usedBuf, slot, id, |bytes|, (|done| + 1) % 0x1_0000);
      data := data[id := Copy(data[id], bytes)];
      usedBuf := UsedPut(usedBuf, slot, id, |bytes|, (|done| + 1) % 0x1_0000);
      held := held - {id};
      place := place[id := Returned(|done|)];
      done := done + [Completion(id, bytes)];
    }
  }

  // ---------------------------------------------------------------- protocol steps

  /** Driver and device counters, the memory of the used ring and of the
      buffers, and where every descriptor is. */
  datatype State = State(ring: seq<nat>, index: nat, last: nat, used: seq<byte>, data: seq<seq<byte>>,
                         done: seq<Completion>, held: set<nat>, consumed: nat, taken: nat, place: seq<Place>)

  ghost predicate Protocol(size: nat, st: State) {
    match st
    case State(ring, index, last, used, data, done, held, consumed, taken, place) =>
      && IsPow2(size) && 0 < size <= 4096 && |data| == size
      && index == (consumed + size) % 0x1_0000 && last == consumed % 0x1_0000
      && Ownership(size, ring, done, consumed, taken, place)
      && UsedRing(size, used, done, consumed)
      && Filled(data, done, consumed)
      && held == HeldIn(place) && |held| == taken - |done|
  }

  /** What the driver reads of the rings in a protocol state. */
  lemma PopReads(size: nat, st: State)
    requires Protocol(size, st)
    ensures size > 0 && SlotOf(st.last, size) == SlotOf(st.consumed, size)
            && SlotOf(st.index, size) == SlotOf(st.consumed + size, size)
    ensures |st.used| == 6 + 8 * size && (Get16(st.used, 2) == st.last <==> st.consumed == |st.done|)
    ensures st.consumed <= |st.done| && |st.ring| == size
    ensures st.consumed < |st.done| ==>
        var c := st.done[st.consumed];
        && UsedId(st.used, SlotOf(st.last, size)) == c.id && UsedLength(st.used, SlotOf(st.last, size)) == |c.bytes|
        && c.id < |st.data| && |c.bytes| <= |st.data[c.id]| && st.data[c.id][..|c.bytes|] == c.bytes
  {
    hide Ownership, Filled, HeldIn, IsPow2, Get16, Get32;
    Cursors(size, st.consumed);
    Bounds(size, st);
    WrapsApart(st.consumed, |st.done|);
    if st.consumed < |st.done| {
      assert UsedAt(size, st.used, st.done[st.consumed], st.consumed);
      FilledAt(st.data, st.done, st.consumed, st.consumed);
    }
  }

  lemma Bounds(size: nat, st: State)
    requires Protocol(size, st)
    ensures st.consumed <= |st.done| <= st.taken <= st.consumed + size && |st.ring| == |st.place| == size
  {
  }

  lemma UsedShrinks(size: nat, used: seq<byte>, done: seq<Completion>, last: nat)
    requires size > 0 && UsedRing(size, used, done, last)
    ensures UsedRing(size, used, done, last + 1)
  {
  }

  lemma FilledShrinks(data: seq<seq<byte>>, done: seq<Completion>, last: nat)
    requires Filled(data, done, last)
    ensures Filled(data, done, last + 1)
  {
  }

  lemma FilledAt(data: seq<seq<byte>>, done: seq<Completion>, last: nat, k: nat)
    requires Filled(data, done, last) && last <= k < |done|
    ensures var c := done[k];
            c.id < |data| && |c.bytes| <= |data[c.id]| && data[c.id][..|c.bytes|] == c.bytes
  {
  }

  /** The cursors of the driver are in the slots of the unbounded counts. */
  lemma Cursors(size: nat, consumed: nat)
    requires IsPow2(size) && 0 < size <= 4096
    ensures SlotOf(consumed % 0x1_0000, size) == SlotOf(consumed, size)
    ensures SlotOf((consumed + size) % 0x1_0000, size) == SlotOf(consumed + size, size)
  {
    Pow2Values();
    hide Pow2, IsPow2, SlotOf;
    SlotOfWrapped(consumed, size, 16);
    SlotIsRemainder(consumed % 0x1_0000, size);
    SlotOfWrapped(consumed + size, size, 16);
    SlotIsRemainder((consumed + size) % 0x1_0000, size);
  }

  /** The entry the driver writes before it advances the index is not offered
      yet, so writing it keeps the protocol. */
  lemma EntryProtocol(size: nat, st: State, id: nat)
    requires Protocol(size, st) && st.consumed < |st.done| && id < size
    ensures size > 0 && |st.ring| == size
    ensures Protocol(size, st.(ring := st.ring[SlotOf(st.index, size) := id]))
  {
    PopReads(size, st);
    EntryKeeps(size, st.ring, st.done, st.consumed, st.taken, st.place, id);
  }

  lemma EntryKeeps(size: nat, ring: seq<nat>, done: seq<Completion>, last: nat, taken: nat, place: seq<Place>, id: nat)
    requires size > 0 && Ownership(size, ring, done, last, taken, place) && last < |done|
    ensures Ownership(size, ring[SlotOf(last + size, size) := id], done, last, taken, place)
  {
    var ring' := ring[SlotOf(last + size, size) := id];
    forall k | taken <= k < last + size ensures ring'[SlotOf(k, size)] == ring[SlotOf(k, size)] {
      SlotsApart(k, last + size, size);
    }
    forall k | taken <= k < last + size ensures PostedAt(size, ring', place, k) {
      assert PostedAt(size, ring, place, k);
    }
    forall i | 0 <= i < size ensures Placed(size, ring', done, last, taken, place[i], i) {
      assert Placed(size, ring, done, last, taken, place[i], i);
    }
  }

  lemma CopiedPrefix(buf: seq<byte>, b: seq<byte>, n: nat)
    requires n <= |buf| && n <= |b|
    ensures |Copy(buf, b)| == |buf| && Copy(buf, b)[..n] == b[..n]
  {
  }

  /** Popping the oldest completion keeps the protocol. */
  lemma PopProtocol(size: nat, st: State, ring: seq<nat>, index: nat, last: nat)
    requires Protocol(size, st) && st.consumed < |st.done|
    requires size > 0 && |st.ring| == size && |st.used| == 6 + 8 * size
    requires ring == st.ring[SlotOf(st.index, size) := UsedId(st.used, SlotOf(st.last, size))]
    requires index == (st.index + 1) % 0x1_0000 && last == (st.last + 1) % 0x1_0000
    ensures var id := st.done[st.consumed].id;
            && id < |st.place|
            && Protocol(size, State(ring, index, last, st.used, st.data, st.done, st.held, st.consumed + 1, st.taken,
                                    st.place[id := Posted(st.consumed + size)]))
  {
    hide Ownership, UsedRing, Filled, HeldIn, UsedId, UsedLength, IsPow2, SlotOf, Get16;
    PopReads(size, st);
    PopKeeps(size, st.ring, st.done, st.consumed, st.taken, st.place);
    Bounds(size, st);
    HeldKept(st.place, st.done[st.consumed].id, Posted(st.consumed + size));
    UsedShrinks(size, st.used, st.done, st.consumed);
    FilledShrinks(st.data, st.done, st.consumed);
    NextIndex(st.consumed);
    NextIndex(st.consumed + size);
  }

  /** Taking an available entry keeps the protocol. */
  lemma TakeProtocol(size: nat, st: State)
    requires Protocol(size, st) && st.index != st.taken % 0x1_0000
    ensures size > 0 && |st.ring| == size && |st.place| == size && st.ring[SlotOf(st.taken, size)] < size
    ensures var id := st.ring[SlotOf(st.taken, size)];
            && id !in st.held
            && Protocol(size, st.(taken := st.taken + 1, held := st.held + {id}, place := st.place[id := Held]))
  {
    WrapsApart(st.taken, st.consumed + size);
    var id := st.ring[SlotOf(st.taken, size)];
    assert PostedAt(size, st.ring, st.place, st.taken);
    TakeKeeps(size, st.ring, st.done, st.consumed, st.taken, st.place);
    HeldTaken(st.place, id);
  }

  /** Returning a held descriptor keeps the protocol. */
  lemma ReturnProtocol(size: nat, st: State, c: Completion)
    requires Protocol(size, st) && c.id in st.held && c.id < |st.data| && |c.bytes| <= |st.data[c.id]|
    requires |c.bytes| < 0x1_0000_0000
    ensures size > 0 && |st.place| == size && |st.used| == 6 + 8 * size
    ensures Protocol(size, st.(
              data := st.data[c.id := Copy(st.data[c.id], c.bytes)],
              used := UsedPut(st.used, SlotOf(|st.done|, size), c.id, |c.bytes|, (|st.done| + 1) % 0x1_0000),
              held := st.held - {c.id}, done := st.done + [c], place := st.place[c.id := Returned(|st.done|)]))
  {
    hide Ownership, UsedRing, Filled, HeldIn, UsedPut, SlotOf, IsPow2, Copy;
    HeldReturned(st.place, c.id, |st.done|);
    NotReturned(size, st.ring, st.done, st.consumed, st.taken, st.place, c.id);
    assert st.held != {};
    ReturnKeeps(size, st.ring, st.done, st.consumed, st.taken, st.place, c);
    UsedReturned(size, st.used, st.done, st.consumed, c);
    FilledReturned(st.data, st.done, st.consumed, c);
    UsedSize(size, st.used, st.done, st.consumed);
  }

  lemma NotReturned(size: nat, ring: seq<nat>, done: seq<Completion>, last: nat, taken: nat, place: seq<Place>, id: nat)
    requires size > 0 && Ownership(size, ring, done, last, taken, place) && id < |place| && place[id] == Held
    ensures |place| == size && last <= |done| <= taken <= last + size
    ensures forall k :: last <= k < |done| ==> done[k].id != id
  {
    forall k | last <= k < |done| ensures done[k].id != id {
      assert ReturnedAt(size, done, place, k);
    }
  }

  lemma UsedSize(size: nat, used: seq<byte>, done: seq<Completion>, last: nat)
    requires size > 0 && UsedRing(size, used, done, last)
    ensures |used| == 6 + 8 * size
  {
  }

  lemma FilledReturned(data: seq<seq<byte>>, done: seq<Completion>, last: nat, c: Completion)
    requires Filled(data, done, last) && c.id < |data| && |c.bytes| <= |data[c.id]|
    requires forall k :: last <= k < |done| ==> done[k].id != c.id
    ensures Filled(data[c.id := Copy(data[c.id], c.bytes)], done + [c], last)
  {
  }

  lemma ReturnShape(size: nat, used: seq<byte>, slot: nat, id: nat, length: nat, index: nat)
    requires |used| == 6 + 8 * size && slot < size && id < size <= 4096 && length < 0x1_0000_0000 && index < 0x1_0000
    requires forall s :: 0 <= s < size ==> UsedId(used, s) < size
    ensures forall s :: 0 <= s < size ==> UsedId(UsedPut(used, slot, id, length, index), s) < size
  {
    UsedPutRead(used, slot, id, length, index);
    forall s | 0 <= s < size ensures UsedId(UsedPut(used, slot, id, length, index), s) < size {
      if s != slot { UsedPutOthers(used, slot, id, length, index, s); }
    }
  }

  lemma HeldTaken(place: seq<Place>, id: nat)
    requires id < |place| && place[id] != Held
    ensures id !in HeldIn(place) && HeldIn(place[id := Held]) == HeldIn(place) + {id}
  {
    var place' := place[id := Held];
    assert forall i :: 0 <= i < |place| ==> (place'[i] == Held <==> place[i] == Held || i == id);
  }

  lemma HeldReturned(place: seq<Place>, id: nat, k: nat)
    requires id in HeldIn(place)
    ensures id < |place| && place[id] == Held && HeldIn(place[id := Returned(k)]) == HeldIn(place) - {id}
  {
    var place' := place[id := Returned(k)];
    assert forall i :: 0 <= i < |place| ==> (place'[i] == Held <==> place[i] == Held && i != id);
  }

  /** The descriptors with the device. */
  ghost function HeldIn(place: seq<Place>): set<nat> {
    set i | 0 <= i < |place| && place[i] == Held
  }

  lemma HeldKept(place: seq<Place>, id: nat, p: Place)
    requires id < |place| && place[id] != Held && p != Held
    ensures HeldIn(place[id := p]) == HeldIn(place)
  {
    var place' := place[id := p];
    assert forall i :: 0 <= i < |place| ==> (place'[i] == Held <==> place[i] == Held);
  }

  lemma NextIndex(k: nat)
    ensures (k % 0x1_0000 + 1) % 0x1_0000 == (k + 1) % 0x1_0000
  {
  }

  lemma WrapsApart(lo: nat, hi: nat)
    requires lo <= hi < lo + 0x1_0000
    ensures hi % 0x1_0000 == lo % 0x1_0000 <==> lo == hi
  {
    if hi % 0x1_0000 == lo % 0x1_0000 { CloseCongruent(lo, hi, 0x1_0000); }
  }
}
