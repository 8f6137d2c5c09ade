/** The gVNIC receive and transmit rings of kvm/gvnic: free-running 32-bit
    counters, a sequence number from 1 to 7 that tells fresh receive descriptors
    from stale ones, and refill of the ring when half of it is drained.

    Driver and device share one object. Each access to shared memory is a step
    of its own and every step keeps one invariant, so what is proved holds for
    every interleaving of these steps. */
module Gvnic {
  import opened Bits
  import opened Rings

  /** Rings a device can report: a power of two that fits 16 bits. */
  ghost predicate RingSize(n: nat) {
    IsPow2(n) && n <= 0x8000
  }

  // ---------------------------------------------------------------- counters

  lemma DoubleMod7(x: nat)
    requires x % 7 < 7
    ensures 2 * x % 7 == if x % 7 < 4 then 2 * (x % 7) else 2 * (x % 7) - 7
  {
    if x % 7 < 4 {
      RemainderUnique(2 * x, 2 * (x / 7), 2 * (x % 7), 7);
    } else {
      RemainderUnique(2 * x, 2 * (x / 7) + 1, 2 * (x % 7) - 7, 7);
    }
  }

  lemma {:induction false} Pow2Mod7(k: nat)
    ensures Pow2(k) % 7 == 1 || Pow2(k) % 7 == 2 || Pow2(k) % 7 == 4
  {
    if k > 0 {
      Pow2Mod7(k - 1);
      DoubleMod7(Pow2(k - 1));
    }
  }

  /** A slot holds the sequence number of the previous lap until it is
      rewritten; one lap of a power-of-two ring always changes the number. */
  lemma LapChangesSequence(k: nat, size: nat)
    requires RingSize(size) && k >= size
    ensures Sequence(k - size) != Sequence(k)
  {
    var e: nat :| size == Pow2(e);
    Pow2Mod7(e);
  }

  /** The wrapped difference of two counters less than a lap of the counter apart. */
  lemma WrappedDifference(hi: nat, lo: nat)
    requires lo <= hi < lo + 0x1_0000_0000
    ensures (hi % 0x1_0000_0000 - lo % 0x1_0000_0000) % 0x1_0000_0000 == hi - lo
  {
  }

  /** Frames in flight together never share a slot exactly when the number `n`
      of slots divides the range of the counter. */
  lemma SlotReuse(n: nat)
    requires 0 < n < 0x1_0000_0000
    ensures (forall k: nat, h: nat :: k < h < k + n ==> k % 0x1_0000_0000 % n != h % 0x1_0000_0000 % n) <==>
            0x1_0000_0000 % n == 0
  {
    if 0x1_0000_0000 % n == 0 {
      forall k: nat, h: nat | k < h < k + n ensures k % 0x1_0000_0000 % n != h % 0x1_0000_0000 % n {
        DividingSlots(k, n);
        DividingSlots(h, n);
        SlotsApart(k, h, n);
        SlotIsRemainder(k, n);
        SlotIsRemainder(h, n);
      }
    } else {
      var k := SharedSlot(n);
      assert 0x1_0000_0000 % 0x1_0000_0000 % n == 0;
    }
  }

  lemma DividingSlots(k: nat, n: nat)
    requires 0 < n < 0x1_0000_0000 && 0x1_0000_0000 % n == 0
    ensures k % 0x1_0000_0000 % n == k % n
  {
    var c := 0x1_0000_0000 / n;
    assert 0x1_0000_0000 == c * n;
    ModMod(k, c, n);
  }

  /** When `n` does not divide the range, the last multiple of `n` before the
      counter wraps shares slot 0 with the frame after the wrap. */
  lemma SharedSlot(n: nat) returns (k: nat)
    requires 0 < n < 0x1_0000_0000 && 0x1_0000_0000 % n != 0
    ensures k < 0x1_0000_0000 < k + n && k % 0x1_0000_0000 % n == 0
  {
    k := 0x1_0000_0000 / n * n;
    RemainderUnique(k, 0x1_0000_0000 / n, 0, n);
    assert k % 0x1_0000_0000 == k;
  }

  // ---------------------------------------------------------------- receive

  type Bytes = seq<bv8>

  /** The fields of a receive descriptor the driver reads. */
  datatype RxDesc = RxDesc(length: nat, flagsSeq: nat)

  /** Page `s` of the queue page list starts with the bytes `p`. */
  ghost predicate Holds(qpl: Bytes, s: nat, p: Bytes) {
    |p| <= 4096 && s * 4096 + |p| <= |qpl| && qpl[s * 4096..s * 4096 + |p|] == p
  }

  /** The page list with `p` copied to the start of page `s`. */
  function Copied(qpl: Bytes, s: nat, p: Bytes): Bytes
    requires s * 4096 + |p| <= |qpl|
  {
    qpl[..s * 4096] + p + qpl[s * 4096 + |p|..]
  }

  lemma CopiedHolds(qpl: Bytes, s: nat, p: Bytes)
    requires |p| <= 4096 && s * 4096 + |p| <= |qpl|
    ensures |Copied(qpl, s, p)| == |qpl| && Holds(Copied(qpl, s, p), s, p)
  {
  }

  /** Copying to one page leaves the others alone. */
  lemma CopiedOthers(qpl: Bytes, s: nat, p: Bytes, t: nat, q: Bytes)
    requires |p| <= 4096 && s * 4096 + |p| <= |qpl| && t != s && Holds(qpl, t, q)
    ensures Holds(Copied(qpl, s, p), t, q)
  {
    var r := Copied(qpl, s, p);
    assert r[t * 4096..t * 4096 + |q|] == qpl[t * 4096..t * 4096 + |q|] by {
      forall i | t * 4096 <= i < t * 4096 + |q| ensures r[i] == qpl[i] {
      }
    }
  }

  /** The sequence number of packet `k`, from 1 to 7. */
  function Sequence(k: nat): nat {
    k % 7 + 1
  }

  /** The sequence number in a flags word. */
  function SequenceIn(flagsSeq: nat): nat {
    flagsSeq % 8
  }

  /** The length of packet `k` is in its slot. */
  ghost predicate Length(size: nat, desc: seq<RxDesc>, packets: seq<Bytes>, k: nat)
    requires size > 0 && |desc| == size && k < |packets|
  {
    desc[SlotOf(k, size)].length == |packets[k]|
  }

  /** The length in each slot is that of the last packet filled into it, or zero. */
  ghost predicate Lengths(size: nat, desc: seq<RxDesc>, packets: seq<Bytes>)
    requires size > 0
  {
    && |desc| == size
    && (forall k :: 0 <= k < |packets| < k + size + 1 ==> Length(size, desc, packets, k))
    && (forall s :: |packets| <= s < size ==> desc[s].length == 0)
  }

  /** Packet `k` is published in its slot. */
  ghost predicate Published(size: nat, desc: seq<RxDesc>, k: nat)
    requires size > 0 && |desc| == size
  {
    SequenceIn(desc[SlotOf(k, size)].flagsSeq) == Sequence(k)
  }

  /** The sequence number in each slot is that of the last packet published in it, or zero. */
  ghost predicate Sequences(size: nat, desc: seq<RxDesc>, published: nat)
    requires size > 0
  {
    && |desc| == size
    && (forall k :: 0 <= k < published < k + size + 1 ==> Published(size, desc, k))
    && (forall s :: published <= s < size ==> desc[s].flagsSeq == 0)
  }

  lemma LengthsFilled(size: nat, desc: seq<RxDesc>, desc': seq<RxDesc>, packets: seq<Bytes>, p: Bytes)
    requires size > 0 && Lengths(size, desc, packets) && |desc'| == size
    requires desc'[SlotOf(|packets|, size)].length == |p|
    requires forall s :: 0 <= s < size && s != SlotOf(|packets|, size) ==> desc'[s] == desc[s]
    ensures Lengths(size, desc', packets + [p])
  {
    var n := |packets|;
    forall k | 0 <= k <= n < k + size ensures Length(size, desc', packets + [p], k) {
      if k < n {
        assert Length(size, desc, packets, k);
        SlotsApart(k, n, size);
      }
    }
  }

  lemma DescriptorCount(size: nat, desc: seq<RxDesc>, packets: seq<Bytes>)
    requires size > 0 && Lengths(size, desc, packets)
    ensures |desc| == size
  {
  }

  lemma SameSequences(size: nat, desc: seq<RxDesc>, desc': seq<RxDesc>, published: nat)
    requires size > 0 && Sequences(size, desc, published) && |desc'| == size
    requires forall s :: 0 <= s < size ==> desc'[s].flagsSeq == desc[s].flagsSeq
    ensures Sequences(size, desc', published)
  {
    forall k | 0 <= k < published < k + size + 1 ensures Published(size, desc', k) {
      assert Published(size, desc, k);
    }
  }

  lemma SameLengths(size: nat, desc: seq<RxDesc>, desc': seq<RxDesc>, packets: seq<Bytes>)
    requires size > 0 && Lengths(size, desc, packets) && |desc'| == size
    requires forall s :: 0 <= s < size ==> desc'[s].length == desc[s].length
    ensures Lengths(size, desc', packets)
  {
    forall k | 0 <= k < |packets| < k + size + 1 ensures Length(size, desc', packets, k) {
      assert Length(size, desc, packets, k);
    }
  }

  lemma SamePublished(size: nat, desc: seq<RxDesc>, desc': seq<RxDesc>, k: nat)
    requires size > 0 && |desc| == |desc'| == size && Published(size, desc, k)
    requires desc'[SlotOf(k, size)] == desc[SlotOf(k, size)]
    ensures Published(size, desc', k)
  {
  }

  lemma SequencePublished(size: nat, desc: seq<RxDesc>, desc': seq<RxDesc>, published: nat)
    requires size > 0 && Sequences(size, desc, published) && |desc'| == size
    requires Published(size, desc', published)
    requires forall s :: 0 <= s < size && s != SlotOf(published, size) ==> desc'[s] == desc[s]
    ensures Sequences(size, desc', published + 1)
  {
    hide Published;
    forall k | 0 <= k < published < k + size ensures Published(size, desc', k) {
      SlotsApart(k, published, size);
      SamePublished(size, desc, desc', k);
    }
  }

  /** The length found in the slot of packet `k` when `filled` packets were
      filled: its own, or else that of the packet one lap before, or zero. */
  function SlotLength(size: nat, packets: seq<Bytes>, filled: nat, k: nat): nat
    requires k < filled ==> k < |packets|
    requires k <= filled <= |packets|
  {
    if k < filled then |packets[k]| else if 0 < size <= k then |packets[k - size]| else 0
  }

  /** Bytes a caller with `bufLen` bytes of room sees of a packet of this length. */
  function Visible(length: nat, bufLen: nat): nat {
    if length <= 2 then 0 else if length - 2 <= bufLen then length - 2 else bufLen
  }

  /** What a caller with `bufLen` bytes of room should get of a packet. */
  function Delivered(p: Bytes, bufLen: nat): (d: Bytes)
    ensures |d| == Visible(|p|, bufLen)
  {
    if |p| <= 2 then [] else p[2..2 + Visible(|p|, bufLen)]
  }

  /** A packet is a frame behind two bytes of padding: the frame is delivered, as
      far as it fits. */
  lemma DeliveredFrame(padding: Bytes, f: Bytes, bufLen: nat)
    requires |padding| == 2
    ensures Delivered(padding + f, bufLen) == if |f| <= bufLen then f else f[..bufLen]
  {
  }

  /** What a length delimits in page `s`, cut to the buffer. */
  function Cut(qpl: Bytes, s: nat, length: nat, bufLen: nat): (d: Bytes)
    requires s * 4096 + 4096 <= |qpl| && length <= 4096
    ensures |d| == Visible(length, bufLen)
  {
    if length <= 2 then [] else qpl[s * 4096 + 2..s * 4096 + 2 + Visible(length, bufLen)]
  }

  /** The bytes are those of the packet in the page exactly when the length in
      hand shows as many of them as the packet has. */
  lemma CutDelivers(qpl: Bytes, s: nat, p: Bytes, length: nat, bufLen: nat)
    requires s * 4096 + 4096 <= |qpl| && length <= 4096 && Holds(qpl, s, p)
    ensures Cut(qpl, s, length, bufLen) == Delivered(p, bufLen) <==> Visible(length, bufLen) == Visible(|p|, bufLen)
  {
    var n := Visible(|p|, bufLen);
    if Visible(length, bufLen) == n && n > 0 {
      assert qpl[s * 4096 + 2..s * 4096 + 2 + n] == qpl[s * 4096..s * 4096 + |p|][2..2 + n];
    }
  }

  lemma BuffersFilled(size: nat, qpl: Bytes, packets: seq<Bytes>, consumed: nat, p: Bytes)
    requires size > 0 && consumed <= |packets| < consumed + size && |p| <= 4096 && |qpl| >= size * 4096
    requires forall k :: consumed <= k < |packets| ==> Holds(qpl, SlotOf(k, size), packets[k])
    ensures SlotOf(|packets|, size) * 4096 + |p| <= |qpl|
    ensures var qpl' := Copied(qpl, SlotOf(|packets|, size), p);
            |qpl'| == |qpl| && forall k :: consumed <= k <= |packets| ==>
                Holds(qpl', SlotOf(k, size), (packets + [p])[k])
  {
    hide Holds, Copied;
    var n := |packets|;
    var slot := SlotOf(n, size);
    SlotRoom(slot, size, |qpl|);
    CopiedHolds(qpl, slot, p);
    forall k | consumed <= k < n ensures Holds(Copied(qpl, slot, p), SlotOf(k, size), packets[k]) {
      SlotsApart(k, n, size);
      CopiedOthers(qpl, slot, p, SlotOf(k, size), packets[k]);
    }
  }

  lemma SlotRoom(s: nat, size: nat, len: nat)
    requires s < size && size * 4096 <= len
    ensures s * 4096 + 4096 <= len
  {
  }

  /** Packets from `consumed` on are intact in their pages. */
  ghost predicate Intact(size: nat, qpl: Bytes, packets: seq<Bytes>, consumed: nat)
    requires size > 0
  {
    forall k :: consumed <= k < |packets| ==> Holds(qpl, SlotOf(k, size), packets[k])
  }

  lemma IntactNext(size: nat, qpl: Bytes, packets: seq<Bytes>, consumed: nat)
    requires size > 0 && Intact(size, qpl, packets, consumed)
    ensures Intact(size, qpl, packets, consumed + 1)
  {
  }

  class RxQueue {
    const size: nat
    var cnt: nat
    var fill: nat
    var seqno: nat
    var desc: seq<RxDesc>
    var data: seq<nat>
    var qpl: Bytes
    /** The fill count the device was last told. */
    var doorbell: nat

    /** Every packet the device has filled in, in order. */
    var packets: seq<Bytes>
    /** How many of them it has published by their sequence number. */
    var published: nat
    /** How many of them the driver has consumed. */
    var consumed: nat
    /** How many buffers were ever posted. */
    var posted: nat

    /** Driver counters agree with the unbounded history; at most the whole ring is posted. */
    ghost predicate Counters()
      reads this
    {
      && RingSize(size)
      && cnt == consumed % 0x1_0000_0000 && fill == posted % 0x1_0000_0000 && doorbell == fill
      && seqno == Sequence(consumed)
      && consumed <= published <= |packets| <= posted <= consumed + size
    }

    /** Unconsumed packets are intact in their buffers. */
    ghost predicate Buffers()
      reads this
      requires size > 0
    {
      && |data| == size && |qpl| >= size * 4096
      && (forall s :: 0 <= s < size ==> data[s] == s * 4096)
      && (forall k :: 0 <= k < |packets| ==> |packets[k]| <= 4096)
      && Intact(size, qpl, packets, consumed)
    }

    ghost predicate Valid()
      reads this
    {
      Filled() && posted - consumed > size / 2
    }

    /** Between two refills: everything but more than half of the ring being posted. */
    ghost predicate Filled()
      reads this
    {
      size > 0 && Counters() && Lengths(size, desc, packets) && Sequences(size, desc, published) && Buffers()
    }

    constructor (size: nat, pages: nat)
      requires RingSize(size) && size <= pages
      ensures Valid() && this.size == size && packets == [] && published == consumed == 0 && posted == size
      ensures cnt == 0 && seqno == 1 && doorbell == size
    {
      this.size := size;
      cnt, fill, seqno := 0, size, 1;
      desc := seq(size, _ => RxDesc(0, 0));
      data := seq(size, i => i * 4096);
      qpl := seq(pages * 4096, _ => 0);
      doorbell := size;
      packets, published, consumed, posted := [], 0, 0, size;
    }

    // -------------------------------------------------------------- the device

    /** The device fills in the payload and length of the next packet: never past
        the posted fill, in the slot of its number. */
    method DeviceFill(p: Bytes)
      requires Valid() && |packets| < posted && |p| <= 4096
      modifies this`desc, this`qpl, this`packets
      ensures Valid() && packets == old(packets) + [p]
    {
      var k := |packets|;
      var slot := k % size;
      SlotIsRemainder(k, size);
      RingBelowWrap(size);
      DescriptorCount(size, desc, packets);
      hide Lengths, Sequences, Holds, Copied, SlotOf, RingSize;
      SlotRoom(slot, size, |qpl|);
      BuffersFilled(size, qpl, packets, consumed, p);
      ghost var desc' := desc[slot := desc[slot].(length := |p|)];
      LengthsFilled(size, desc, desc', packets, p);
      SameSequences(size, desc, desc', published);
      desc := desc[slot := desc[slot].(length := |p|)];
      qpl := Copied(qpl, slot, p);
      packets := packets + [p];
    }

    /** The device publishes the oldest filled packet: the sequence number of its
        number, with any other flags. */
    method DevicePublish(flags: nat)
      requires Valid() && published < |packets|
      modifies this`desc, this`published
      ensures Valid() && published == old(published) + 1
      ensures desc[SlotOf(old(published), size)].flagsSeq == 8 * flags + old(published) % 7 + 1
    {
      var slot := published % size;
      SlotIsRemainder(published, size);
      var word := flags * 8 + Sequence(published);
      RemainderUnique(word, flags, Sequence(published), 8);
      ghost var desc' := desc[slot := desc[slot].(flagsSeq := word)];
      SequencePublished(size, desc, desc', published);
      SameLengths(size, desc, desc', packets);
      hide Lengths, Sequences;
      desc := desc[slot := desc[slot].(flagsSeq := word)];
      published := published + 1;
    }

    /** Anything the device may do while the driver is between two accesses. */
    method DeviceSteps()
      requires Valid()
      modifies this`desc, this`qpl, this`packets, this`published
      ensures Valid() && old(packets) <= packets && old(published) <= published
    {
      hide Lengths, Sequences, Counters, Buffers;
      var steps: nat := *;
      while steps > 0
        invariant Valid() && old(packets) <= packets && old(published) <= published
      {
        var fills: bool := *;
        var p: Bytes := *;
        var flags: bv16 := *;
        if fills && |packets| < posted && |p| <= 4096 {
          DeviceFill(p);
        } else if published < |packets| {
          DevicePublish(flags as nat);
        }
        steps := steps - 1;
      }
    }

    // -------------------------------------------------------------- the driver

    /** Advance the read cursor and refill once half of the ring is drained. */
    method Next()
      requires Valid() && consumed < published
      modifies this`cnt, this`seqno, this`fill, this`doorbell, this`consumed, this`posted
      ensures Valid() && consumed == old(consumed) + 1
      ensures cnt == (old(cnt) + 1) % 0x1_0000_0000 && seqno == if old(seqno) == 7 then 1 else old(seqno) + 1
      ensures doorbell == fill == posted % 0x1_0000_0000
      ensures posted == if old(posted) - consumed > size / 2 then old(posted) else consumed + size
    {
      hide Lengths, Sequences, Intact, Sequence;
      RingBelowWrap(size);
      IntactNext(size, qpl, packets, consumed);
      hide RingSize;
      Advance(consumed);
      cnt := (cnt + 1) % 0x1_0000_0000;
      if seqno == 7 {
        seqno := 1;
      } else {
        seqno := seqno + 1;
      }
      consumed := consumed + 1;
      Refill();
    }

    /** Half the ring or less posted: post every free buffer and ring the doorbell. */
    method Refill()
      requires Filled()
      modifies this`fill, this`doorbell, this`posted
      ensures Valid() && doorbell == fill == posted % 0x1_0000_0000
      ensures posted == if old(posted) - consumed > size / 2 then old(posted) else consumed + size
    {
      hide Lengths, Sequences, Intact, Sequence;
      RingBelowWrap(size);
      hide RingSize;
      WrappedDifference(posted, consumed);
      if (fill - cnt) % 0x1_0000_0000 > size / 2 {
        return;
      }
      WrappedSum(consumed, size);
      fill := (cnt + size) % 0x1_0000_0000;
      posted := consumed + size;
      doorbell := fill;
    }

    /** The first access of `Receive`: the length at the cursor, fresh or stale. */
    method ReadLength() returns (length: nat)
      requires Valid()
      ensures length == SlotLength(size, packets, |packets|, consumed) <= 4096
    {
      AtCursor();
      length := desc[cnt % size].length;
    }

    /** The second access: the sequence number tells whether a packet is there. */
    method ReadFresh() returns (found: bool)
      requires Valid()
      ensures found <==> consumed < published
    {
      AtCursor();
      LowBits(desc[cnt % size].flagsSeq);
      found := And(desc[cnt % size].flagsSeq, 7) == seqno;
    }

    /** The copy, with the length in hand: it delivers the packet at the cursor
        exactly when that length shows as much of it as there is. */
    method Copy(length: nat, bufLen: nat) returns (out: Bytes)
      requires Valid() && consumed < published && length <= 4096
      ensures |out| == Visible(length, bufLen)
      ensures out == Delivered(packets[consumed], bufLen) <==>
              Visible(length, bufLen) == Visible(|packets[consumed]|, bufLen)
    {
      AtCursor();
      var idx := cnt % size;
      SlotRoom(idx, size, |qpl|);
      CutDelivers(qpl, idx, packets[consumed], length, bufLen);
      out := [];
      if length > 2 {
        var off := data[idx];
        var frame := qpl[off + 2..off + length];
        out := if |frame| <= bufLen then frame else frame[..bufLen];
        assert out == Cut(qpl, idx, length, bufLen);
      }
    }

    /** Receive one frame, with the device running between any two accesses;
        `seen` packets were published at the read of the sequence number.

        A packet is consumed exactly when the second read finds one, so packets
        are consumed once each and in order. What is delivered is the packet
        exactly when the length found by the first read, at the call, shows as
        much of it as there is. */
    method Receive(bufLen: nat) returns (out: Bytes, ghost seen: nat)
      requires Valid()
      modifies this
      ensures Valid() && old(packets) <= packets && old(published) <= seen <= published
      ensures consumed == if bufLen > 0 && old(consumed) < seen then old(consumed) + 1 else old(consumed)
      ensures consumed == old(consumed) ==> out == [] && posted == old(posted)
      ensures consumed > old(consumed) ==>
          var length := SlotLength(size, old(packets), |old(packets)|, old(consumed));
          var p := packets[old(consumed)];
          && |out| == Visible(length, bufLen)
          && (out == Delivered(p, bufLen) <==> Visible(length, bufLen) == Visible(|p|, bufLen))
      ensures consumed > old(consumed) && old(consumed) < |old(packets)| ==>
          out == Delivered(packets[old(consumed)], bufLen)
    {
      hide Lengths, Sequences, Buffers, Delivered;
      out, seen := [], published;
      if bufLen == 0 {
        return;
      }
      var length := ReadLength();
      DeviceSteps();
      seen := published;
      var found := ReadFresh();
      DeviceSteps();
      if !found {
        return;
      }
      out := Copy(length, bufLen);
      DeviceSteps();
      Next();
    }

    /** What the driver sees at its cursor. */
    lemma AtCursor()
      requires Valid()
      ensures cnt % size == SlotOf(consumed, size) < |desc|
      ensures desc[cnt % size].length == SlotLength(size, packets, |packets|, consumed) <= 4096
      ensures SequenceIn(desc[cnt % size].flagsSeq) == seqno <==> consumed < published
    {
      hide Pow2, IsPow2, Holds, Lengths, Sequences, SlotOf;
      Pow2Values();
      SlotOfWrapped(consumed, size, 32);
      LengthInSlot(size, desc, packets, consumed);
      FreshSlot(size, desc, published, consumed);
    }
  }

  lemma LengthInSlot(size: nat, desc: seq<RxDesc>, packets: seq<Bytes>, k: nat)
    requires size > 0 && Lengths(size, desc, packets) && k <= |packets| <= k + size
    ensures |desc| == size && desc[SlotOf(k, size)].length == SlotLength(size, packets, |packets|, k)
  {
    if k < |packets| {
      assert Length(size, desc, packets, k);
    } else if k >= size {
      assert Length(size, desc, packets, k - size);
    }
  }

  /** The sequence number matches exactly when the slot holds a published packet
      not consumed yet: a stale or zeroed descriptor is never taken for one. */
  lemma FreshSlot(size: nat, desc: seq<RxDesc>, published: nat, k: nat)
    requires RingSize(size) && size > 0 && Sequences(size, desc, published) && k <= published <= k + size
    ensures |desc| == size
    ensures SequenceIn(desc[SlotOf(k, size)].flagsSeq) == Sequence(k) <==> k < published
  {
    hide IsPow2;
    if k < published {
      assert Published(size, desc, k);
    } else {
      if k >= size {
        LapChangesSequence(k, size);
        assert Published(size, desc, k - size);
      } else {
        assert desc[k].flagsSeq == 0;
      }
    }
  }

  /** One packet written in full. */
  method Write(q: RxQueue, p: Bytes)
    requires q.Valid() && q.published == |q.packets| < q.posted && |p| <= 4096
    modifies q`desc, q`qpl, q`packets, q`published
    ensures q.Valid() && q.packets == old(q.packets) + [p] && q.published == |q.packets|
  {
    hide Lengths, Sequences, RxQueue.Buffers;
    q.DeviceFill(p);
    q.DevicePublish(0);
  }

  /** The rest of `Receive` behind its first read, when a packet is there. */
  method Finish(q: RxQueue, length: nat, bufLen: nat) returns (out: Bytes)
    requires q.Valid() && q.consumed < q.published && length <= 4096
    modifies q`cnt, q`seqno, q`fill, q`doorbell, q`consumed, q`posted
    ensures q.Valid() && q.consumed == old(q.consumed) + 1 && q.posted >= old(q.posted)
    ensures |out| == Visible(length, bufLen)
    ensures length == |q.packets[old(q.consumed)]| ==> out == Delivered(q.packets[old(q.consumed)], bufLen)
  {
    hide Lengths, Sequences, RxQueue.Buffers, Delivered;
    var found := q.ReadFresh();
    assert found;
    out := q.Copy(length, bufLen);
    q.Next();
  }

  /** A packet that arrives between the two reads, in a slot that was never
      filled: the length in hand is zero, so the packet is consumed and nothing of
      it is delivered. */
  method LostPacketRun(q: RxQueue, p: Bytes, bufLen: nat) returns (out: Bytes)
    requires q.Valid() && q.consumed == q.published == |q.packets| < q.size
    requires 2 < |p| <= 4096 && bufLen > 0
    modifies q
    ensures q.Valid() && q.consumed == old(q.consumed) + 1 && q.packets == old(q.packets) + [p]
    ensures out == [] != Delivered(p, bufLen)
  {
    hide Lengths, Sequences, RxQueue.Buffers;
    var length := q.ReadLength();
    Write(q, p);
    out := Finish(q, length, bufLen);
  }

  /** The same on a later lap: the length of the packet one lap before is applied
      to the new one, which is wrong whenever it shows another number of bytes. */
  method StaleLengthRun(q: RxQueue, p: Bytes, bufLen: nat) returns (out: Bytes)
    requires q.Valid() && q.size <= q.consumed == q.published == |q.packets|
    requires |p| <= 4096 && bufLen > 0
    modifies q
    ensures q.Valid() && q.consumed == old(q.consumed) + 1 && q.packets == old(q.packets) + [p]
    ensures |out| == Visible(|old(q.packets[q.consumed - q.size])|, bufLen)
    ensures Visible(|old(q.packets[q.consumed - q.size])|, bufLen) != Visible(|p|, bufLen) ==>
            out != Delivered(p, bufLen)
  {
    hide Lengths, Sequences, RxQueue.Buffers, Delivered;
    var length := q.ReadLength();
    Write(q, p);
    out := Finish(q, length, bufLen);
  }

  /** In every state in which the packet at the cursor is not filled in, for every
      ring and lap, some device behaviour breaks the delivery: being filled in at
      the call is what right delivery needs, and by `Receive` all it needs. */
  method UnfilledBreaks(q: RxQueue, bufLen: nat) returns (p: Bytes, out: Bytes)
    requires q.Valid() && q.consumed == q.published == |q.packets| && bufLen > 0
    modifies q
    ensures q.Valid() && q.consumed == old(q.consumed) + 1 && q.packets == old(q.packets) + [p]
    ensures out != Delivered(p, bufLen)
  {
    hide Lengths, Sequences, RxQueue.Buffers, Delivered;
    var length := q.ReadLength();
    p := if Visible(length, bufLen) == 0 then [0, 0, 0] else [];
    Write(q, p);
    out := Finish(q, length, bufLen);
  }

  lemma LowBits(x: nat)
    ensures And(x, 7) == x % 8
  {
    assert Pow2(3) == 8;
    AndMask(x, 3);
  }

  lemma Advance(k: nat)
    ensures (k % 0x1_0000_0000 + 1) % 0x1_0000_0000 == (k + 1) % 0x1_0000_0000
    ensures Sequence(k + 1) == if Sequence(k) == 7 then 1 else Sequence(k) + 1
  {
    WrappedSum(k, 1);
    if k % 7 == 6 {
      RemainderUnique(k + 1, k / 7 + 1, 0, 7);
    } else {
      RemainderUnique(k + 1, k / 7, k % 7 + 1, 7);
    }
  }

  lemma WrappedSum(k: nat, n: nat)
    ensures (k % 0x1_0000_0000 + n) % 0x1_0000_0000 == (k + n) % 0x1_0000_0000
  {
  }

  lemma RingBelowWrap(size: nat)
    requires RingSize(size)
    ensures 0 < size <= 0x8000
  {
  }

  // ---------------------------------------------------------------- transmit

  datatype TxDesc = TxDesc(typeFlags: nat, csumOff: nat, hdrOff: nat, descCnt: nat, len: nat, segLen: nat, segAddr: nat)

  /** A device that follows the descriptor sends exactly `f`: a standard packet of
      one descriptor, without offloads, whose segment in the page list is `f`. */
  ghost predicate Sends(d: TxDesc, qpl: Bytes, f: Bytes) {
    && d.typeFlags == d.csumOff == d.hdrOff == 0 && d.descCnt == 1
    && d.len == d.segLen == |f|
    && d.segAddr + d.segLen <= |qpl| && qpl[d.segAddr..d.segAddr + d.segLen] == f
  }

  /** Frame `k` is described in its slot and stored in its page. */
  ghost predicate Queued(size: nat, pages: nat, desc: seq<TxDesc>, qpl: Bytes, f: Bytes, k: nat)
    requires size > 0 && pages > 0 && |desc| == size
  {
    && desc[SlotOf(k, size)].segAddr == SlotOf(k, pages) * 4096
    && Sends(desc[SlotOf(k, size)], qpl, f)
    && Holds(qpl, SlotOf(k, pages), f)
  }

  /** Copying to another page leaves a queued frame alone. */
  lemma QueuedOthers(size: nat, pages: nat, desc: seq<TxDesc>, qpl: Bytes, page: nat, p: Bytes, f: Bytes, k: nat)
    requires size > 0 && pages > 0 && |desc| == size && |p| <= 4096 && page * 4096 + |p| <= |qpl|
    requires page != SlotOf(k, pages) && Queued(size, pages, desc, qpl, f, k)
    ensures Queued(size, pages, desc, Copied(qpl, page, p), f, k)
  {
    hide Copied, SlotOf;
    CopiedOthers(qpl, page, p, SlotOf(k, pages), f);
  }

  class TxQueue {
    const size: nat
    const pages: nat
    var head: nat
    var tail: nat
    var desc: seq<TxDesc>
    var qpl: Bytes
    /** The completion counter the device maintains. */
    var counter: nat
    /** The head the device was last told. */
    var doorbell: nat

    /** Every frame queued so far, and how many of them the device finished. */
    var frames: seq<Bytes>
    var done: nat

    ghost predicate Shape()
      reads this
    {
      && 0 < size < 0x1_0000 && 0 < pages < 0x1_0000
      && 0x1_0000_0000 % size == 0 && 0x1_0000_0000 % pages == 0
      && |desc| == size && |qpl| == pages * 4096
    }

    /** Frames in flight fit the ring and the page list, and are intact in both. */
    ghost predicate Valid()
      reads this
    {
      && Shape()
      && done <= |frames| && |frames| - done <= size && |frames| - done <= pages
      && head == doorbell == |frames| % 0x1_0000_0000 && counter == done % 0x1_0000_0000
      && (forall k :: done <= k < |frames| ==> Queued(size, pages, desc, qpl, frames[k], k))
    }

    constructor (size: nat, pages: nat)
      requires 0 < size < 0x1_0000 && 0 < pages < 0x1_0000
      requires 0x1_0000_0000 % size == 0 && 0x1_0000_0000 % pages == 0
      ensures Valid() && this.size == size && this.pages == pages && frames == [] && done == 0
    {
      this.size, this.pages := size, pages;
      head, tail, counter, doorbell := 0, 0, 0, 0;
      desc := seq(size, _ => TxDesc(0, 0, 0, 0, 0, 0, 0));
      qpl := seq(pages * 4096, _ => 0);
      frames, done := [], 0;
    }

    /** The device finishes some of the frames in flight: its counter only moves forward. */
    method DeviceComplete(n: nat)
      requires Valid() && done + n <= |frames|
      modifies this`counter, this`done
      ensures Valid() && done == old(done) + n
    {
      WrappedSum(done, n);
      counter := (counter + n) % 0x1_0000_0000;
      done := done + n;
    }

    /** Anything the device may do while the driver is between two accesses. */
    method DeviceSteps()
      requires Valid()
      modifies this`counter, this`done
      ensures Valid() && old(done) <= done
    {
      var n: bv32 := *;
      if done + n as nat <= |frames| {
        DeviceComplete(n as nat);
      }
    }

    /** Queue one frame, unless it is too large or, `seen` frames being finished
        at the read of the counter, the ring or the page list is full. The device
        runs between any two accesses. No slot or page of an unfinished frame is
        ever written: every frame in flight stays intact, as `Valid` says. */
    method Transmit(buf: Bytes) returns (ok: bool, ghost seen: nat)
      requires Valid()
      modifies this
      ensures Valid() && old(done) <= seen <= done
      ensures ok <==> |buf| <= 4096 && |old(frames)| - seen < size && |old(frames)| - seen < pages
      ensures frames == if ok then old(frames) + [buf] else old(frames)
      ensures !ok ==> desc == old(desc) && qpl == old(qpl) && head == old(head)
      ensures |desc| == size > 0
      ensures forall k :: done <= k < |frames| ==> Sends(desc[SlotOf(k, size)], qpl, frames[k])
    {
      hide Sends, Holds;
      seen := done;
      if |buf| > 4096 {
        return false, seen;
      }
      ghost var h := |frames|;
      var idx := head % size;
      var page := head % pages;
      DividingSlots(h, size);
      DividingSlots(h, pages);
      SlotIsRemainder(h, size);
      SlotIsRemainder(h, pages);
      tail := counter;
      WrappedDifference(h, done);
      DeviceSteps();
      var inflight := (head - tail) % 0x1_0000_0000;
      if inflight >= size || inflight >= pages {
        return false, seen;
      }
      CopyFrame(buf, page);
      DeviceSteps();
      QueueFrame(buf, idx, page);
      ok := true;
    }

    /** Copy the frame into a page no frame in flight uses. */
    method CopyFrame(buf: Bytes, page: nat)
      requires Valid() && |buf| <= 4096 && |frames| - done < pages && page == SlotOf(|frames|, pages)
      modifies this`qpl
      ensures Valid() && Holds(qpl, page, buf)
    {
      hide Queued;
      SlotRoom(page, pages, |qpl|);
      CopiedHolds(qpl, page, buf);
      forall k | done <= k < |frames| ensures Queued(size, pages, desc, Copied(qpl, page, buf), frames[k], k) {
        SlotsApart(k, |frames|, pages);
        QueuedOthers(size, pages, desc, qpl, page, buf, frames[k], k);
      }
      qpl := Copied(qpl, page, buf);
    }

    /** Describe it in a slot no frame in flight uses, and ring the doorbell. */
    method QueueFrame(buf: Bytes, idx: nat, page: nat)
      requires Valid() && |frames| - done < size && |frames| - done < pages
      requires idx == SlotOf(|frames|, size) && page == SlotOf(|frames|, pages) && Holds(qpl, page, buf)
      modifies this`desc, this`head, this`doorbell, this`frames
      ensures Valid() && frames == old(frames) + [buf]
    {
      hide SlotOf;
      var d := TxDesc(0, 0, 0, 1, |buf|, |buf|, page * 4096);
      ghost var desc' := desc[idx := d];
      forall k | done <= k < |frames| ensures Queued(size, pages, desc', qpl, frames[k], k) {
        SlotsApart(k, |frames|, size);
      }
      assert Queued(size, pages, desc', qpl, buf, |frames|);
      hide Queued;
      desc := desc[idx := d];
      Advance(|frames|);
      head := (head + 1) % 0x1_0000_0000;
      doorbell := head;
      frames := frames + [buf];
    }
  }
}
