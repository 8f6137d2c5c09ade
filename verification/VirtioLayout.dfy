/** The split virtqueue of kvm/virtio/queue.go in DMA memory, section 2.7 of
    VIRTIO 1.2: the serialisation of its structures, and the single-field
    writes that must keep memory and Go-side fields equal. */
module VirtioLayout {
  import opened Wire

  datatype Descriptor = Descriptor(address: nat, length: nat, flags: nat, next: nat)

  datatype Available = Available(flags: nat, index: nat, ring: seq<nat>, eventIndex: nat)

  function DescriptorBytes(d: Descriptor): (b: seq<byte>)
    ensures |b| == 16
  {
    U64(d.address) + U32(d.length) + U16(d.flags) + U16(d.next)
  }

  function DescriptorBlocks(ds: seq<Descriptor>): (bs: seq<seq<byte>>)
    ensures |bs| == |ds| && Width(bs, 16)
  {
    seq(|ds|, i requires 0 <= i < |ds| => DescriptorBytes(ds[i]))
  }

  function RingBlocks(ring: seq<nat>): (bs: seq<seq<byte>>)
    ensures |bs| == |ring| && Width(bs, 2)
  {
    seq(|ring|, i requires 0 <= i < |ring| => U16(ring[i]))
  }

  function DescriptorTable(ds: seq<Descriptor>): (b: seq<byte>)
    ensures |b| == 16 * |ds|
  {
    JoinLength(DescriptorBlocks(ds), 16);
    Join(DescriptorBlocks(ds))
  }

  function AvailableBytes(a: Available): (b: seq<byte>)
    ensures |b| == 6 + 2 * |a.ring|
  {
    JoinLength(RingBlocks(a.ring), 2);
    U16(a.flags) + U16(a.index) + Join(RingBlocks(a.ring)) + U16(a.eventIndex)
  }

  /** The queue memory and its driver and device area offsets: descriptors, the
      available ring, padding to a page, then the used ring. */
  function QueueBytes(ds: seq<Descriptor>, a: Available, used: seq<byte>): (r: (seq<byte>, nat, nat))
    ensures r.1 == 16 * |ds| && r.2 % 4096 == 0 && r.1 + 6 + 2 * |a.ring| <= r.2 < r.1 + 6 + 2 * |a.ring| + 4096
    ensures |r.0| == r.2 + |used|
    ensures r.0[..r.1] == DescriptorTable(ds)
    ensures r.0[r.1..r.1 + 6 + 2 * |a.ring|] == AvailableBytes(a)
    ensures r.0[r.2..] == used
  {
    hide DescriptorTable, AvailableBytes, PagePadding;
    var table, avail := DescriptorTable(ds), AvailableBytes(a);
    var padding: seq<byte> := seq(PagePadding(|table| + |avail|), _ => 0);
    Areas(table, avail, padding, used);
    (table + avail + padding + used, |table|, |table| + |avail| + |padding|)
  }

  function PagePadding(n: nat): (pad: nat)
    ensures pad < 4096 && (n + pad) % 4096 == 0
  {
    if n % 4096 != 0 then 4096 - n % 4096 else 0
  }

  lemma Areas(table: seq<byte>, avail: seq<byte>, padding: seq<byte>, used: seq<byte>)
    ensures var all := table + avail + padding + used;
            && all[..|table|] == table && all[|table|..|table| + |avail|] == avail
            && all[|table| + |avail| + |padding|..] == used
  {
  }

  // ---------------------------------------------------------------- single-field writes

  lemma PutPrefix(buf: seq<byte>, m: nat, off: nat, b: seq<byte>)
    requires m <= |buf| && off + |b| <= m
    ensures Put(buf, off, b)[..m] == Put(buf[..m], off, b)
  {
  }

  /** `SetIndex` writes exactly the index field. */
  lemma IndexWrite(a: Available, index: nat)
    ensures AvailableBytes(a.(index := index)) == Put(AvailableBytes(a), 2, U16(index))
  {
    PutMiddle(U16(a.flags), U16(a.index), Join(RingBlocks(a.ring)) + U16(a.eventIndex), U16(index));
    assert AvailableBytes(a) == U16(a.flags) + U16(a.index) + (Join(RingBlocks(a.ring)) + U16(a.eventIndex));
    assert AvailableBytes(a.(index := index)) ==
           U16(a.flags) + U16(index) + (Join(RingBlocks(a.ring)) + U16(a.eventIndex));
  }

  /** `SetRingIndex` writes exactly one ring entry. */
  lemma RingWrite(a: Available, n: nat, v: nat)
    requires n < |a.ring|
    ensures AvailableBytes(a.(ring := a.ring[n := v])) == Put(AvailableBytes(a), 4 + 2 * n, U16(v))
  {
    var bs := RingBlocks(a.ring);
    assert RingBlocks(a.ring[n := v]) == bs[n := U16(v)];
    JoinUpdate(bs, n, U16(v), 2);
    JoinLength(bs, 2);
    PutShifted(U16(a.flags) + U16(a.index), Join(bs), U16(a.eventIndex), 2 * n, U16(v));
  }

  lemma PutShifted(p: seq<byte>, x: seq<byte>, q: seq<byte>, off: nat, b: seq<byte>)
    requires off + |b| <= |x|
    ensures Put(p + x + q, |p| + off, b) == p + Put(x, off, b) + q
  {
  }

  lemma SliceShifted(p: seq<byte>, x: seq<byte>, q: seq<byte>, off: nat, n: nat)
    requires off + n <= |x|
    ensures (p + x + q)[|p| + off..|p| + off + n] == x[off..off + n]
  {
  }

  /** The available ring and index can be read back from memory. */
  lemma AvailableRead(a: Available, n: nat)
    requires n < |a.ring| && a.ring[n] < 0x1_0000 && a.index < 0x1_0000
    ensures Get16(AvailableBytes(a), 4 + 2 * n) == a.ring[n]
    ensures Get16(AvailableBytes(a), 2) == a.index
    ensures a.flags < 0x1_0000 ==> Get16(AvailableBytes(a), 0) == a.flags
    ensures a.eventIndex < 0x1_0000 ==> Get16(AvailableBytes(a), 4 + 2 * |a.ring|) == a.eventIndex
  {
    var b := AvailableBytes(a);
    var t := Join(RingBlocks(a.ring));
    JoinLength(RingBlocks(a.ring), 2);
    JoinRead(RingBlocks(a.ring), n, 2);
    SliceShifted(U16(a.flags) + U16(a.index), t, U16(a.eventIndex), 2 * n, 2);
    Get16OfU16(b, 4 + 2 * n, a.ring[n]);
    assert b[2..4] == U16(a.index);
    Get16OfU16(b, 2, a.index);
    assert b[0..2] == U16(a.flags);
    if a.flags < 0x1_0000 { Get16OfU16(b, 0, a.flags); }
    assert b[4 + 2 * |a.ring|..6 + 2 * |a.ring|] == U16(a.eventIndex);
    if a.eventIndex < 0x1_0000 { Get16OfU16(b, 4 + 2 * |a.ring|, a.eventIndex); }
  }

  /** The length update of `Push` writes exactly one descriptor's length field. */
  lemma LengthWrite(ds: seq<Descriptor>, i: nat, length: nat)
    requires i < |ds|
    ensures 16 * i + 12 <= |DescriptorTable(ds)|
    ensures DescriptorTable(ds[i := ds[i].(length := length)]) == Put(DescriptorTable(ds), 16 * i + 8, U32(length))
  {
    var bs := DescriptorBlocks(ds);
    var d := ds[i].(length := length);
    assert DescriptorBlocks(ds[i := d]) == bs[i := DescriptorBytes(d)];
    JoinSplit(bs, i, 16);
    JoinSplit(bs[i := DescriptorBytes(d)], i, 16);
    assert bs[i := DescriptorBytes(d)][..i] == bs[..i] && bs[i := DescriptorBytes(d)][i + 1..] == bs[i + 1..];
    LengthField(ds[i], length);
    PutShifted(Join(bs[..i]), bs[i], Join(bs[i + 1..]), 8, U32(length));
  }

  lemma LengthField(d: Descriptor, length: nat)
    ensures DescriptorBytes(d.(length := length)) == Put(DescriptorBytes(d), 8, U32(length))
  {
    var tail := U16(d.flags) + U16(d.next);
    PutMiddle(U64(d.address), U32(d.length), tail, U32(length));
    assert DescriptorBytes(d) == U64(d.address) + U32(d.length) + tail;
    assert DescriptorBytes(d.(length := length)) == U64(d.address) + U32(length) + tail;
  }

  lemma DescriptorFields(d: Descriptor)
    ensures var b := DescriptorBytes(d);
            && b[..4] == U32(d.address % 0x1_0000_0000) && b[4..8] == U32(d.address / 0x1_0000_0000)
            && b[8..12] == U32(d.length) && b[12..14] == U16(d.flags) && b[14..] == U16(d.next)
  {
  }

  /** What a device reads of descriptor `i` (section 2.7.5 of VIRTIO 1.2): the
      address, the length, the flags and the next field, in this order. */
  lemma DescriptorRead(ds: seq<Descriptor>, i: nat)
    requires i < |ds| && ds[i].address < 0x1_0000_0000_0000_0000 && ds[i].length < 0x1_0000_0000
    requires ds[i].flags < 0x1_0000 && ds[i].next < 0x1_0000
    ensures |DescriptorTable(ds)| >= 16 * i + 16
    ensures var b := DescriptorTable(ds);
            && Get32(b, 16 * i) + 0x1_0000_0000 * Get32(b, 16 * i + 4) == ds[i].address
            && Get32(b, 16 * i + 8) == ds[i].length
            && Get16(b, 16 * i + 12) == ds[i].flags && Get16(b, 16 * i + 14) == ds[i].next
  {
    hide U16, U32, Get16, Get32;
    var b, d, o := DescriptorTable(ds), ds[i], 16 * i;
    JoinRead(DescriptorBlocks(ds), i, 16);
    assert b[o..o + 16] == DescriptorBytes(d);
    DescriptorFields(d);
    assert b[o..o + 4] == b[o..o + 16][..4] && b[o + 4..o + 8] == b[o..o + 16][4..8];
    assert b[o + 8..o + 12] == b[o..o + 16][8..12];
    assert b[o + 12..o + 14] == b[o..o + 16][12..14] && b[o + 14..o + 16] == b[o..o + 16][14..];
    Get32OfU32(b, o, d.address % 0x1_0000_0000);
    Get32OfU32(b, o + 4, d.address / 0x1_0000_0000);
    Get32OfU32(b, o + 8, d.length);
    Get16OfU16(b, o + 12, d.flags);
    Get16OfU16(b, o + 14, d.next);
  }

  // ---------------------------------------------------------------- 16-bit offsets

  /** `8 + index*16` in 16-bit arithmetic. */
  function LengthOffset(index: nat): nat { (8 + index * 16) % 0x1_0000 }

  /** `4 + n*2` in 16-bit arithmetic. */
  function RingOffset(n: nat): nat { (4 + n * 2) % 0x1_0000 }

  /** `4 + n*8` in 16-bit arithmetic. */
  function UsedOffset(n: nat): nat { (4 + n * 8) % 0x1_0000 }

  /** No offset of a queue wraps exactly when it has at most 4096 descriptors;
      in a larger one the length of descriptor 4096 lands on descriptor 0. */
  lemma OffsetsExact(size: nat)
    ensures (forall n :: 0 <= n < size ==>
               LengthOffset(n) == 8 + 16 * n && RingOffset(n) == 4 + 2 * n && UsedOffset(n) == 4 + 8 * n)
            <==> size <= 4096
    ensures LengthOffset(4096) == LengthOffset(0)
  {
    if size > 4096 {
      assert LengthOffset(4096) == 8;
    }
  }
}
