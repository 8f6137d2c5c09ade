/** Property tags of the BCM2835 mailbox, soc/bcm2835/mailbox.go: the encode and
    decode loops over the shared message buffer. */
module Mailbox {
  import opened Bits
  import opened Wire
  import Dma

  datatype Tag = Tag(id: nat, buffer: seq<byte>)

  datatype Decoded = Tags(tags: seq<Tag>) | Panic

  /** Bytes a tag takes: three header words and the data padded to a word, in
      32-bit arithmetic. */
  function TagSize(n: nat): nat {
    (12 + And((n + 3) % 0x1_0000_0000, 0xffff_fffc)) % 0x1_0000_0000
  }

  /** A tag whose identifier fits a word and whose size does not wrap around. */
  ghost predicate Encodable(t: Tag) {
    t.id < 0x1_0000_0000 && |t.buffer| < 0xffff_fff0
  }

  lemma TagSizeExact(n: nat)
    requires n < 0xffff_fff0
    ensures TagSize(n) == 12 + (n + 3) / 4 * 4 && 12 + n <= TagSize(n) < 0x1_0000_0000
  {
    hide And;
    var x := n + 3;
    WordMask(x);
    RemainderUnique(x, 0, x, 0x1_0000_0000);
    RemainderUnique(12 + x / 4 * 4, 0, 12 + x / 4 * 4, 0x1_0000_0000);
  }

  lemma WordMask(x: nat)
    requires x < 0x1_0000_0000
    ensures And(x, 0xffff_fffc) == x / 4 * 4
  {
    hide And, Shl, Pow2;
    Pow2Values();
    var q := x / 4;
    ShlIsProduct(q, 2);
    ShlIsProduct(0x3fff_ffff, 2);
    AndSplit(q, x % 4, 0x3fff_ffff, 0, 2);
    AndOnes(q, 30);
    NoBits(x % 4);
  }

  lemma NoBits(x: nat)
    ensures And(x, 0) == 0
  {
  }

  /** Offset of tag `i`; with `i` the number of tags, of the terminator. */
  function Offset(tags: seq<Tag>, i: nat): (o: nat)
    requires i <= |tags|
    ensures o >= 8
  {
    if i == 0 then 8 else Offset(tags, i - 1) + TagSize(|tags[i - 1].buffer|)
  }

  lemma {:induction false} OffsetGrows(tags: seq<Tag>, i: nat, j: nat)
    requires i < j <= |tags| && forall k :: 0 <= k < |tags| ==> Encodable(tags[k])
    ensures Offset(tags, i) + 12 + |tags[i].buffer| <= Offset(tags, i + 1) <= Offset(tags, j)
    decreases j
  {
    assert Encodable(tags[i]);
    TagSizeExact(|tags[i].buffer|);
    if i + 1 < j {
      OffsetGrows(tags, i, j - 1);
    }
  }

  /** Bytes of all tags: three words and the data padded to a word, each. */
  function Padded(tags: seq<Tag>): nat {
    if tags == [] then 0 else 12 + (|tags[0].buffer| + 3) / 4 * 4 + Padded(tags[1..])
  }

  lemma {:induction false} PaddedAppend(tags: seq<Tag>, t: Tag)
    ensures Padded(tags + [t]) == Padded(tags) + 12 + (|t.buffer| + 3) / 4 * 4
    decreases |tags|
  {
    if tags == [] {
      assert (tags + [t])[1..] == [];
    } else {
      assert (tags + [t])[1..] == tags[1..] + [t];
      PaddedAppend(tags[1..], t);
    }
  }

  /** The size of a message before any enlargement: two header words, the tags, the terminator. */
  method MessageSize(tags: seq<Tag>) returns (size: nat)
    requires AllEncodable(tags)
    ensures size == 8 + Padded(tags) + 4
  {
    hide TagSize, Padded;
    size := 8;
    NoTags();
    for i := 0 to |tags|
      invariant size == 8 + Padded(tags[..i])
    {
      TagSizeExact(|tags[i].buffer|);
      PaddedAppend(tags[..i], tags[i]);
      assert tags[..i + 1] == tags[..i] + [tags[i]];
      size := size + TagSize(|tags[i].buffer|);
    }
    assert tags[..|tags|] == tags;
    size := size + 4;
  }

  lemma NoTags()
    ensures Padded([]) == 0
  {
  }

  /** The encode loop ends where the size loop said: the terminator is the last word. */
  lemma {:induction false} OffsetIsPadded(tags: seq<Tag>, i: nat)
    requires AllEncodable(tags) && i <= |tags|
    ensures Offset(tags, i) == 8 + Padded(tags[..i])
    decreases i
  {
    if i == 0 {
      assert tags[..0] == [];
    } else {
      OffsetIsPadded(tags, i - 1);
      TagSizeExact(|tags[i - 1].buffer|);
      PaddedAppend(tags[..i - 1], tags[i - 1]);
      assert tags[..i] == tags[..i - 1] + [tags[i - 1]];
    }
  }

  /** The buffer holds tag `t` at `off`. */
  ghost predicate TagAt(buf: seq<byte>, off: nat, t: Tag) {
    && off + 12 + |t.buffer| <= |buf|
    && Get32(buf, off) == t.id && Get32(buf, off + 4) == |t.buffer|
    && buf[off + 12..off + 12 + |t.buffer|] == t.buffer
  }

  ghost predicate AllEncodable(tags: seq<Tag>) {
    forall k :: 0 <= k < |tags| ==> Encodable(tags[k])
  }

  ghost predicate TagsAt(buf: seq<byte>, tags: seq<Tag>, n: nat)
    requires n <= |tags|
  {
    forall k :: 0 <= k < n ==> TagAt(buf, Offset(tags, k), tags[k])
  }

  /** The buffer holds tag `t` as a request: its third word is zero. */
  ghost predicate RequestAt(buf: seq<byte>, off: nat, t: Tag) {
    TagAt(buf, off, t) && Get32(buf, off + 8) == 0
  }

  ghost predicate RequestsAt(buf: seq<byte>, tags: seq<Tag>, n: nat)
    requires n <= |tags|
  {
    forall k :: 0 <= k < n ==> RequestAt(buf, Offset(tags, k), tags[k])
  }

  lemma RequestsAreTags(buf: seq<byte>, tags: seq<Tag>)
    requires RequestsAt(buf, tags, |tags|)
    ensures TagsAt(buf, tags, |tags|)
  {
    forall k | 0 <= k < |tags| ensures TagAt(buf, Offset(tags, k), tags[k]) {
      assert RequestAt(buf, Offset(tags, k), tags[k]);
    }
  }

  lemma RequestAtKept(buf: seq<byte>, off: nat, t: Tag, at: nat, b: seq<byte>)
    requires RequestAt(buf, off, t) && off + 12 + |t.buffer| <= at && at + |b| <= |buf|
    ensures RequestAt(Put(buf, at, b), off, t)
  {
    var r := Put(buf, at, b);
    assert r[off + 12..off + 12 + |t.buffer|] == buf[off + 12..off + 12 + |t.buffer|];
  }

  lemma RequestsAtKept(buf: seq<byte>, tags: seq<Tag>, n: nat, at: nat, b: seq<byte>)
    requires n <= |tags| && AllEncodable(tags) && RequestsAt(buf, tags, n)
    requires Offset(tags, n) <= at && at + |b| <= |buf|
    ensures RequestsAt(Put(buf, at, b), tags, n)
  {
    forall k | 0 <= k < n ensures RequestAt(Put(buf, at, b), Offset(tags, k), tags[k]) {
      OffsetGrows(tags, k, n);
      RequestAtKept(buf, Offset(tags, k), tags[k], at, b);
    }
  }

  /** The buffer after one pass of the encode loop. */
  function WithTag(buf: seq<byte>, off: nat, t: Tag): (r: seq<byte>)
    requires off + 12 + |t.buffer| <= |buf|
    ensures |r| == |buf|
  {
    Put(Put(Put(Put(buf, off, U32(t.id)), off + 4, U32(|t.buffer|)), off + 8, U32(0)), off + 12, t.buffer)
  }

  lemma WithTagReads(buf: seq<byte>, off: nat, t: Tag)
    requires off + 12 + |t.buffer| <= |buf| && Encodable(t)
    ensures RequestAt(WithTag(buf, off, t), off, t)
  {
    hide U32, Get32;
    var r := WithTag(buf, off, t);
    assert r[off..off + 4] == U32(t.id);
    assert r[off + 4..off + 8] == U32(|t.buffer|);
    Get32OfU32(r, off, t.id);
    assert r[off + 8..off + 12] == U32(0);
    Get32OfU32(r, off + 4, |t.buffer|);
    Get32OfU32(r, off + 8, 0);
  }

  lemma WithTagKeeps(buf: seq<byte>, tags: seq<Tag>, n: nat)
    requires n < |tags| && AllEncodable(tags) && RequestsAt(buf, tags, n)
    requires Offset(tags, n) + 12 + |tags[n].buffer| <= |buf|
    ensures RequestsAt(WithTag(buf, Offset(tags, n), tags[n]), tags, n + 1)
  {
    hide U32, RequestAt, Put, Offset;
    var off, t := Offset(tags, n), tags[n];
    RequestsAtKept(buf, tags, n, off, U32(t.id));
    var b1 := Put(buf, off, U32(t.id));
    RequestsAtKept(b1, tags, n, off + 4, U32(|t.buffer|));
    var b2 := Put(b1, off + 4, U32(|t.buffer|));
    RequestsAtKept(b2, tags, n, off + 8, U32(0));
    RequestsAtKept(Put(b2, off + 8, U32(0)), tags, n, off + 12, t.buffer);
    WithTagReads(buf, off, t);
  }

  /** Encode a message into a reserved buffer with arbitrary contents that is as
      large as the size loop said, or larger. */
  method Encode(tags: seq<Tag>, reserved: seq<byte>) returns (buf: seq<byte>)
    requires AllEncodable(tags) && |reserved| >= 8 + Padded(tags) + 4
    ensures |buf| == |reserved| && Get32(buf, 0) == |buf| % 0x1_0000_0000 && Get32(buf, 4) == 0
    ensures RequestsAt(buf, tags, |tags|) && Offset(tags, |tags|) == 8 + Padded(tags)
            && Get32(buf, 8 + Padded(tags)) == 0
  {
    hide U32, RequestAt, TagSize, And, Padded, Get32, Put, WithTag;
    OffsetIsPadded(tags, |tags|);
    assert tags[..|tags|] == tags;
    buf := Put(reserved, 0, U32(|reserved| % 0x1_0000_0000));
    Get32OfU32(buf, 0, |reserved| % 0x1_0000_0000);
    SizeKept(buf);
    buf := Put(buf, 4, U32(0));
    Get32OfU32(buf, 4, 0);
    var offset := 8;
    for i := 0 to |tags|
      invariant |buf| == |reserved| && offset == Offset(tags, i) && RequestsAt(buf, tags, i)
      invariant Get32(buf, 0) == |buf| % 0x1_0000_0000 && Get32(buf, 4) == 0
    {
      OffsetGrows(tags, i, |tags|);
      WithTagKeeps(buf, tags, i);
      HeaderKept(buf, offset, tags[i]);
      buf := WithTag(buf, offset, tags[i]);
      offset := offset + TagSize(|tags[i].buffer|);
    }
    RequestsAtKept(buf, tags, |tags|, offset, U32(0));
    TerminatorKeeps(buf, offset);
    buf := Put(buf, offset, U32(0));
    Get32OfU32(buf, offset, 0);
  }

  lemma SizeKept(buf: seq<byte>)
    requires |buf| >= 8
    ensures Get32(Put(buf, 4, U32(0)), 0) == Get32(buf, 0)
  {
  }

  lemma TerminatorKeeps(buf: seq<byte>, off: nat)
    requires 8 <= off && off + 4 <= |buf|
    ensures var r := Put(buf, off, U32(0)); Get32(r, 0) == Get32(buf, 0) && Get32(r, 4) == Get32(buf, 4)
  {
  }

  lemma HeaderKept(buf: seq<byte>, off: nat, t: Tag)
    requires 8 <= off && off + 12 + |t.buffer| <= |buf|
    ensures Get32(WithTag(buf, off, t), 0) == Get32(buf, 0) && Get32(WithTag(buf, off, t), 4) == Get32(buf, 4)
  {
  }

  // ---------------------------------------------------------------- decoding

  /** The tags from `off` on; out-of-range reads and over-sized tags panic. */
  function DecodeFrom(buf: seq<byte>, off: nat): Decoded
    requires |buf| < 0xffff_fff0
    decreases |buf| - off
  {
    if off >= |buf| then Tags([])
    else if off + 4 > |buf| then Panic
    else if Get32(buf, off) == 0 then Tags([])
    else if off + 8 > |buf| then Panic
    else
      var len := Get32(buf, off + 4);
      if len > |buf| - off || off + 12 > |buf| then Panic
      else
        var t := Tag(Get32(buf, off), Copy(seq(len, _ => 0), buf[off + 12..]));
        TagSizeExact(len);
        match DecodeFrom(buf, off + TagSize(len))
        case Tags(rest) => Tags([t] + rest)
        case Panic => Panic
  }

  /** The decode loop. */
  method Decode(buf: seq<byte>) returns (r: Decoded)
    requires |buf| < 0xffff_fff0
    ensures r == DecodeFrom(buf, 8)
  {
    hide TagSize, Copy, Get32;
    var tags: seq<Tag> := [];
    var offset := 8;
    while offset < |buf|
      invariant offset >= 8
      invariant match DecodeFrom(buf, offset)
                case Tags(rest) => DecodeFrom(buf, 8) == Tags(tags + rest)
                case Panic => DecodeFrom(buf, 8) == Panic
      decreases |buf| - offset
    {
      if offset + 4 > |buf| {
        return Panic;
      }
      var id := Get32(buf, offset);
      if id == 0 {
        return Tags(tags);
      }
      if offset + 8 > |buf| {
        return Panic;
      }
      var len := Get32(buf, offset + 4);
      if len > |buf| - offset {
        return Panic;
      }
      if offset + 12 > |buf| {
        return Panic;
      }
      var t := Tag(id, Copy(seq(len, _ => 0), buf[offset + 12..]));
      TagSizeExact(len);
      ghost var after := DecodeFrom(buf, offset + TagSize(len));
      if after.Tags? { assert tags + ([t] + after.tags) == tags + [t] + after.tags; }
      offset := offset + TagSize(len);
      tags := tags + [t];
    }
    return Tags(tags);
  }

  /** A tag at `off` is the next one decoded. */
  lemma DecodeTag(buf: seq<byte>, off: nat, t: Tag)
    requires |buf| < 0xffff_fff0 && Encodable(t) && TagAt(buf, off, t) && t.id != 0
    ensures var rest := DecodeFrom(buf, off + TagSize(|t.buffer|));
            DecodeFrom(buf, off) == if rest.Tags? then Tags([t] + rest.tags) else Panic
  {
    hide TagSize, Get32;
    assert Copy(seq(|t.buffer|, _ => 0), buf[off + 12..]) == t.buffer;
  }

  lemma TagOf(buf: seq<byte>, tags: seq<Tag>, i: nat)
    requires i < |tags| && AllEncodable(tags) && TagsAt(buf, tags, |tags|)
    ensures Encodable(tags[i]) && TagAt(buf, Offset(tags, i), tags[i])
  {
  }

  lemma {:induction false} DecodeSuffix(buf: seq<byte>, tags: seq<Tag>, i: nat)
    requires |buf| < 0xffff_fff0 && i <= |tags| && AllEncodable(tags) && TagsAt(buf, tags, |tags|)
    requires Offset(tags, |tags|) + 4 <= |buf| && Get32(buf, Offset(tags, |tags|)) == 0
    requires forall k :: i <= k < |tags| ==> tags[k].id != 0
    ensures DecodeFrom(buf, Offset(tags, i)) == Tags(tags[i..])
    decreases |tags| - i
  {
    hide TagSize, Get32, TagAt, DecodeFrom, TagsAt, AllEncodable, Encodable;
    if i == |tags| {
      Terminated(buf, Offset(tags, i));
    } else {
      DecodeSuffix(buf, tags, i + 1);
      TagOf(buf, tags, i);
      DecodeTag(buf, Offset(tags, i), tags[i]);
      assert tags[i..] == [tags[i]] + tags[i + 1..];
    }
  }

  /** An identifier of zero ends the list early. */
  lemma {:induction false} DecodeStops(buf: seq<byte>, tags: seq<Tag>, i: nat, z: nat)
    requires |buf| < 0xffff_fff0 && i <= z < |tags| && AllEncodable(tags) && TagsAt(buf, tags, |tags|)
    requires tags[z].id == 0 && forall k :: i <= k < z ==> tags[k].id != 0
    ensures DecodeFrom(buf, Offset(tags, i)) == Tags(tags[i..z])
    decreases z - i
  {
    hide TagSize, Get32, TagAt, DecodeFrom, TagsAt, AllEncodable, Encodable;
    TagOf(buf, tags, i);
    if i < z {
      DecodeStops(buf, tags, i + 1, z);
      DecodeTag(buf, Offset(tags, i), tags[i]);
      assert tags[i..z] == [tags[i]] + tags[i + 1..z];
    } else {
      StopsAt(buf, Offset(tags, i), tags[i]);
    }
  }

  lemma Terminated(buf: seq<byte>, off: nat)
    requires |buf| < 0xffff_fff0 && off + 4 <= |buf| && Get32(buf, off) == 0
    ensures DecodeFrom(buf, off) == Tags([])
  {
  }

  lemma StopsAt(buf: seq<byte>, off: nat, t: Tag)
    requires |buf| < 0xffff_fff0 && TagAt(buf, off, t) && t.id == 0
    ensures DecodeFrom(buf, off) == Tags([])
  {
  }

  /** Decoding an unchanged message, enlarged or not, gives back the same tags
      exactly when no identifier is the terminator. */
  lemma RoundTrip(buf: seq<byte>, tags: seq<Tag>)
    requires |buf| < 0xffff_fff0 && AllEncodable(tags) && TagsAt(buf, tags, |tags|)
    requires Offset(tags, |tags|) + 4 <= |buf| && Get32(buf, Offset(tags, |tags|)) == 0
    ensures (forall k :: 0 <= k < |tags| ==> tags[k].id != 0) <==> DecodeFrom(buf, 8) == Tags(tags)
  {
    if forall k :: 0 <= k < |tags| ==> tags[k].id != 0 {
      DecodeSuffix(buf, tags, 0);
    } else {
      var z := FirstZero(tags, 0);
      DecodeStops(buf, tags, 0, z);
    }
  }

  lemma {:induction false} FirstZero(tags: seq<Tag>, i: nat) returns (z: nat)
    requires exists k :: i <= k < |tags| && tags[k].id == 0
    ensures i <= z < |tags| && tags[z].id == 0 && forall k :: i <= k < z ==> tags[k].id != 0
    decreases |tags| - i
  {
    if tags[i].id == 0 { return i; }
    z := FirstZero(tags, i + 1);
  }

  // ---------------------------------------------------------------- any reply

  /** Tag `t` is what the decoder reads at `o`: identifier and length are in front
      of it, and the data is what the buffer has, up to its end, then zeroes. */
  ghost predicate TagRead(b: seq<byte>, o: nat, t: Tag) {
    && o + 12 <= |b| && t.id != 0 && Get32(b, o) == t.id
    && Get32(b, o + 4) == |t.buffer| <= |b| - o
    && forall i :: 0 <= i < |t.buffer| ==> t.buffer[i] == if o + 12 + i < |b| then b[o + 12 + i] else 0
  }

  ghost predicate ReadAt(b: seq<byte>, ts: seq<Tag>, k: nat)
    requires k < |ts|
  {
    TagRead(b, Offset(ts, k), ts[k])
  }

  ghost predicate TagsRead(b: seq<byte>, ts: seq<Tag>) {
    forall k :: 0 <= k < |ts| ==> ReadAt(b, ts, k)
  }

  /** The list of tags ends at `o`: with the buffer, or with an identifier of zero. */
  ghost predicate EndsAt(b: seq<byte>, o: nat) {
    o >= |b| || (o + 4 <= |b| && Get32(b, o) == 0)
  }

  /** It is broken at `o`: a tag whose header is cut off, or which is longer than
      what is left of the buffer. */
  ghost predicate BreaksAt(b: seq<byte>, o: nat) {
    o < |b| && (o + 4 > |b| || (Get32(b, o) != 0 && (o + 12 > |b| || Get32(b, o + 4) > |b| - o)))
  }

  lemma TagReadSize(b: seq<byte>, o: nat, t: Tag)
    requires |b| < 0xffff_fff0 && TagRead(b, o, t)
    ensures TagSize(|t.buffer|) >= 12 && |t.buffer| < 0xffff_fff0
  {
    TagSizeExact(|t.buffer|);
  }

  /** A tag that is read is the next one decoded. */
  lemma DecodeRead(b: seq<byte>, o: nat, t: Tag)
    requires |b| < 0xffff_fff0 && TagRead(b, o, t)
    ensures var rest := DecodeFrom(b, o + TagSize(|t.buffer|));
            DecodeFrom(b, o) == if rest.Tags? then Tags([t] + rest.tags) else Panic
  {
    hide TagSize, Get32;
    assert Copy(seq(|t.buffer|, _ => 0), b[o + 12..]) == t.buffer;
  }

  /** For every buffer: tags that are read, up to an end or a break, are decoded so. */
  lemma {:induction false} DecodeReads(b: seq<byte>, ts: seq<Tag>, i: nat)
    requires |b| < 0xffff_fff0 && i <= |ts| && TagsRead(b, ts)
    ensures EndsAt(b, Offset(ts, |ts|)) ==> DecodeFrom(b, Offset(ts, i)) == Tags(ts[i..])
    ensures BreaksAt(b, Offset(ts, |ts|)) ==> DecodeFrom(b, Offset(ts, i)) == Panic
    decreases |ts| - i
  {
    hide TagSize, Get32, TagRead;
    if i == |ts| {
      DecodeEnds(b, Offset(ts, i));
    } else {
      hide DecodeFrom, EndsAt, BreaksAt;
      DecodeReads(b, ts, i + 1);
      assert ReadAt(b, ts, i);
      DecodeRead(b, Offset(ts, i), ts[i]);
      assert ts[i..] == [ts[i]] + ts[i + 1..];
    }
  }

  lemma DecodeEnds(b: seq<byte>, o: nat)
    requires |b| < 0xffff_fff0
    ensures EndsAt(b, o) ==> DecodeFrom(b, o) == Tags([])
    ensures BreaksAt(b, o) ==> DecodeFrom(b, o) == Panic
  {
  }

  /** Every buffer is read so: some tags, then an end or a break. */
  lemma {:induction false} SomeReading(b: seq<byte>, ts: seq<Tag>) returns (all: seq<Tag>)
    requires |b| < 0xffff_fff0 && TagsRead(b, ts)
    ensures TagsRead(b, all) && (EndsAt(b, Offset(all, |all|)) || BreaksAt(b, Offset(all, |all|)))
    decreases |b| - Offset(ts, |ts|)
  {
    hide TagRead, EndsAt, BreaksAt, Get32, TagSize, Offset, TagsRead;
    var o := Offset(ts, |ts|);
    if EndsAt(b, o) || BreaksAt(b, o) {
      return ts;
    }
    var t := NextRead(b, o);
    TagReadSize(b, o, t);
    TagsReadAppend(b, ts, t);
    all := SomeReading(b, ts + [t]);
  }

  lemma NextRead(b: seq<byte>, o: nat) returns (t: Tag)
    requires !EndsAt(b, o) && !BreaksAt(b, o)
    ensures TagRead(b, o, t) && o < |b|
  {
    hide Get32;
    var len := Get32(b, o + 4);
    t := Tag(Get32(b, o), seq(len, i requires 0 <= i < len => if o + 12 + i < |b| then b[o + 12 + i] else 0));
  }

  lemma TagsReadAppend(b: seq<byte>, ts: seq<Tag>, t: Tag)
    requires TagsRead(b, ts) && TagRead(b, Offset(ts, |ts|), t)
    ensures TagsRead(b, ts + [t]) && Offset(ts + [t], |ts| + 1) == Offset(ts, |ts|) + TagSize(|t.buffer|)
  {
    OffsetLast(ts, t);
    hide Offset, TagRead, TagSize;
    forall k | 0 <= k < |ts| + 1 ensures ReadAt(b, ts + [t], k) {
      OffsetPrefix(ts, t, k);
      if k < |ts| { assert ReadAt(b, ts, k); }
    }
  }

  lemma OffsetLast(ts: seq<Tag>, t: Tag)
    ensures Offset(ts + [t], |ts| + 1) == Offset(ts, |ts|) + TagSize(|t.buffer|)
  {
    hide TagSize;
    OffsetPrefix(ts, t, |ts|);
  }

  lemma {:induction false} OffsetPrefix(ts: seq<Tag>, t: Tag, k: nat)
    requires k <= |ts|
    ensures Offset(ts + [t], k) == Offset(ts, k)
    decreases k
  {
    if k > 0 { OffsetPrefix(ts, t, k - 1); }
  }

  /** Decoding is exactly this reading: it gives the tags in front of an end, and
      panics when they are in front of a break. */
  lemma DecodeExactly(b: seq<byte>, r: Decoded)
    requires |b| < 0xffff_fff0 && r == DecodeFrom(b, 8)
    ensures r.Tags? ==> TagsRead(b, r.tags) && EndsAt(b, Offset(r.tags, |r.tags|))
    ensures r.Panic? <==> exists ts :: TagsRead(b, ts) && BreaksAt(b, Offset(ts, |ts|))
  {
    hide DecodeFrom, TagRead, EndsAt, BreaksAt;
    var all := SomeReading(b, []);
    DecodeReads(b, all, 0);
    assert all[0..] == all;
    forall ts | TagsRead(b, ts) && BreaksAt(b, Offset(ts, |ts|)) ensures r.Panic? {
      DecodeReads(b, ts, 0);
    }
  }

  /** Tags written in full are read. */
  lemma TagsAtRead(b: seq<byte>, ts: seq<Tag>)
    requires TagsAt(b, ts, |ts|) && forall k :: 0 <= k < |ts| ==> ts[k].id != 0
    ensures TagsRead(b, ts)
  {
    hide TagAt, TagRead, Offset;
    forall k | 0 <= k < |ts| ensures ReadAt(b, ts, k) {
      TagAtRead(b, Offset(ts, k), ts[k]);
    }
  }

  lemma TagAtRead(b: seq<byte>, o: nat, t: Tag)
    requires TagAt(b, o, t) && t.id != 0
    ensures TagRead(b, o, t)
  {
    hide Get32;
    assert forall i :: 0 <= i < |t.buffer| ==> t.buffer[i] == b[o + 12..o + 12 + |t.buffer|][i];
  }

  /** The bytes of a request tag: identifier, length, zero, data. */
  lemma RequestBytes(buf: seq<byte>, off: nat, t: Tag)
    requires Encodable(t) && off + 12 + |t.buffer| <= |buf|
    ensures RequestAt(buf, off, t) <==>
            buf[off..off + 12 + |t.buffer|] == U32(t.id) + U32(|t.buffer|) + U32(0) + t.buffer
  {
    hide U32, Get32;
    var s := buf[off..off + 12 + |t.buffer|];
    SubSlice(buf, off, 12 + |t.buffer|, 0, 4);
    SubSlice(buf, off, 12 + |t.buffer|, 4, 8);
    SubSlice(buf, off, 12 + |t.buffer|, 8, 12);
    SubSlice(buf, off, 12 + |t.buffer|, 12, 12 + |t.buffer|);
    assert s == s[..4] + s[4..8] + s[8..12] + s[12..];
    WordAt(buf, off, t.id);
    WordAt(buf, off + 4, |t.buffer|);
    WordAt(buf, off + 8, 0);
    if s == U32(t.id) + U32(|t.buffer|) + U32(0) + t.buffer {
      assert s[..4] == U32(t.id) && s[4..8] == U32(|t.buffer|) && s[8..12] == U32(0) && s[12..] == t.buffer;
    }
  }

  lemma WordAt(buf: seq<byte>, off: nat, x: nat)
    requires off + 4 <= |buf| && x < 0x1_0000_0000
    ensures Get32(buf, off) == x <==> buf[off..off + 4] == U32(x)
  {
    var w := Get32(buf, off);
    HalfAt(buf, off);
    HalfAt(buf, off + 2);
    RemainderUnique(w, Get16(buf, off + 2), Get16(buf, off), 0x1_0000);
    hide U16, Get16;
    assert buf[off..off + 4] == buf[off..off + 2] + buf[off + 2..off + 4] == U32(w);
    if buf[off..off + 4] == U32(x) {
      Get32OfU32(buf, off, x);
    }
  }

  lemma SubSlice(buf: seq<byte>, off: nat, n: nat, i: nat, j: nat)
    requires off + n <= |buf| && i <= j <= n
    ensures buf[off..off + n][i..j] == buf[off + i..off + j]
  {
    var a, b := buf[off..off + n][i..j], buf[off + i..off + j];
    assert forall k :: 0 <= k < j - i ==> a[k] == b[k];
  }

  lemma HalfAt(buf: seq<byte>, off: nat)
    requires off + 2 <= |buf|
    ensures buf[off..off + 2] == U16(Get16(buf, off))
  {
    var lo: nat, hi: nat := buf[off], buf[off + 1];
    RemainderUnique(lo + 256 * hi, hi, lo, 256);
  }

  // ---------------------------------------------------------------- the exchange

  datatype CallResult = NoMemory | Misaligned | Overlapping | Malformed | Replied(code: nat, tags: seq<Tag>)

  /** Send the address of a message with the channel in its low bits, and check that
      the response is the word that was sent. */
  method Exchange(channel: nat, addr: nat, response: nat) returns (failure: CallResult, sent: nat)
    requires response < 0x1_0000_0000
    ensures sent == addr % 0x1_0000_0000 / 16 * 16 + channel % 16
    ensures failure == if addr % 16 != 0 then Misaligned else if response != sent then Overlapping else Replied(0, [])
  {
    hide And, Or;
    var a := addr % 0x1_0000_0000;
    LowNibble(a);
    LowNibble(channel);
    LowNibble(response);
    HighBits(a);
    HighBits(response);
    ModMod(addr, 0x1000_0000, 16);
    OrNibble(a / 16, channel % 16);
    sent := Or(And(channel, 0xf), And(a, 0xffff_fff0));
    if And(a, 0xf) != 0 {
      return Misaligned, sent;
    }
    if And(response, 0xf) != And(channel, 0xf) || And(response, 0xffff_fff0) != And(a, 0xffff_fff0) {
      return Overlapping, sent;
    }
    return Replied(0, []), sent;
  }

  lemma LowNibble(x: nat)
    ensures And(x, 0xf) == x % 16
  {
    assert Pow2(4) == 16;
    AndMask(x, 4);
  }

  lemma Nibbles()
    ensures Pow2(4) == 16 && Pow2(28) == 0x1000_0000
  {
    assert Pow2(4) == 16;
    Pow2Values();
    hide Pow2;
    Pow2Four(28);
  }

  lemma HighBits(x: nat)
    requires x < 0x1_0000_0000
    ensures And(x, 0xffff_fff0) == x / 16 * 16
  {
    Nibbles();
    NoBits(x % 16);
    hide And, Shl, Pow2;
    ShlIsProduct(x / 16, 4);
    ShlIsProduct(0xfff_ffff, 4);
    AndSplit(x / 16, x % 16, 0xfff_ffff, 0, 4);
    AndOnes(x / 16, 28);
  }

  lemma OrNibble(q: nat, r: nat)
    requires r < 16
    ensures Or(r, q * 16) == q * 16 + r
  {
    assert Pow2(4) == 16;
    assert Or(0, q) == q && Or(r, 0) == r;
    hide Or, Shl, Pow2;
    ShlIsProduct(q, 4);
    ShlZero(4);
    OrSplit(0, r, q, 0, 4);
  }

  /** Exchange a message: the VideoCore overwrites the buffer with `answer`, as far
      as it goes, and responds. The buffer is placed on a 16-byte boundary and,
      unless it is at address zero, given back on every exit. What comes back is
      what the decoder reads in `reply`, the buffer after the exchange. */
  method Call(region: Dma.Region, channel: nat, tags: seq<Tag>, minSize: int, answer: seq<byte>, response: nat)
    returns (r: CallResult, ghost p: Dma.Placement, ghost request: seq<byte>, ghost reply: seq<byte>)
    requires region.Valid() && region.size < 0xffff_fff0 && response < 0x1_0000_0000
    requires AllEncodable(tags) && 12 + Padded(tags) < 0x8000_0000_0000_0000 && minSize < 0x8000_0000_0000_0000
    modifies region
    ensures region.Valid() && region.usedBlocks - {0} == old(region.usedBlocks) - {0}
    ensures region.start > 0 || r == NoMemory ==> region.usedBlocks == old(region.usedBlocks)
    ensures var size := if 12 + Padded(tags) < minSize then minSize else 12 + Padded(tags);
            && Dma.LowestPlacement(region.start, region.size, old(region.usedBlocks), size, 16, p)
            && (r == NoMemory <==> p.OutOfMemory?)
            && (p.Placed? ==> |request| == size && IsRequest(request, tags) && Answered(request, answer, reply))
    ensures r != Misaligned
    ensures r == Overlapping <==> p.Placed? && response != p.addr % 0x1_0000_0000 + channel % 16
    ensures r.Replied? ==>
        r.code == Get32(reply, 4) && TagsRead(reply, r.tags) && EndsAt(reply, Offset(r.tags, |r.tags|))
    ensures r == Malformed <==>
            p.Placed? && r != Overlapping && exists ts :: TagsRead(reply, ts) && BreaksAt(reply, Offset(ts, |ts|))
    ensures r.Replied? ==> forall ts :: TagsRead(reply, ts) && EndsAt(reply, Offset(ts, |ts|)) ==> r.tags == ts
    ensures answer == [] ==> r != Malformed
    ensures answer == [] && r.Replied? ==>
            r.code == 0 && (r.tags == tags <==> forall k :: 0 <= k < |tags| ==> tags[k].id != 0)
  {
    hide Padded, RequestsAt, TagsAt, AllEncodable, DecodeFrom, Get32, Dma.Listed, Dma.LowestPlacement, Offset;
    hide TagsRead, EndsAt, BreaksAt, Copy, Answered, IsRequest;
    request, reply := [], [];
    var size := MessageSize(tags);
    if size < minSize {
      size := minSize;
    }
    var placed := region.Reserve(size, 16);
    AlignSixteen();
    p := placed;
    if placed.OutOfMemory? {
      return NoMemory, p, request, reply;
    }
    Reserved(region, old(region.usedBlocks), size, placed);
    var reserved := Contents(size);
    var message := Encode(tags, reserved);
    var buf := Copy(message, answer);
    request, reply := message, buf;
    RequestComplete(request, tags);
    Overwritten(request, answer);
    RequestsAreTags(request, tags);
    RoundTrip(request, tags);
    NeverMalformed(request, tags);
    var failure, _ := Exchange(channel, placed.addr, response);
    Sent(placed.addr, channel);
    r := failure;
    if failure.Replied? {
      var decoded := Decode(buf);
      DecodeExactly(buf, decoded);
      OneReading(buf, decoded);
      r := if decoded.Tags? then Replied(Get32(buf, 4), decoded.tags) else Malformed;
    }
    region.FreeBlock(placed.addr, true);
    assert placed.addr > 0 ==> region.usedBlocks == old(region.usedBlocks);
  }

  lemma OneReading(b: seq<byte>, r: Decoded)
    requires |b| < 0xffff_fff0 && r == DecodeFrom(b, 8)
    ensures r.Tags? ==> forall ts :: TagsRead(b, ts) && EndsAt(b, Offset(ts, |ts|)) ==> r.tags == ts
  {
    hide DecodeFrom, TagsRead, EndsAt, BreaksAt;
    forall ts | TagsRead(b, ts) && EndsAt(b, Offset(ts, |ts|)) ensures r == Tags(ts) {
      DecodeReads(b, ts, 0);
      assert ts[0..] == ts;
    }
  }

  /** Size, request code, tags and terminator. */
  ghost predicate IsRequest(buf: seq<byte>, tags: seq<Tag>) {
    && |buf| >= 12 + Padded(tags) && Get32(buf, 0) == |buf| % 0x1_0000_0000 && Get32(buf, 4) == 0
    && RequestsAt(buf, tags, |tags|) && Get32(buf, 8 + Padded(tags)) == 0
  }

  lemma RequestComplete(buf: seq<byte>, tags: seq<Tag>)
    requires |buf| >= 12 + Padded(tags) && Get32(buf, 0) == |buf| % 0x1_0000_0000 && Get32(buf, 4) == 0
    requires RequestsAt(buf, tags, |tags|) && Get32(buf, 8 + Padded(tags)) == 0
    ensures IsRequest(buf, tags)
  {
  }

  /** The reply is the answer as far as it goes, then the request. */
  ghost predicate Answered(request: seq<byte>, answer: seq<byte>, reply: seq<byte>) {
    && |reply| == |request|
    && forall i :: 0 <= i < |reply| ==> reply[i] == if i < |answer| then answer[i] else request[i]
  }

  lemma Overwritten(request: seq<byte>, answer: seq<byte>)
    ensures Answered(request, answer, Copy(request, answer))
    ensures answer == [] ==> Copy(request, answer) == request
  {
    forall i | 0 <= i < |request|
      ensures Copy(request, answer)[i] == if i < |answer| then answer[i] else request[i]
    {
      CopyAt(request, answer, i);
    }
  }

  lemma Sent(addr: nat, channel: nat)
    requires addr % 16 == 0
    ensures addr % 0x1_0000_0000 / 16 * 16 == addr % 0x1_0000_0000
  {
    ModMod(addr, 0x1000_0000, 16);
  }

  lemma AlignSixteen()
    ensures Dma.EffectiveAlignment(Dma.ToUint(16)) == 16
  {
    assert Pow2(4) == 16;
  }

  /** Whatever a fresh reservation contains. */
  method Contents(size: nat) returns (b: seq<byte>)
    ensures |b| == size
  {
    b := *;
    if |b| != size {
      b := seq(size, _ => 0);
    }
  }

  lemma Reserved(region: Dma.Region, used: map<nat, Dma.Block>, size: nat, p: Dma.Placement)
    requires p.Placed? && Dma.LowestPlacement(region.start, region.size, used, size, 16, p)
    ensures p.addr >= region.start && p.addr % 16 == 0 && size <= region.size
  {
  }

  /** An unchanged message never panics the decoder. */
  lemma NeverMalformed(buf: seq<byte>, tags: seq<Tag>)
    requires |buf| < 0xffff_fff0 && AllEncodable(tags) && TagsAt(buf, tags, |tags|)
    requires Offset(tags, |tags|) + 4 <= |buf| && Get32(buf, Offset(tags, |tags|)) == 0
    ensures DecodeFrom(buf, 8).Tags?
  {
    if forall k :: 0 <= k < |tags| ==> tags[k].id != 0 {
      DecodeSuffix(buf, tags, 0);
    } else {
      var z := FirstZero(tags, 0);
      DecodeStops(buf, tags, 0, z);
    }
  }
}
