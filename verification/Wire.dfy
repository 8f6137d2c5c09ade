/** Little-endian encodings, writes into byte buffers, and tables of fixed-width records. */
module Wire {
  import opened Bits

  type byte = x: nat | x < 256 witness 0

  function U16(x: nat): (b: seq<byte>)
    ensures |b| == 2
  {
    [x % 256, x / 256 % 256]
  }

  function U32(x: nat): (b: seq<byte>)
    ensures |b| == 4
  {
    U16(x % 0x1_0000) + U16(x / 0x1_0000)
  }

  function U64(x: nat): (b: seq<byte>)
    ensures |b| == 8
  {
    U32(x % 0x1_0000_0000) + U32(x / 0x1_0000_0000)
  }

  /** Decode the 16-bit value at `off`. */
  function Get16(buf: seq<byte>, off: nat): (x: nat)
    requires off + 2 <= |buf|
    ensures x < 0x1_0000
  {
    var lo: nat, hi: nat := buf[off], buf[off + 1];
    lo + 256 * hi
  }

  /** Decode the 32-bit value at `off`. */
  function Get32(buf: seq<byte>, off: nat): (x: nat)
    requires off + 4 <= |buf|
    ensures x < 0x1_0000_0000
  {
    Get16(buf, off) + 0x1_0000 * Get16(buf, off + 2)
  }

  /** The buffer with `b` written at `off`. */
  function Put(buf: seq<byte>, off: nat, b: seq<byte>): (r: seq<byte>)
    requires off + |b| <= |buf|
    ensures |r| == |buf|
    ensures r[off..off + |b|] == b
    ensures forall i :: 0 <= i < off || off + |b| <= i < |buf| ==> r[i] == buf[i]
  {
    buf[..off] + b + buf[off + |b|..]
  }

  /** `copy(dst, src)`. */
  function Copy(dst: seq<byte>, src: seq<byte>): (r: seq<byte>)
    ensures |r| == |dst|
  {
    if |src| <= |dst| then src + dst[|src|..] else src[..|dst|]
  }

  /** Byte by byte: the source as far as it goes, then the destination. */
  lemma CopyAt(dst: seq<byte>, src: seq<byte>, i: nat)
    requires i < |dst|
    ensures Copy(dst, src)[i] == if i < |src| then src[i] else dst[i]
  {
  }

  /** The weight of byte `j` of a little-endian word. */
  function Weight(j: nat): (w: nat)
    requires j < 8
    ensures w > 0
  {
    [1, 0x100, 0x1_0000, 0x100_0000, 0x1_0000_0000, 0x100_0000_0000, 0x1_0000_0000_0000, 0x100_0000_0000_0000][j]
  }

  /** Encodings are little-endian: byte `j` is digit `j` in base 256. */
  lemma Digits(x: nat, j: nat)
    ensures j < 2 ==> U16(x)[j] == x / Weight(j) % 256
    ensures j < 4 ==> U32(x)[j] == x / Weight(j) % 256
    ensures j < 8 ==> U64(x)[j] == x / Weight(j) % 256
  {
    if j < 4 {
      Digits32(x, j);
      Digits32(x % 0x1_0000_0000, j);
      Reduced(x, j);
    } else if j < 8 {
      Digits32(x / 0x1_0000_0000, j - 4);
      HighDigit(x, j);
    }
  }

  lemma Digits32(x: nat, j: nat)
    requires j < 4
    ensures U32(x)[j] == x / Weight(j) % 256
  {
    var q, r := x / 0x1_0000, x % 0x1_0000;
    if j == 0 {
      Digit(x, q, r, 0x100, 1);
    } else if j == 1 {
      Digit(x, q, r, 1, 0x100);
    } else if j == 3 {
      RemainderUnique(x, q / 256, q % 256 * 0x1_0000 + r, 0x100_0000);
    }
  }

  /** Removing higher digits leaves a digit alone. */
  lemma Digit(x: nat, q: nat, r: nat, c: nat, w: nat)
    requires w > 0 && x == q * (c * 256 * w) + r
    ensures x / w % 256 == r / w % 256
  {
    var y := r / w;
    Regroup(q, c, w);
    assert x == (q * c * 256 + y) * w + r % w by { Sum(q * c * 256, y, w); }
    RemainderUnique(x, q * c * 256 + y, r % w, w);
    assert q * c * 256 + y == (q * c + y / 256) * 256 + y % 256;
    RemainderUnique(q * c * 256 + y, q * c + y / 256, y % 256, 256);
  }

  lemma Regroup(q: nat, c: nat, w: nat)
    ensures q * (c * 256 * w) == q * c * 256 * w
  {
  }

  lemma Sum(a: nat, b: nat, w: nat)
    ensures (a + b) * w == a * w + b * w
  {
  }

  lemma Reduced(x: nat, j: nat)
    requires j < 4
    ensures x % 0x1_0000_0000 / Weight(j) % 256 == x / Weight(j) % 256
  {
    var q, r := x / 0x1_0000_0000, x % 0x1_0000_0000;
    if j == 0 {
      Digit(x, q, r, 0x100_0000, 1);
    } else if j == 1 {
      Digit(x, q, r, 0x1_0000, 0x100);
    } else if j == 2 {
      Digit(x, q, r, 0x100, 0x1_0000);
    } else {
      Digit(x, q, r, 1, 0x100_0000);
    }
  }

  lemma HighDigit(x: nat, j: nat)
    requires 4 <= j < 8
    ensures x / 0x1_0000_0000 / Weight(j - 4) == x / Weight(j)
  {
  }

  /** Decoding weighs the bytes in the same order. */
  lemma Values(buf: seq<byte>, off: nat)
    ensures off + 2 <= |buf| ==> Get16(buf, off) == buf[off] as nat + Weight(1) * buf[off + 1] as nat
    ensures off + 4 <= |buf| ==>
        Get32(buf, off) == buf[off] as nat + Weight(1) * buf[off + 1] as nat
                           + Weight(2) * buf[off + 2] as nat + Weight(3) * buf[off + 3] as nat
  {
  }

  lemma Get16OfU16(buf: seq<byte>, off: nat, x: nat)
    requires off + 2 <= |buf| && x < 0x1_0000 && buf[off..off + 2] == U16(x)
    ensures Get16(buf, off) == x
  {
    assert buf[off] == buf[off..off + 2][0] && buf[off + 1] == buf[off..off + 2][1];
  }

  lemma Get32OfU32(buf: seq<byte>, off: nat, x: nat)
    requires off + 4 <= |buf| && x < 0x1_0000_0000 && buf[off..off + 4] == U32(x)
    ensures Get32(buf, off) == x
  {
    assert buf[off..off + 2] == buf[off..off + 4][..2] == U16(x % 0x1_0000);
    assert buf[off + 2..off + 4] == buf[off..off + 4][2..] == U16(x / 0x1_0000);
    Get16OfU16(buf, off, x % 0x1_0000);
    Get16OfU16(buf, off + 2, x / 0x1_0000);
  }

  // ---------------------------------------------------------------- tables

  ghost predicate Width(blocks: seq<seq<byte>>, w: nat) {
    forall i :: 0 <= i < |blocks| ==> |blocks[i]| == w
  }

  /** Records one after the other. */
  function Join(blocks: seq<seq<byte>>): seq<byte> {
    if blocks == [] then [] else blocks[0] + Join(blocks[1..])
  }

  lemma {:induction false} JoinAppend(a: seq<seq<byte>>, b: seq<seq<byte>>)
    ensures Join(a + b) == Join(a) + Join(b)
    decreases |a|
  {
    if a == [] {
      assert a + b == b;
    } else {
      assert (a + b)[1..] == a[1..] + b;
      JoinAppend(a[1..], b);
    }
  }

  lemma {:induction false} JoinLength(blocks: seq<seq<byte>>, w: nat)
    requires Width(blocks, w)
    ensures |Join(blocks)| == w * |blocks|
    decreases |blocks|
  {
    if blocks != [] {
      JoinLength(blocks[1..], w);
      assert w * |blocks| == w + w * (|blocks| - 1);
    }
  }

  lemma JoinSplit(blocks: seq<seq<byte>>, i: nat, w: nat)
    requires Width(blocks, w) && i < |blocks|
    ensures Join(blocks) == Join(blocks[..i]) + blocks[i] + Join(blocks[i + 1..])
    ensures |Join(blocks[..i])| == w * i && w * i + w <= |Join(blocks)|
  {
    assert blocks == blocks[..i] + ([blocks[i]] + blocks[i + 1..]);
    JoinAppend(blocks[..i], [blocks[i]] + blocks[i + 1..]);
    assert ([blocks[i]] + blocks[i + 1..])[1..] == blocks[i + 1..];
    JoinLength(blocks[..i], w);
  }

  /** Record `i` of a table can be read back at its offset. */
  lemma JoinRead(blocks: seq<seq<byte>>, i: nat, w: nat)
    requires Width(blocks, w) && i < |blocks|
    ensures w * i + w <= |Join(blocks)|
    ensures Join(blocks)[w * i..w * i + w] == blocks[i]
  {
    JoinSplit(blocks, i, w);
  }

  /** Replacing record `i` is a write at its offset. */
  lemma JoinUpdate(blocks: seq<seq<byte>>, i: nat, b: seq<byte>, w: nat)
    requires Width(blocks, w) && i < |blocks| && |b| == w
    ensures w * i + w <= |Join(blocks)|
    ensures Join(blocks[i := b]) == Put(Join(blocks), w * i, b)
  {
    JoinSplit(blocks, i, w);
    JoinSplit(blocks[i := b], i, w);
    assert blocks[i := b][..i] == blocks[..i] && blocks[i := b][i + 1..] == blocks[i + 1..];
    PutMiddle(Join(blocks[..i]), blocks[i], Join(blocks[i + 1..]), b);
  }

  lemma PutMiddle(p: seq<byte>, x: seq<byte>, q: seq<byte>, b: seq<byte>)
    requires |x| == |b|
    ensures Put(p + x + q, |p|, b) == p + b + q
  {
  }
}
