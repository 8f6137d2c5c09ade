/** How soc/microchip/sdhci/sdhci.go sizes transfers: the block limit against
    the DMA region, the two reservations of a transfer, and the split of a
    request into commands. */
module SdhciPlan {
  import opened Bits
  import opened Dma
  import Adma

  // ---------------------------------------------------------------- block limit

  /** Whether `blocks` blocks and their descriptor table fit a region of `size`
      bytes with both 16-byte alignments paid for. */
  predicate Fits(size: nat, blocks: nat) {
    blocks * 512 + Adma.TableSize(blocks * 512) + 30 <= size
  }

  /** The largest transfer, of at most 65535 blocks, that fits the region. */
  ghost predicate BlockLimit(size: nat, limit: nat) {
    && limit <= 0xffff && (limit > 0 ==> Fits(size, limit))
    && (forall b :: limit < b <= 0xffff ==> !Fits(size, b))
  }

  method DmaBlockLimit(size: nat) returns (blocks: nat)
    ensures BlockLimit(size, blocks)
  {
    var available := size - 30;
    if available < 0 {
      forall b | 0 < b <= 0xffff ensures !Fits(size, b) {
      }
      return 0;
    }
    blocks := if available / 512 < 0xffff then available / 512 else 0xffff;
    forall b | blocks < b <= 0xffff ensures !Fits(size, b) {
      assert b * 512 > available;
    }
    while blocks > 0
      invariant blocks <= 0xffff
      invariant forall b :: blocks < b <= 0xffff ==> !Fits(size, b)
    {
      var n := blocks * 512;
      if n + Adma.TableSize(n) <= available {
        return;
      }
      blocks := blocks - 1;
    }
  }

  /** The limit in bytes: the data, 8 bytes for each run of 65532 bytes of it, and
      twice 15 bytes of alignment. */
  lemma LimitExact(size: nat, limit: nat, b: nat)
    requires BlockLimit(size, limit) && 0 < b <= 0xffff
    ensures b <= limit <==> 512 * b + (512 * b + 65531) / 65532 * 8 + 2 * 15 <= size
    ensures limit == 0 <==> size < 550
  {
    assert Fits(size, b) <==> 512 * b + (512 * b + 65531) / 65532 * 8 + 2 * 15 <= size;
    assert Fits(size, 1) <==> size >= 550;
    if b <= limit { UpToLimitFits(size, limit, b); }
    if limit > 0 { UpToLimitFits(size, limit, 1); }
  }

  lemma {:induction false} TableGrows(m: nat, n: nat)
    requires m <= n
    ensures Adma.TableSize(m) <= Adma.TableSize(n)
  {
  }

  /** Anything up to the limit fits. */
  lemma UpToLimitFits(size: nat, limit: nat, blocks: nat)
    requires BlockLimit(size, limit) && 0 < blocks <= limit
    ensures Fits(size, blocks)
  {
    TableGrows(blocks * 512, limit * 512);
  }

  // ---------------------------------------------------------------- reservations

  /** In an empty region a transfer that fits gets its data reservation, within
      15 bytes of the start. */
  lemma RoundUp16(start: nat) returns (a: nat)
    ensures start <= a <= start + 15 && a % 16 == 0
  {
    a := (start + 15) / 16 * 16;
    RemainderUnique(a, (start + 15) / 16, 0, 16);
  }

  lemma DataFits(start: nat, size: nat, n: nat, p: Placement)
    requires n > 0 && n + 30 <= size && LowestPlacement(start, size, map[], n, 16, p)
    ensures p.Placed? && start <= p.addr <= start + 15 && p.addr % 16 == 0
  {
    var a := RoundUp16(start);
    assert Placeable(start, size, map[], a, n, 16);
  }

  /** ... and then its descriptor reservation. */
  lemma TableFits(start: nat, size: nat, n: nat, t: nat, addr: nat, used: map<nat, Block>, q: Placement)
    requires n % 512 == 0 && n > 0 && t > 0 && n + t + 30 <= size
    requires start <= addr <= start + 15 && addr % 16 == 0
    requires used == map[addr := Block(addr, n, true)]
    requires LowestPlacement(start, size, used, t, 16, q)
    ensures q.Placed?
  {
    var a := addr + n;
    RemainderUnique(a, addr / 16 + n / 512 * 32, 0, 16);
    assert forall x :: a <= x < a + t ==> !Taken(used, x);
    assert Placeable(start, size, used, a, t, 16);
  }

  // ---------------------------------------------------------------- commands

  /** A data command: first block and block count. */
  datatype DataCommand = DataCommand(lba: nat, blocks: nat)

  /** Blocks of the next command; a write ends on a 16 KiB boundary when the limit allows. */
  function NextBlocks(write: bool, lba: nat, left: nat, maxBlocks: nat): (n: nat)
    requires left > 0 && maxBlocks > 0
    ensures 0 < n <= left && n <= maxBlocks
    ensures !write || maxBlocks < 32 ==> n == left || n == maxBlocks
    ensures write && maxBlocks >= 32 ==> lba % 32 + n <= maxBlocks - maxBlocks % 32
    ensures write && maxBlocks >= 32 && n < left ==> (lba + n) % 32 == 0 && lba % 32 + n + 32 > maxBlocks
  {
    if write && 32 <= maxBlocks then
      var limit := maxBlocks - maxBlocks % 32;
      var room := limit - lba % 32;
      assert (lba + room) % 32 == 0 by { Boundary(lba, maxBlocks); }
      if left < room then left else room
    else if left < maxBlocks then left else maxBlocks
  }

  lemma Boundary(lba: nat, maxBlocks: nat)
    requires maxBlocks >= 32
    ensures (lba + (maxBlocks - maxBlocks % 32) - lba % 32) % 32 == 0
  {
    RemainderUnique(lba + (maxBlocks - maxBlocks % 32) - lba % 32, lba / 32 + maxBlocks / 32, 0, 32);
  }

  /** The command for what is left, `total` blocks from `lba` on. */
  ghost predicate IsNext(write: bool, maxBlocks: nat, c: DataCommand, lba: nat, total: nat)
    requires maxBlocks > 0
  {
    total > 0 && c.lba == lba && c.blocks == NextBlocks(write, lba, total, maxBlocks)
  }

  /** Commands that cover the first `n` of `total` blocks from `lba` on, in order,
      each taking as many of what is left as it can. */
  ghost predicate Covering(write: bool, maxBlocks: nat, cmds: seq<DataCommand>, lba: nat, n: nat, total: nat)
    requires maxBlocks > 0
    decreases |cmds|
  {
    && n <= total
    && if cmds == [] then n == 0
       else
         var c := cmds[0];
         && IsNext(write, maxBlocks, c, lba, total) && c.blocks <= n
         && Covering(write, maxBlocks, cmds[1..], lba + c.blocks, n - c.blocks, total - c.blocks)
  }

  lemma {:induction false} CoveringAppend(write: bool, maxBlocks: nat, cmds: seq<DataCommand>, lba: nat, n: nat,
                                          total: nat, c: DataCommand)
    requires maxBlocks > 0 && Covering(write, maxBlocks, cmds, lba, n, total) && n < total
    requires IsNext(write, maxBlocks, c, lba + n, total - n) && n + c.blocks <= total
    ensures Covering(write, maxBlocks, cmds + [c], lba, n + c.blocks, total)
    decreases |cmds|
  {
    hide IsNext;
    if cmds != [] {
      var m := cmds[0].blocks;
      CoveringAppend(write, maxBlocks, cmds[1..], lba + m, n - m, total - m, c);
      assert (cmds + [c])[1..] == cmds[1..] + [c];
    } else {
      assert (cmds + [c])[1..] == [];
    }
  }

  /** Command `i` starts where the one before ends; all but the last of a write end
      on a 16 KiB boundary when the limit allows. */
  lemma {:induction false} CoveringOrder(write: bool, maxBlocks: nat, cmds: seq<DataCommand>, lba: nat, n: nat,
                                         total: nat, i: nat)
    requires maxBlocks > 0 && Covering(write, maxBlocks, cmds, lba, n, total) && i < |cmds|
    ensures 0 < cmds[i].blocks <= maxBlocks && lba <= cmds[i].lba && cmds[i].lba + cmds[i].blocks <= lba + n
    ensures i == 0 ==> cmds[i].lba == lba
    ensures i > 0 ==> cmds[i].lba == cmds[i - 1].lba + cmds[i - 1].blocks
    ensures i == |cmds| - 1 ==> cmds[i].lba + cmds[i].blocks == lba + n
    ensures write && maxBlocks >= 32 && i < |cmds| - 1 ==> (cmds[i].lba + cmds[i].blocks) % 32 == 0
    decreases |cmds|
  {
    hide NextBlocks;
    var m := cmds[0].blocks;
    if i > 0 {
      CoveringOrder(write, maxBlocks, cmds[1..], lba + m, n - m, total - m, i - 1);
      if i == 1 { assert cmds[1..][0] == cmds[1]; }
    }
  }
}
