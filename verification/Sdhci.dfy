/** The eMMC driver of soc/microchip/sdhci: readiness flags and error recovery
    under arbitrary hardware replies, and block transfers through the DMA region
    against a card that is a flat array of bytes.

    Hardware replies, timeouts and clocks are arbitrary values (`*`). */
module Sdhci {
  import opened Bits
  import opened Wire
  import opened Dma
  import opened SdhciPlan
  import Adma

  /** What the driver does and finds that an observer of the controller sees. */
  datatype Event =
    | Command(index: nat, arg: nat, status: nat, tolerated: nat) // completed with this response, despite these errors
    | CommandFailed(index: nat)                                  // issued, with an error or no completion in time
    | Inhibited(index: nat)                                      // not issued, the line stayed busy
    | Completed(ok: bool)                                        // the wait for the end of a transfer or of busy
    | Deadline                                                   // polling was given up
    | Clock(hz: nat, ok: bool)                                   // a change of the card clock
    | Reset(cmd: bool, dat: bool, ok: bool)
    | Release(addr: nat)

  datatype Status = Ok | NotInitialized | BadAlignment | BadRange | Failed | Panic

  predicate CleanR1(status: nat) {
    And(status, 0xfff9a080) == 0
  }

  /** Error bits of a card status (section 6.13 of JESD84-B51): SWITCH_ERROR,
      ERASE_RESET, WP_ERASE_SKIP, CID/CSD_OVERWRITE, and all from ERROR up. */
  const R1_ERRORS: set<nat> := {7, 13, 15, 16, 19, 20, 21, 22, 23, 24, 25, 26, 27, 28, 29, 30, 31}

  lemma CleanR1Exactly(status: nat)
    ensures CleanR1(status) <==> forall k :: k in R1_ERRORS ==> Bit(status, k) == 0
  {
    AndZero(status, 0xfff9a080);
    forall k: nat ensures Bit(0xfff9a080, k) == 1 <==> k in R1_ERRORS {
      MaskBits(k);
    }
    hide Bit;
  }

  lemma SkipNibble(x: nat, k: nat)
    requires k >= 4
    ensures Bit(x, k) == Bit(x / 16, k - 4)
  {
    assert Bit(x, k) == Bit(x / 2, k - 1) == Bit(x / 2 / 2, k - 2);
    var y := x / 2 / 2;
    assert Bit(y, k - 2) == Bit(y / 2, k - 3) == Bit(y / 2 / 2, k - 4);
    assert y == x / 4 && y / 2 / 2 == x / 16;
  }

  lemma Nibble(x: nat, k: nat)
    requires k < 4
    ensures Bit(x, k) == x / (if k == 0 then 1 else if k == 1 then 2 else if k == 2 then 4 else 8) % 2
  {
    assert Bit(x, 1) == Bit(x / 2, 0) && Bit(x, 2) == Bit(x / 2, 1) == Bit(x / 2 / 2, 0);
    assert Bit(x, 3) == Bit(x / 2, 2) == Bit(x / 2 / 2, 1) == Bit(x / 2 / 2 / 2, 0);
    assert x / 2 / 2 == x / 4 && x / 2 / 2 / 2 == x / 8;
  }

  lemma MaskBits(k: nat)
    ensures Bit(0xfff9a080, k) == 1 <==> k in R1_ERRORS
  {
    hide Bit;
    if k < 4 { Nibble(0xfff9a080, k); return; }
    SkipNibble(0xfff9a080, k);
    if k < 8 { Nibble(0xfff9a08, k - 4); return; }
    SkipNibble(0xfff9a08, k - 4);
    if k < 12 { Nibble(0xfff9a0, k - 8); return; }
    SkipNibble(0xfff9a0, k - 8);
    if k < 16 { Nibble(0xfff9a, k - 12); return; }
    SkipNibble(0xfff9a, k - 12);
    HighMaskBits(k);
  }

  lemma HighMaskBits(k: nat)
    requires k >= 16
    ensures Bit(0xfff9, k - 16) == 1 <==> k in R1_ERRORS
  {
    hide Bit;
    if k < 20 { Nibble(0xfff9, k - 16); return; }
    SkipNibble(0xfff9, k - 16);
    if k < 24 { Nibble(0xfff, k - 20); return; }
    SkipNibble(0xfff, k - 20);
    if k < 28 { Nibble(0xff, k - 24); return; }
    SkipNibble(0xff, k - 24);
    if k < 32 { Nibble(0xf, k - 28); return; }
    SkipNibble(0xf, k - 28);
    NoBit(k - 32);
  }

  /** Ready for data, current state TRAN. */
  predicate InTransferState(status: nat) {
    status / 0x100 % 2 == 1 && status / 0x200 % 16 == 4
  }

  // ---------------------------------------------------------------- recovery evidence

  ghost predicate Stopped(e: Event) {
    e.Command? && e.index == 12 && e.arg == 0 && CleanR1(e.status)
  }

  /** CMD13 for the card with address 1 answered cleanly: bit 8, ready for data, is
      set and bits [12:9], the current state, are 0100 (section 6.13 of JESD84-B51). */
  ghost predicate TransferStateSeen(e: Event) {
    && e.Command? && e.index == 13 && e.arg == 0x1_0000 && CleanR1(e.status)
    && Bit(e.status, 8) == 1
    && Bit(e.status, 9) == 0 && Bit(e.status, 10) == 0 && Bit(e.status, 11) == 1 && Bit(e.status, 12) == 0
  }

  lemma StateBits(status: nat)
    ensures InTransferState(status) <==>
            Bit(status, 8) == 1 && Bit(status, 9) == 0 && Bit(status, 10) == 0 && Bit(status, 11) == 1
            && Bit(status, 12) == 0
  {
    hide Bit;
    var y := status / 16 / 16;
    ByteUp(status, 0);
    ByteUp(status, 1);
    ByteUp(status, 2);
    ByteUp(status, 3);
    ByteUp(status, 4);
    Nibble(y, 0);
    Nibble(y, 1);
    Nibble(y, 2);
    Nibble(y, 3);
    SkipNibble(y, 4);
    Nibble(y / 16, 0);
    assert y == status / 0x100 && status / 0x200 == y / 2;
    StateDigits(y);
  }

  lemma ByteUp(x: nat, k: nat)
    ensures Bit(x, k + 8) == Bit(x / 16 / 16, k)
  {
    hide Bit;
    SkipNibble(x, k + 8);
    SkipNibble(x / 16, k + 4);
  }

  lemma Quotients(z: nat)
    ensures var r := z % 16;
            z % 2 == r % 2 && z / 2 % 2 == r / 2 % 2 && z / 4 % 2 == r / 4 % 2 && z / 8 % 2 == r / 8
  {
    ModMod(z, 8, 2);
    DivMod(z, 2, 8);
    ModMod(z / 2, 4, 2);
    DivMod(z, 4, 4);
    ModMod(z / 4, 2, 2);
    DivMod(z, 8, 2);
  }

  lemma StateDigits(y: nat)
    ensures y % 2 == 1 && y / 2 % 16 == 4 <==>
            y % 2 == 1 && y / 2 % 2 == 0 && y / 4 % 2 == 0 && y / 8 % 2 == 1 && y / 16 % 2 == 0
  {
    var z := y / 2;
    RemainderUnique(y, z / 2, z % 2 * 2 + y % 2, 4);
    RemainderUnique(y, z / 4, z % 4 * 2 + y % 2, 8);
    RemainderUnique(y, z / 8, z % 8 * 2 + y % 2, 16);
    Quotients(z);
  }

  /** The driver tried this command. */
  ghost predicate Attempted(e: Event, index: nat) {
    (e.Command? || e.CommandFailed? || e.Inhibited?) && e.index == index
  }

  /** Something went wrong. */
  ghost predicate Bad(e: Event) {
    match e
    case Command(index, _, status, _) => index !in {0, 1, 2} && !CleanR1(status)
    case CommandFailed(_) => true
    case Inhibited(_) => true
    case Completed(ok) => !ok
    case Deadline => true
    case Clock(_, ok) => !ok
    case Reset(_, _, ok) => !ok
    case Release(_) => false
  }

  ghost predicate Trouble(log: seq<Event>, from: nat) {
    exists i :: from <= i < |log| && Bad(log[i])
  }

  /** The data command completed cleanly and so did its transfer. */
  ghost predicate DataDone(log: seq<Event>, at: nat, command: nat, arg: nat) {
    && at + 1 < |log| && log[at].Command? && log[at].index == command && log[at].arg == arg && CleanR1(log[at].status)
    && log[at + 1] == Completed(true)
  }

  /** The command for a number of blocks. */
  function CommandFor(write: bool, blocks: nat): nat {
    if blocks == 1 then if write then 24 else 17 else if write then 25 else 18
  }

  /** The data commands in the log since `from` are those of `cmds`, at these
      positions, in order, and no others. */
  ghost predicate Logged(log: seq<Event>, from: nat, write: bool, cmds: seq<DataCommand>, at: seq<nat>) {
    && |at| == |cmds|
    && (forall i :: 0 <= i < |at| ==> from <= at[i] < |log|)
    && (forall i, j :: 0 <= i < j < |at| ==> at[i] < at[j])
    && (forall i :: 0 <= i < |at| ==> DataDone(log, at[i], CommandFor(write, cmds[i].blocks), cmds[i].lba))
    && (forall m :: from <= m < |log| && Data(log[m]) ==> m in at)
  }

  ghost predicate NoData(log: seq<Event>, from: nat) {
    forall m :: from <= m < |log| ==> !Data(log[m])
  }

  lemma LoggedAppend(log: seq<Event>, log': seq<Event>, from: nat, write: bool, cmds: seq<DataCommand>, at: seq<nat>,
                     c: DataCommand)
    requires Logged(log, from, write, cmds, at) && log <= log' && from <= |log|
    requires DataDone(log', |log|, CommandFor(write, c.blocks), c.lba) && NoData(log', |log| + 1)
    ensures Logged(log', from, write, cmds + [c], at + [|log|])
  {
    hide CommandFor, CleanR1;
    var at' := at + [|log|];
    forall i | 0 <= i < |at'|
      ensures DataDone(log', at'[i], CommandFor(write, (cmds + [c])[i].blocks), (cmds + [c])[i].lba)
    {
      if i < |at| { assert DataDone(log, at[i], CommandFor(write, cmds[i].blocks), cmds[i].lba); }
    }
    forall m | from <= m < |log'| && Data(log'[m]) ensures m in at' {
      if m < |log| {
        assert m in at;
      } else {
        assert m == |log|;
        assert at'[|at|] == m;
      }
    }
  }

  /** A data command, completed or failed. */
  ghost predicate Data(e: Event) {
    (e.Command? || e.CommandFailed?) && e.index in {8, 17, 18, 24, 25}
  }

  /** Since position `from`, and after the last data command: CMD12 succeeded,
      then a data-line reset succeeded, then CMD13 observed the transfer state. */
  ghost predicate Recovered(log: seq<Event>, from: nat) {
    exists i, j, k :: from <= i < j < k < |log| && RecoveredBy(log, i, j, k)
  }

  ghost predicate RecoveredBy(log: seq<Event>, i: nat, j: nat, k: nat)
    requires i < j < k < |log|
  {
    && Stopped(log[i]) && log[j] == Reset(false, true, true) && TransferStateSeen(log[k])
    && forall m :: i <= m < |log| ==> !Data(log[m])
  }

  /** The driver has given up the controller, or its flags are as before and the
      log since `from` shows the recovery. */
  ghost predicate Resolved(controllerReady: bool, ready: bool, controllerReady': bool, ready': bool,
                           log: seq<Event>, from: nat)
  {
    || (!controllerReady' && !ready')
    || (controllerReady' == controllerReady && ready' == ready && Recovered(log, from))
  }

  /** After an error: the log since `from` shows what went wrong, and it is resolved. */
  ghost predicate Settled(controllerReady: bool, ready: bool, controllerReady': bool, ready': bool,
                          log: seq<Event>, from: nat)
  {
    Trouble(log, from) && Resolved(controllerReady, ready, controllerReady', ready', log, from)
  }

  ghost predicate NoRelease(log: seq<Event>, from: nat) {
    forall i :: from <= i < |log| ==> !log[i].Release?
  }

  /** Neither a release nor a data command since `from`. */
  ghost predicate Quiet(log: seq<Event>, from: nat) {
    forall i :: from <= i < |log| ==> !log[i].Release? && !Data(log[i])
  }

  lemma RecoveredExtends(log: seq<Event>, log': seq<Event>, from: nat)
    requires Recovered(log, from) && log <= log' && forall m :: |log| <= m < |log'| ==> !Data(log'[m])
    ensures Recovered(log', from)
  {
    var i, j, k :| from <= i < j < k < |log| && RecoveredBy(log, i, j, k);
    assert RecoveredBy(log', i, j, k);
  }

  /** CMD6 for this register and value completed with a clean response at `at`. */
  ghost predicate Switched(log: seq<Event>, at: nat, register: nat, value: nat)
    requires register < 0x100 && value < 0x100
  {
    at < |log| && log[at].Command? && log[at].index == 6 && log[at].arg == SwitchArgument(register, value)
        && CleanR1(log[at].status)
  }

  /** The argument of CMD6 (section 6.6.1 of JESD84-B51): access 11, write byte, then
      the register and the value. */
  function SwitchArgument(register: nat, value: nat): (arg: nat)
    requires register < 0x100 && value < 0x100
    ensures arg / 0x100_0000 == 3 && arg / 0x1_0000 % 0x100 == register
    ensures arg / 0x100 % 0x100 == value && arg % 0x100 == 0
  {
    0x300_0000 + register * 0x1_0000 + value * 0x100
  }

  // ---------------------------------------------------------------- detection

  /** The card answered CMD1 with power-up done, bit 31, and sector mode, bits [30:29]. */
  ghost predicate PoweredUp(e: Event) {
    && e.Command? && e.index == 1 && e.arg == 0x40ff_8000
    && e.status / 0x8000_0000 % 2 == 1 && e.status / 0x2000_0000 % 4 == 2
  }

  /** The card does not use sector mode. */
  ghost predicate NotSector(e: Event) {
    e.Command? && e.index == 1 && e.status / 0x8000_0000 % 2 == 1 && e.status / 0x2000_0000 % 4 != 2
  }

  /** CMD2, CMD3 and CMD7 for address 1, and the switch to 8-bit width, all done. */
  ghost predicate Selected(log: seq<Event>, at: nat) {
    && at + 4 <= |log|
    && log[at].Command? && log[at].index == 2 && log[at].arg == 0
    && log[at + 1].Command? && log[at + 1].index == 3 && log[at + 1].arg == 0x1_0000 && CleanR1(log[at + 1].status)
    && log[at + 2].Command? && log[at + 2].index == 7 && log[at + 2].arg == 0x1_0000 && CleanR1(log[at + 2].status)
    && Switched(log, at + 3, 183, 2)
  }

  /** CMD0, then CMD1 until power-up, then the selection. */
  ghost predicate BroughtUp(log: seq<Event>, from: nat) {
    && from < |log| && log[from].Command? && log[from].index == 0 && log[from].arg == 0
    && exists k :: from < k < |log| && PoweredUp(log[k]) && Selected(log, k + 1)
  }

  /** Why detection may fail, as far as the log shows. */
  ghost predicate Refused(log: seq<Event>, from: nat) {
    Trouble(log, from) || exists i :: from <= i < |log| && NotSector(log[i])
  }

  lemma TroubleLater(log: seq<Event>, log': seq<Event>, from: nat, later: nat)
    requires log <= log' && from <= later && Trouble(log, later)
    ensures Trouble(log', from)
  {
    var i :| later <= i < |log| && Bad(log[i]);
    assert Bad(log'[i]);
  }

  /** The registers that describe a transfer to the controller: table address, block
      size and count, the count it sends with CMD23, direction, single or multiple. */
  datatype Registers = Registers(table: nat, blockSize: nat, blocks: nat, count: nat, toHost: bool, multi: bool)

  /** What the card and the controller answer during `Detect`: to CMD0, to CMD1,
      to the selection of the card, to the register read and to the faster modes,
      and whether a faster bus mode is verified by a second register read. */
  datatype Replies = Replies(idle: bool, powered: bool, selected: bool, read: bool, verified: bool, fast: bool)

  /** How `Detect` ends: `room` and `again` say whether the region can place the
      first and the second register read, `blocks` is the sector count. */
  function Outcome(controllerReady: bool, r: Replies, room: bool, again: bool, blocks: nat): Status {
    if !controllerReady then NotInitialized
    else if !r.idle || !r.powered || !r.selected then Failed
    else if !room then Panic
    else if !r.read || blocks == 0 then Failed
    else if r.verified && !again then Panic
    else if !r.fast then Failed
    else Ok
  }

  /** The deferred function of `Detect` runs during a panic too, with no error
      recorded, and sets the flag. */
  predicate SetsReady(st: Status) {
    st == Ok || st == Panic
  }

  /** Whatever card and controller answer, readiness after `Detect` means success
      exactly when the region had room for both register reads. */
  lemma ReadyMeansDetected(controllerReady: bool, room: bool, again: bool, blocks: nat)
    ensures (forall r :: SetsReady(Outcome(controllerReady, r, room, again, blocks)) ==>
                           Outcome(controllerReady, r, room, again, blocks) == Ok)
            <==> !controllerReady || (room && (again || blocks == 0))
  {
    var r := Replies(true, true, true, true, true, true);
    assert controllerReady && (!room || (!again && blocks > 0)) ==>
           Outcome(controllerReady, r, room, again, blocks) == Panic;
  }

  /** The check on the end of the region, in 64-bit arithmetic. */
  predicate EndAccepted(start: nat, size: nat) {
    (start + size) % WORD <= 0x1_0000_0000
  }

  /** It admits the regions ADMA2 can address, and those that end with the address space. */
  lemma EndAcceptedExactly(start: nat, size: nat)
    requires 0 < size && start + size <= WORD
    ensures EndAccepted(start, size) <==> start + size <= 0x1_0000_0000 || start + size == WORD
  {
  }

  class SDHCI {
    const region: Region
    var controllerReady: bool
    var ready: bool
    var maxBlocks: nat
    var cardBlocks: nat
    var cacheSize: nat
    var cacheEnabled: bool
    var hs: bool
    var ddr: bool

    /** What the host supports: high-speed timing and dual data rate. */
    const hostHS: bool
    const hostDDR: bool
    var regs: Registers

    /** The card: its user area and its Extended CSD register. */
    var flash: seq<byte>
    var extCSD: seq<byte>
    /** The memory the controller masters. */
    var mem: Adma.Memory

    ghost var log: seq<Event>

    ghost predicate Valid()
      reads this, region
    {
      && region.Valid() && region.start > 0 && region.start + region.size < WORD
      && |extCSD| == 512 && |flash| % 512 == 0 && Get32(extCSD, 212) == |flash| / 512
      && (ready ==> controllerReady)
      && (controllerReady ==>
          region.start + region.size <= 0x1_0000_0000 && maxBlocks > 0 && BlockLimit(region.size, maxBlocks))
      && (cardBlocks == 0 || |flash| == 512 * cardBlocks)
    }

    /** A driver bound to a region and a card, not initialised. */
    constructor (region: Region, flash: seq<byte>, extCSD: seq<byte>, hostHS: bool, hostDDR: bool)
      requires region.Valid() && region.start > 0 && region.start + region.size < WORD
      requires |extCSD| == 512 && |flash| % 512 == 0 && Get32(extCSD, 212) == |flash| / 512
      ensures Valid() && !ready && !controllerReady && this.region == region && this.flash == flash
    {
      this.region := region;
      this.flash, this.extCSD, mem := flash, extCSD, map[];
      controllerReady, ready, maxBlocks, cardBlocks := false, false, 0, 0;
      cacheSize, cacheEnabled, hs, ddr := 0, false, false, false;
      this.hostHS, this.hostDDR := hostHS, hostDDR;
      regs := Registers(0, 0, 0, 0, false, false);
      log := [];
    }

    // -------------------------------------------------------------- commands

    method ResetLines(cmd: bool, dat: bool) returns (ok: bool)
      modifies this`log
      ensures log == old(log) + [Reset(cmd, dat, ok)]
    {
      ok := *;
      log := log + [Reset(cmd, dat, ok)];
    }

    /** Issue a command; `ignored` is non-zero when tolerated error bits were seen. */
    method RunCommand(index: nat, arg: nat) returns (value: nat, ignored: nat, issued: bool, ok: bool)
      requires index in {0, 1, 2, 3, 6, 7, 8, 9, 12, 13, 17, 18, 24, 25}
      modifies this`log
      ensures old(log) <= log && NoRelease(log, |old(log)|)
      ensures index !in {8, 17, 18, 24, 25} ==> Quiet(log, |old(log)|)
      ensures ok ==> issued && log == old(log) + [Command(index, arg, value, ignored)]
      ensures |log| > |old(log)| && Attempted(log[|old(log)|], index)
      ensures !ok ==>
          && |log| == |old(log)| + 2 && log[|old(log)|] == (if issued then CommandFailed(index) else Inhibited(index))
          && log[|old(log)| + 1].Reset? && log[|old(log)| + 1].cmd
          && (log[|old(log)| + 1].dat <==> index in {6, 7, 8, 12, 17, 18, 24, 25})
    {
      value, ignored := 0, 0;
      var usesDataLine := index in {6, 7, 8, 12, 17, 18, 24, 25};
      var idle: bool := *;
      if !idle {
        log := log + [Inhibited(index)];
        var r := ResetLines(true, usesDataLine);
        return 0, 0, false, false;
      }
      issued := true;
      value, ignored, ok := PollStatus();
      if !ok {
        log := log + [CommandFailed(index)];
        var r := ResetLines(true, usesDataLine);
      } else {
        log := log + [Command(index, arg, value, ignored)];
      }
    }

    /** Wait for an expected status bit: any response, any tolerated errors, or failure. */
    method PollStatus() returns (value: nat, ignored: nat, ok: bool)
    {
      var v: bv32 := *;
      var i: bv16 := *;
      ok := *;
      value, ignored := if ok then v as nat else 0, i as nat;
    }

    /** Wait for the end of a transfer or of busy. */
    method PollTransfer() returns (ok: bool)
      modifies this`log
      ensures log == old(log) + [Completed(ok)]
    {
      var _, _, done := PollStatus();
      ok := done;
      log := log + [Completed(ok)];
    }

    /** Poll CMD13 until the card is ready in the transfer state; the deadline
        allows any number of polls. It succeeds exactly when the last poll saw the
        state, and otherwise the log shows why. */
    method WaitState() returns (ok: bool)
      modifies this`log
      ensures old(log) <= log && Quiet(log, |old(log)|)
      ensures |log| > |old(log)| && Attempted(log[|old(log)|], 13)
      ensures ok <==> TransferStateSeen(log[|log| - 1])
      ensures !ok ==> Trouble(log, |old(log)|) && forall i :: |old(log)| <= i < |log| ==> !TransferStateSeen(log[i])
    {
      hide CleanR1, Bit;
      var polls: nat := *;
      while true
        invariant old(log) <= log && Quiet(log, |old(log)|)
        invariant |log| > |old(log)| ==> Attempted(log[|old(log)|], 13)
        invariant forall i :: |old(log)| <= i < |log| ==> !TransferStateSeen(log[i])
        decreases polls
      {
        var value, _, _, done := RunCommand(13, 0x1_0000);
        StateBits(value);
        if !done || !CleanR1(value) {
          assert Bad(log[|log| - if done then 1 else 2]);
          return false;
        }
        if InTransferState(value) {
          return true;
        }
        if polls == 0 {
          log := log + [Deadline];
          assert Bad(log[|log| - 1]);
          return false;
        }
        polls := polls - 1;
      }
    }

    method WaitBusy()
      modifies this`log
      ensures old(log) <= log && Quiet(log, |old(log)|)
      ensures |log| > |old(log)| && log[|old(log)|].Completed?
      ensures if log[|old(log)|].ok then |log| == |old(log)| + 1
              else |log| == |old(log)| + 2 && var e := log[|old(log)| + 1]; e.Reset? && !e.cmd && e.dat
    {
      var ok := PollTransfer();
      if !ok {
        var r := ResetLines(false, true);
      }
    }

    // -------------------------------------------------------------- recovery

    method InvalidateTransfer()
      modifies this`controllerReady, this`ready, this`log
      ensures !controllerReady && !ready
      ensures old(log) <= log && Quiet(log, |old(log)|)
      ensures |log| == |old(log)| + 1 && log[|old(log)|].Reset? && log[|old(log)|].cmd && log[|old(log)|].dat
    {
      controllerReady := false;
      ready := false;
      var r := ResetLines(true, true);
    }

    /** CMD12, the wait for the card to release busy, and the data-line reset. */
    method AbortCard() returns (ok: bool)
      modifies this`log
      ensures old(log) <= log && Quiet(log, |old(log)|)
      ensures |log| > |old(log)| && Attempted(log[|old(log)|], 12)
      ensures forall i :: |old(log)| <= i < |log| ==> !TransferStateSeen(log[i])
      ensures ok ==> |log| > |old(log)| + 1 && Stopped(log[|old(log)|]) && log[|log| - 1] == Reset(false, true, true)
      ensures log[|old(log)|].Command? ==>
          |log| > |old(log)| + 1 && (log[|old(log)| + 1].Completed? <==> log[|old(log)|].tolerated == 0)
    {
      hide CleanR1, Bit;
      var status, ignored, _, done := RunCommand(12, 0);
      if !done {
        return false;
      }
      if ignored == 0 {
        WaitBusy();
      }
      done := ResetLines(false, true);
      ok := done && CleanR1(status);
    }

    /** Abort a multiple-block transfer that failed: the driver tries CMD12, and stays
        usable exactly with evidence that the card recovered. */
    method StopTransmission()
      modifies this`controllerReady, this`ready, this`log
      ensures old(log) <= log && Quiet(log, |old(log)|)
      ensures |log| > |old(log)| && Attempted(log[|old(log)|], 12)
      ensures Resolved(old(controllerReady), old(ready), controllerReady, ready, log, |old(log)|)
      ensures Recovered(log, |old(log)|) ==> controllerReady == old(controllerReady) && ready == old(ready)
    {
      hide Recovered, RecoveredBy, Stopped, Bad;
      ghost var n := |log|;
      var ok := AbortCard();
      ghost var aborted := log;
      if ok {
        ok := WaitState();
      }
      if !ok {
        InvalidateTransfer();
        NotSeen(log[|log| - 1]);
        NeverRecovered(log, n);
        return;
      }
      ShowRecovered(log, n, n, |aborted| - 1, |log| - 1);
    }

    // -------------------------------------------------------------- transfers

    /** Reserve and fill the data buffer and the descriptor table. */
    method Prepare(write: bool, buf: seq<byte>) returns (p: Placement, q: Placement, table: seq<byte>)
      requires region.Valid() && region.start > 0 && region.start + region.size <= 0x1_0000_0000
      requires 0 < |buf| < 0x1000_0000 && |buf| % 512 == 0
      modifies region, this`mem, this`log
      ensures region.Valid()
      ensures p.Placed? && q.Placed? <==> RoomFor(region.start, region.size, old(region.usedBlocks), |buf|)
      ensures p.OutOfMemory? || q.OutOfMemory? ==> region.usedBlocks == old(region.usedBlocks)
      ensures log == if p.Placed? && q.OutOfMemory? then old(log) + [Release(p.addr)] else old(log)
      ensures p.Placed? && q.Placed? ==>
              Prepared(old(region.usedBlocks), region, mem, write, buf, p.addr, q.addr, table)
      ensures old(region.usedBlocks) == map[] && |buf| + Adma.TableSize(|buf|) + 30 <= region.size ==>
              p.Placed? && q.Placed?
    {
      hide LowestPlacement, Tiling, EffectiveAlignment, ToUint, Join, RoomFor;
      hide Adma.ChainOf, Adma.Load, Adma.Store, Adma.Blocks, Adma.TableSize;
      q, table := OutOfMemory, [];
      p := region.Reserve(|buf|, 16);
      AlignmentSixteen();
      if p.OutOfMemory? {
        if old(region.usedBlocks) == map[] && |buf| + 30 <= region.size {
          DataFits(region.start, region.size, |buf|, p);
        }
        NoRoom(region.start, region.size, old(region.usedBlocks), |buf|, p, q);
        return;
      }
      BlockInUse(region, p.addr);
      if old(region.usedBlocks) == map[] && |buf| + 30 <= region.size {
        DataFits(region.start, region.size, |buf|, p);
      }
      if write {
        mem := Adma.Store(mem, p.addr, buf);
        Adma.LoadStored(old(mem), p.addr, buf);
      }
      table := Adma.Table(p.addr, |buf|);
      TablePositive(|buf|);
      ghost var used := region.usedBlocks;
      q := region.Reserve(|table|, 16);
      if q.OutOfMemory? {
        if old(region.usedBlocks) == map[] && |buf| + |table| + 30 <= region.size {
          TableFits(region.start, region.size, |buf|, |table|, p.addr, used, q);
        }
        NoRoom(region.start, region.size, old(region.usedBlocks), |buf|, p, q);
        region.FreeBlock(p.addr, true);
        Restored(old(region.usedBlocks), p.addr, Block(p.addr, |buf|, true));
        log := log + [Release(p.addr)];
        return;
      }
      BlockInUse(region, p.addr);
      BlockInUse(region, q.addr);
      Room(region.start, region.size, old(region.usedBlocks), |buf|, p.addr, q.addr);
      ghost var before := mem;
      mem := Adma.Store(mem, q.addr, table);
      Adma.LoadStored(before, q.addr, table);
      Adma.LoadDisjoint(before, q.addr, table, p.addr, |buf|);
    }

    /** Whatever a failed write leaves in its target blocks. */
    method Scramble(lo: nat, n: nat)
      requires lo + n <= |flash|
      modifies this`flash
      ensures SameOutside(old(flash), flash, lo, n)
    {
      var junk: seq<byte> := *;
      if |junk| == n {
        flash := flash[..lo] + junk + flash[lo + n..];
      }
    }

    /** A failed command: abort a multiple-block transfer that was issued,
        otherwise give up the controller. */
    method Fail(abort: bool)
      modifies this`controllerReady, this`ready, this`log
      ensures !abort ==> !controllerReady && !ready
      ensures old(log) <= log && Quiet(log, |old(log)|)
      ensures |log| > |old(log)| && (abort ==> Attempted(log[|old(log)|], 12))
      ensures Resolved(old(controllerReady), old(ready), controllerReady, ready, log, |old(log)|)
    {
      if abort {
        StopTransmission();
      } else {
        InvalidateTransfer();
      }
    }

    /** Program the controller for a transfer. */
    method Program(desc: nat, blocks: nat, write: bool)
      requires desc < 0x1_0000_0000 && 0 < blocks <= 0xffff
      modifies this`regs
      ensures regs.table == desc && regs.blockSize == 512 && regs.blocks == blocks
      ensures (regs.toHost <==> !write) && (regs.multi <==> blocks > 1) && (regs.multi ==> regs.count == blocks)
    {
      regs := regs.(table := desc % 0x1_0000_0000, blockSize := 512, blocks := blocks);
      var multi := blocks > 1;
      regs := regs.(toHost := !write, multi := multi);
      if multi {
        regs := regs.(count := blocks);
      }
    }

    /** Issue the data command and wait for its end. The controller moves what the
        table in memory describes, in the programmed direction, and the card the
        blocks from the argument of the command on, as many as it was told. */
    method Exchange(command: nat, arg: nat, table: seq<byte>) returns (ok: bool)
      requires command in {8, 17, 18, 24, 25} && (regs.toHost <==> command !in {24, 25})
      requires Adma.Load(mem, regs.table, |table|) == table
      requires regs.multi <==> command in {18, 25}
      requires 512 * (if regs.multi then regs.count else 1) == regs.blockSize * regs.blocks
      requires regs.blockSize * regs.blocks == Adma.Total(Adma.Fetch(table))
      requires if command == 8 then regs.blockSize * regs.blocks == |extCSD|
               else 512 * arg + regs.blockSize * regs.blocks <= |flash|
      modifies this`controllerReady, this`ready, this`log, this`flash, this`mem
      ensures old(log) <= log && NoRelease(log, |old(log)|)
      ensures |log| > |old(log)| && Attempted(log[|old(log)|], command)
      ensures ok <==> DataDone(log, |old(log)|, command, arg)
      ensures |log| >= |old(log)| + 2 && (ok ==> |log| == |old(log)| + 2)
      ensures ok ==> controllerReady == old(controllerReady) && ready == old(ready)
      ensures !ok ==> Settled(old(controllerReady), old(ready), controllerReady, ready, log, |old(log)|)
      ensures !ok && command !in {18, 25} ==> !controllerReady && !ready
      ensures log[|old(log)|].Inhibited? ==> !controllerReady && !ready
      ensures !ok && command in {18, 25} && !log[|old(log)|].Inhibited? ==>
          exists j :: |old(log)| < j < |log| && Attempted(log[j], 12)
      ensures var lo, n, chunks := 512 * arg, regs.blockSize * regs.blocks, Adma.Fetch(table);
              && (regs.toHost ==> flash == old(flash))
              && (!regs.toHost && !ok ==> SameOutside(old(flash), flash, lo, n))
              && (!regs.toHost && ok ==>
                  flash == old(flash)[..lo] + Adma.Gather(old(mem), chunks) + old(flash)[lo + n..])
              && (regs.toHost && ok ==>
                  mem == Adma.Scatter(old(mem), chunks, CardBytes(command, old(flash), extCSD, lo, n)))
    {
      hide CleanR1, Adma.Load, Adma.Fetch, Adma.Total, Adma.Gather, Adma.Scatter, SameOutside, CardBytes;
      var stop := command == 18 || command == 25;
      var issued, done := IssueData(command, arg);
      if done {
        Move(command, arg, table);
        return true;
      }
      ghost var tried := log;
      if !regs.toHost {
        if issued {
          Scramble(512 * arg, regs.blockSize * regs.blocks);
        } else {
          Untouched(flash, 512 * arg, regs.blockSize * regs.blocks);
        }
      }
      Fail(stop && issued);
      TroubleLater(tried, log, |old(log)|, |old(log)|);
      LaterRecovery(log, |old(log)|, |tried|);
      ok := false;
    }

    /** The command and its transfer, up to the first error. */
    method IssueData(command: nat, arg: nat) returns (issued: bool, done: bool)
      requires command in {8, 17, 18, 24, 25}
      modifies this`log
      ensures old(log) <= log && NoRelease(log, |old(log)|)
      ensures |log| > |old(log)| && Attempted(log[|old(log)|], command)
      ensures done <==> DataDone(log, |old(log)|, command, arg)
      ensures done ==> |log| == |old(log)| + 2
      ensures !done ==> Trouble(log, |old(log)|)
      ensures !done && log[|old(log)|].Command? && CleanR1(log[|old(log)|].status) ==>
          |log| == |old(log)| + 2 && log[|old(log)| + 1] == Completed(false)
      ensures issued <==> !log[|old(log)|].Inhibited?
    {
      hide CleanR1;
      var status, ignored, ok;
      status, ignored, issued, ok := RunCommand(command, arg);
      done := false;
      if !ok || !CleanR1(status) {
        assert Bad(log[|old(log)|]);
        return;
      }
      done := PollTransfer();
      if !done { assert Bad(log[|log| - 1]); }
    }

    /** The bytes move between card and memory. */
    method Move(command: nat, arg: nat, table: seq<byte>)
      requires command in {8, 17, 18, 24, 25} && (regs.toHost <==> command !in {24, 25})
      requires Adma.Load(mem, regs.table, |table|) == table
      requires regs.blockSize * regs.blocks == Adma.Total(Adma.Fetch(table))
      requires if command == 8 then regs.blockSize * regs.blocks == |extCSD|
               else 512 * arg + regs.blockSize * regs.blocks <= |flash|
      modifies this`flash, this`mem
      ensures var lo, n, chunks := 512 * arg, regs.blockSize * regs.blocks, Adma.Fetch(table);
              && (regs.toHost ==> flash == old(flash))
              && (!regs.toHost ==> flash == old(flash)[..lo] + Adma.Gather(old(mem), chunks) + old(flash)[lo + n..])
              && (regs.toHost ==> mem == Adma.Scatter(old(mem), chunks, CardBytes(command, old(flash), extCSD, lo, n)))
    {
      hide Adma.Load, Adma.Fetch, Adma.Total, Adma.Gather, Adma.Scatter;
      var lo, n := 512 * arg, regs.blockSize * regs.blocks;
      var chunks := Adma.Fetch(Adma.Load(mem, regs.table, |table|));
      if !regs.toHost {
        flash := flash[..lo] + Adma.Gather(mem, chunks) + flash[lo + n..];
      } else {
        mem := Adma.Scatter(mem, chunks, CardBytes(command, flash, extCSD, lo, n));
      }
    }

    /** The deferred releases, in the order they run. */
    method ReleaseBoth(data: nat, desc: nat, ghost used: map<nat, Block>, ghost n: nat, ghost t: nat)
      requires region.Valid() && data !in used && desc !in used && data != desc && data > 0 && desc > 0
      requires region.usedBlocks == used[data := Block(data, n, true)][desc := Block(desc, t, true)]
      modifies region, this`log
      ensures region.Valid() && region.usedBlocks == used
      ensures log == old(log) + [Release(desc), Release(data)]
    {
      region.FreeBlock(desc, true);
      Restored(used[data := Block(data, n, true)], desc, Block(desc, t, true));
      region.FreeBlock(data, true);
      Restored(used, data, Block(data, n, true));
      log := log + [Release(desc), Release(data)];
    }

    /** One data command. Both reservations are released on every exit, as the
        last two things that happen, after any abort. */
    method TransferDMA(index: nat, write: bool, lba: nat, buf: seq<byte>, blocks: nat)
        returns (st: Status, out: seq<byte>)
      requires Valid() && controllerReady && 0 < blocks <= 0xffff && |buf| == 512 * blocks
      requires index in {8, 18, 25} && (write <==> index == 25)
      requires lba < 0x1_0000_0000 && if index == 8 then blocks == 1 else lba * 512 + |buf| <= |flash|
      modifies region, this`controllerReady, this`ready, this`log, this`flash, this`mem, this`regs
      ensures Valid() && region.usedBlocks == old(region.usedBlocks)
      ensures (st == Ok || st == Failed || st == Panic) && |out| == |buf|
      ensures st == Panic <==> !RoomFor(region.start, region.size, old(region.usedBlocks), |buf|)
      ensures st == Panic ==> flash == old(flash)
      ensures st == Panic ==>
              log == old(log) || (|log| == |old(log)| + 1 && old(log) <= log && log[|old(log)|].Release?)
      ensures st != Failed ==> controllerReady == old(controllerReady) && ready == old(ready)
      ensures st == Failed ==> Settled(old(controllerReady), old(ready), controllerReady, ready, log, |old(log)|)
      ensures st == Failed && blocks == 1 ==> !controllerReady && !ready
      ensures var command := if index == 8 then 8 else CommandFor(write, blocks);
              st == Ok <==> st != Panic && DataDone(log, |old(log)|, command, lba)
      ensures st == Ok ==> NoData(log, |old(log)| + 1)
      ensures st != Panic ==>
          && |log| >= |old(log)| + 2 && old(log) <= log && log[|log| - 2].Release? && log[|log| - 1].Release?
          && NoRelease(log[..|log| - 2], |old(log)|)
      ensures write && st == Ok ==> flash == Written(old(flash), lba * 512, buf)
      ensures !write && st == Ok ==> out == CardBytes(index, old(flash), extCSD, lba * 512, |buf|)
      ensures !write ==> flash == old(flash)
      ensures write ==> SameOutside(old(flash), flash, lba * 512, |buf|)
      ensures old(region.usedBlocks) == map[] && blocks <= maxBlocks ==> st != Panic
    {
      hide Listed, Join, BlockLimit, Recovered, Fits, NoRelease, Settled, SameOutside, RoomFor, Get32, Prepared;
      hide Adma.TableSize, Written;
      out := buf;
      if blocks <= maxBlocks { UpToLimitFits(region.size, maxBlocks, blocks); }
      BlocksFit(region.size, blocks);
      var p, q, table := Prepare(write, buf);
      if p.OutOfMemory? || q.OutOfMemory? {
        if write { NothingElse(flash, flash, lba * 512, buf); }
        return Panic, buf;
      }
      PreparedBlocks(old(region.usedBlocks), region, mem, write, buf, p.addr, q.addr, table);
      var command := if index == 18 && blocks == 1 then 17 else if index == 25 && blocks == 1 then 24 else index;
      var ok;
      ok, out := RunTransfer(command, write, lba, buf, blocks, p.addr, q.addr, table, old(region.usedBlocks));
      ghost var finished := log;
      ReleaseBoth(p.addr, q.addr, old(region.usedBlocks), |buf|, |table|);
      ReleasedLog(old(log), finished, log);
      DoneExtends(finished, log, |old(log)|, command, lba);
      if !ok { SettledExtends(old(controllerReady), old(ready), controllerReady, ready, finished, log, |old(log)|); }
      st := if ok then Ok else Failed;
    }

    /** The command of a prepared transfer, and the copy of what was read. */
    method RunTransfer(command: nat, write: bool, lba: nat, buf: seq<byte>, blocks: nat, data: nat, desc: nat,
                       table: seq<byte>, ghost used: map<nat, Block>) returns (ok: bool, out: seq<byte>)
      requires command in {8, 17, 18, 24, 25} && (write <==> command in {24, 25}) && lba < 0x1_0000_0000
      requires 0 < blocks <= 0xffff && |buf| == 512 * blocks && (command in {18, 25} <==> blocks > 1)
      requires Prepared(used, region, mem, write, buf, data, desc, table)
      requires if command == 8 then |buf| == |extCSD| else lba * 512 + |buf| <= |flash|
      modifies this`controllerReady, this`ready, this`log, this`flash, this`mem, this`regs
      ensures old(log) <= log && NoRelease(log, |old(log)|) && |out| == |buf|
      ensures ok <==> DataDone(log, |old(log)|, command, lba)
      ensures |log| >= |old(log)| + 2 && (ok ==> |log| == |old(log)| + 2)
      ensures ok ==> controllerReady == old(controllerReady) && ready == old(ready)
      ensures !ok ==> Settled(old(controllerReady), old(ready), controllerReady, ready, log, |old(log)|)
      ensures !ok && command !in {18, 25} ==> !controllerReady && !ready
      ensures write && ok ==> flash == Written(old(flash), lba * 512, buf)
      ensures !write && ok ==> out == CardBytes(command, old(flash), extCSD, lba * 512, |buf|)
      ensures |flash| == |old(flash)| && (!write ==> flash == old(flash))
      ensures write ==> SameOutside(old(flash), flash, lba * 512, |buf|)
    {
      hide Join, Adma.Blocks, Adma.ChainOf, Adma.Load, Adma.Fetch, Adma.Total, Adma.Gather, Adma.Scatter;
      hide NoRelease, Settled, SameOutside, DataDone, Attempted;
      out := buf;
      Program(desc, blocks, write);
      TransferLemma(data, buf, mem, CardBytes(command, flash, extCSD, lba * 512, |buf|));
      ok := Exchange(command, lba % 0x1_0000_0000, table);
      if ok && !write {
        out := Adma.Load(mem, data, |buf|);
      }
      if write {
        NothingElse(old(flash), flash, lba * 512, buf);
        SameSize(old(flash), flash, lba * 512, |buf|);
      }
    }

    /** One step of a transfer: a data command and, for a write, the wait for the
        card to leave the programming state. */
    method TransferChunk(write: bool, lba: nat, buf: seq<byte>, blocks: nat) returns (st: Status, out: seq<byte>)
      requires Valid() && controllerReady && 0 < blocks <= 0xffff && |buf| == 512 * blocks
      requires lba * 512 + |buf| <= |flash| && lba < 0x1_0000_0000
      modifies region, this`controllerReady, this`ready, this`log, this`flash, this`mem, this`regs
      ensures Valid() && region.usedBlocks == old(region.usedBlocks)
      ensures (st == Ok || st == Failed || st == Panic) && |out| == |buf|
      ensures old(log) <= log
      ensures st != Failed ==> controllerReady == old(controllerReady) && ready == old(ready)
      ensures st == Failed ==> Settled(old(controllerReady), old(ready), controllerReady, ready, log, |old(log)|)
      ensures st == Ok ==> DataDone(log, |old(log)|, CommandFor(write, blocks), lba) && NoData(log, |old(log)| + 1)
      ensures st == Ok && write ==> TransferStateSeen(log[|log| - 1])
      ensures write && st == Ok ==> flash == Written(old(flash), lba * 512, buf)
      ensures !write && st == Ok ==> out == old(flash)[lba * 512..lba * 512 + |buf|]
      ensures !write ==> flash == old(flash)
      ensures write ==> SameOutside(old(flash), flash, lba * 512, |buf|)
      ensures old(region.usedBlocks) == map[] && blocks <= maxBlocks ==> st != Panic
    {
      hide BlockLimit, Recovered, Listed, Get32, CleanR1, TransferStateSeen, Bad;
      st, out := TransferDMA(if write then 25 else 18, write, lba, buf, blocks);
      if st == Ok && write {
        ghost var sent := log;
        var ok := WaitState();
        DoneExtends(sent, log, |old(log)|, CommandFor(write, blocks), lba);
        if !ok { TroubleLater(log, log, |old(log)|, |sent|); }
        ghost var waited := log;
        if !ok {
          Scramble(lba * 512, |buf|);
          InvalidateTransfer();
          TroubleLater(waited, log, |old(log)|, |old(log)|);
          st := Failed;
        }
      }
    }

    /** Why a request is refused before anything is issued. */
    function ValidateTransfer(lba: int, length: nat): (st: Status)
      reads this
      ensures st == Ok <==> ready && length > 0 && length % 512 == 0 && 0 <= lba && lba + length / 512 <= cardBlocks
      ensures st == NotInitialized <==> !ready
      ensures st == BadRange ==> length > 0 && length % 512 == 0
      ensures st == BadAlignment ==> length == 0 || length % 512 != 0
      ensures st in {Ok, NotInitialized, BadAlignment, BadRange}
    {
      if !ready then NotInitialized
      else if length == 0 || length % 512 != 0 then BadAlignment
      else if lba < 0 || lba > cardBlocks - length / 512 then BadRange
      else Ok
    }

    /** The command for `blocks` blocks from `at` on, `done` bytes into a request. */
    method TransferStep(write: bool, lba: nat, buf: seq<byte>, at: nat, done: nat, blocks: nat, ghost flash0: seq<byte>)
      returns (st: Status, out: seq<byte>)
      requires Valid() && controllerReady && 0 < blocks <= 0xffff && lba * 512 + |buf| <= |flash| == |flash0|
      requires done == 512 * (at - lba) && lba <= at < 0x1_0000_0000 && done + 512 * blocks <= |buf|
      requires flash == if write then Written(flash0, lba * 512, buf[..done]) else flash0
      modifies region, this`controllerReady, this`ready, this`log, this`flash, this`mem, this`regs
      ensures Valid() && region.usedBlocks == old(region.usedBlocks) && |flash| == |flash0|
      ensures (st == Ok || st == Failed || st == Panic) && |out| == 512 * blocks
      ensures old(log) <= log
      ensures st != Failed ==> controllerReady == old(controllerReady) && ready == old(ready)
      ensures st == Failed ==> Settled(old(controllerReady), old(ready), controllerReady, ready, log, |old(log)|)
      ensures st == Ok ==> DataDone(log, |old(log)|, CommandFor(write, blocks), at) && NoData(log, |old(log)| + 1)
      ensures st == Ok ==> flash == if write then Written(flash0, lba * 512, buf[..done + 512 * blocks]) else flash0
      ensures !write && st == Ok ==> out == Slice(flash0, lba * 512 + done, 512 * blocks)
      ensures !write ==> flash == flash0
      ensures st != Ok && write ==> SameOutside(flash0, flash, lba * 512, |buf|)
      ensures old(region.usedBlocks) == map[] && blocks <= maxBlocks ==> st != Panic
    {
      hide BlockLimit, Recovered, Listed, Written, SameOutside, Get32, Settled, DataDone, NoData, CommandFor;
      hide TransferStateSeen;
      var length := 512 * blocks;
      st, out := TransferChunk(write, at, buf[done..done + length], blocks);
      if write {
        SameSize(old(flash), flash, at * 512, length);
        if st == Ok {
          ExtendWrite(flash0, old(flash), flash, lba * 512, buf, done, length);
        } else {
          OutsideChunk(flash0, old(flash), flash, lba * 512, buf, done, length);
        }
      }
    }

    /** The command loop of a validated request. */
    method TransferLoop(write: bool, lba: nat, buf: seq<byte>)
      returns (st: Status, out: seq<byte>, ghost cmds: seq<DataCommand>, ghost at: seq<nat>)
      requires Valid() && ready && |buf| > 0 && |buf| % 512 == 0 && lba * 512 + |buf| <= |flash|
      modifies region, this`controllerReady, this`ready, this`log, this`flash, this`mem, this`regs
      ensures Valid() && region.usedBlocks == old(region.usedBlocks)
      ensures st == Ok || st == Failed || st == Panic
      ensures st != Failed ==> controllerReady == old(controllerReady) && ready == old(ready)
      ensures st == Failed ==> Settled(old(controllerReady), old(ready), controllerReady, ready, log, |old(log)|)
      ensures !write ==> flash == old(flash)
      ensures write ==> SameOutside(old(flash), flash, lba * 512, |buf|)
      ensures write && st == Ok ==> flash == Written(old(flash), lba * 512, buf)
      ensures !write && st == Ok ==> out == old(flash)[lba * 512..lba * 512 + |buf|]
      ensures st == Ok ==> maxBlocks > 0 && Covering(write, maxBlocks, cmds, lba, |buf| / 512, |buf| / 512)
      ensures st == Ok ==> Logged(log, |old(log)|, write, cmds, at)
      ensures old(region.usedBlocks) == map[] ==> st != Panic
    {
      hide BlockLimit, Recovered, Listed, Covering, NextBlocks, Written, SameOutside, Get32, Settled, Slice;
      hide Logged, DataDone, NoData, CommandFor;
      cmds, at := [], [];
      LimitBound(region.size, maxBlocks);
      NothingYet(write, maxBlocks, lba, |buf| / 512, flash, log);
      WholeWrite(flash, flash, lba * 512, buf[..0]);
      SliceIs(flash, lba * 512, 0);
      var next, done := lba, 0;
      var read: seq<byte> := [];
      while done < |buf|
        invariant 0 <= done <= |buf| && done == 512 * (next - lba) && lba <= next
        invariant Valid() && controllerReady && ready && region.usedBlocks == old(region.usedBlocks)
        invariant old(log) <= log && |flash| == |old(flash)|
        invariant flash == if write then Written(old(flash), lba * 512, buf[..done]) else old(flash)
        invariant |read| == done && (!write ==> read == Slice(old(flash), lba * 512, done))
        invariant Covering(write, maxBlocks, cmds, lba, next - lba, |buf| / 512)
        invariant Logged(log, |old(log)|, write, cmds, at)
        decreases |buf| - done
      {
        var blocks := NextBlocks(write, next, (|buf| - done) / 512, maxBlocks);
        var length := blocks * 512;
        ghost var logged := log;
        var chunk;
        st, chunk := TransferStep(write, lba, buf, next, done, blocks, old(flash));
        if st != Ok {
          SettledEarlier(old(controllerReady), old(ready), controllerReady, ready, log, |old(log)|, |logged|);
          out := read + buf[done..];
          return;
        }
        CoveringAppend(write, maxBlocks, cmds, lba, next - lba, |buf| / 512, DataCommand(next, blocks));
        LoggedAppend(logged, log, |old(log)|, write, cmds, at, DataCommand(next, blocks));
        cmds, at := cmds + [DataCommand(next, blocks)], at + [|logged|];
        if !write { ExtendRead(old(flash), lba * 512, done, length); }
        read := read + chunk;
        done := done + length;
        next := next + blocks;
      }
      assert buf[..done] == buf;
      if write { WholeWrite(old(flash), flash, lba * 512, buf); } else { SliceIs(old(flash), lba * 512, |buf|); }
      out := read;
      st := Ok;
    }

    /** Split a request into data commands that fit the region. On success a
        write is one update of the flat card, a read one slice of it, and the data
        commands in the log are those that cover the request, in order; on an error nothing outside the
        request changes and the driver is settled. */
    method TransferBlocks(write: bool, lba: int, buf: seq<byte>)
      returns (st: Status, out: seq<byte>, ghost cmds: seq<DataCommand>, ghost at: seq<nat>)
      requires Valid()
      modifies region, this`controllerReady, this`ready, this`log, this`flash, this`mem, this`regs
      ensures Valid() && region.usedBlocks == old(region.usedBlocks)
      ensures var v := old(ValidateTransfer(lba, |buf|));
              if v != Ok then st == v && flash == old(flash) && log == old(log) && out == buf
              else lba * 512 + |buf| <= |old(flash)| && (st == Ok || st == Failed || st == Panic)
      ensures st != Failed ==> controllerReady == old(controllerReady) && ready == old(ready)
      ensures st == Failed ==> Settled(old(controllerReady), old(ready), controllerReady, ready, log, |old(log)|)
      ensures !write ==> flash == old(flash)
      ensures write && (st == Failed || st == Panic) ==> SameOutside(old(flash), flash, lba * 512, |buf|)
      ensures write && st == Ok ==> flash == Written(old(flash), lba * 512, buf)
      ensures !write && st == Ok ==> out == old(flash)[lba * 512..lba * 512 + |buf|]
      ensures st == Ok ==> maxBlocks > 0 && Covering(write, maxBlocks, cmds, lba, |buf| / 512, |buf| / 512)
      ensures st == Ok ==> Logged(log, |old(log)|, write, cmds, at)
      ensures old(region.usedBlocks) == map[] ==> st != Panic
    {
      hide BlockLimit, Recovered, Listed, Covering, Get32, Logged;
      out, cmds, at := buf, [], [];
      st := ValidateTransfer(lba, |buf|);
      if st == Ok {
        st, out, cmds, at := TransferLoop(write, lba, buf);
      }
    }

    /** Read bytes at any offset. `Panic` also stands for a request so long that
        the size of its block buffer overflows. */
    method Read(offset: int, size: int) returns (st: Status, data: seq<byte>)
      requires Valid() && offset < 0x8000_0000_0000_0000 && size < 0x8000_0000_0000_0000
      modifies region, this`controllerReady, this`ready, this`log, this`flash, this`mem, this`regs
      ensures Valid() && region.usedBlocks == old(region.usedBlocks) && flash == old(flash)
      ensures offset < 0 || size <= 0 ==> st == Ok && data == [] && log == old(log)
      ensures offset >= 0 && size > 0 && st == Ok ==>
          offset + size <= |flash| && data == flash[offset..offset + size]
      ensures offset >= 0 && size > 0 && offset % 512 + size + 511 < 0x8000_0000_0000_0000 ==>
          && (st == NotInitialized <==> !old(ready))
          && (st == BadRange <==> old(ready) && offset + size > 512 * cardBlocks)
          && (old(region.usedBlocks) == map[] ==> st != Panic)
      ensures st == Failed ==> Settled(old(controllerReady), old(ready), controllerReady, ready, log, |old(log)|)
      ensures st != Failed ==> controllerReady == old(controllerReady) && ready == old(ready)
    {
      hide BlockLimit, Recovered, Listed, Covering, Get32, Logged;
      if offset < 0 || size <= 0 {
        return Ok, [];
      }
      var startLBA, blockOffset := offset / 512, offset % 512;
      if blockOffset + size + 511 >= 0x8000_0000_0000_0000 {
        return Panic, [];
      }
      var blocks := (blockOffset + size + 511) / 512;
      var buf: seq<byte> := seq(blocks * 512, _ => 0);
      var status, out, cmds, at := TransferBlocks(false, startLBA, buf);
      st, data := status, out;
      if st == Ok {
        data := out[blockOffset..blockOffset + size];
        SliceOfSlice(flash, startLBA * 512, |buf|, blockOffset, size);
      }
    }

    // -------------------------------------------------------------- bring-up and cache

    /** Initialise the controller: it succeeds exactly when configuration and hardware
        are fine, the region ends where ADMA2 can reach and one block fits it. */
    method Init(configured: bool, hardware: bool) returns (ok: bool)
      requires Valid()
      modifies this`controllerReady, this`ready, this`maxBlocks, this`cardBlocks, this`cacheSize, this`cacheEnabled,
               this`hs, this`ddr
      ensures Valid() && !ready && (controllerReady <==> ok)
      ensures cardBlocks == 0 && cacheSize == 0 && !cacheEnabled && !hs && !ddr
      ensures ok <==> configured && hardware && region.start + region.size <= 0x1_0000_0000 && region.size >= 550
      ensures ok ==> BlockLimit(region.size, maxBlocks)
    {
      hide Listed, Get32, Fits;
      controllerReady, ready := false, false;
      cardBlocks, cacheSize, cacheEnabled, hs, ddr := 0, 0, false, false, false;
      if region.size > 0 { EndAcceptedExactly(region.start, region.size); }
      if !configured || !EndAccepted(region.start, region.size) {
        return false;
      }
      maxBlocks := DmaBlockLimit(region.size);
      LimitExact(region.size, maxBlocks, 1);
      if maxBlocks == 0 {
        return false;
      }
      if !hardware {
        return false;
      }
      controllerReady := true;
      ok := true;
    }

    /** Change the card clock. */
    method SetClock(hz: nat) returns (ok: bool)
      modifies this`log
      ensures log == old(log) + [Clock(hz, ok)]
    {
      ok := *;
      log := log + [Clock(hz, ok)];
    }

    /** CMD6: write one Extended CSD register; the card may or may not take the value.
        It succeeds exactly when the switch and the state after it were seen. */
    method WriteCardRegister(register: nat, value: byte) returns (ok: bool)
      requires |extCSD| == 512 && register < 196
      modifies this`log, this`extCSD
      ensures |extCSD| == 512 && forall i :: 0 <= i < 512 && i != register ==> extCSD[i] == old(extCSD[i])
      ensures old(log) <= log && |log| > |old(log)| && Attempted(log[|old(log)|], 6)
      ensures ok <==> Switched(log, |old(log)|, register, value) && TransferStateSeen(log[|log| - 1])
      ensures ok ==> |log| > |old(log)| + 1 && log[|old(log)| + 1].Completed?
      ensures !ok ==> Trouble(log, |old(log)|)
    {
      hide CleanR1, SwitchArgument, Bit;
      var status, _, _, done := RunCommand(6, SwitchArgument(register, value));
      ghost var issued := log;
      var taken: bool := *;
      if taken {
        extCSD := extCSD[register := value];
      }
      if !done || !CleanR1(status) {
        assert Bad(log[|old(log)|]);
        return false;
      }
      WaitBusy();
      ghost var idle := log;
      ok := WaitState();
      if !ok { TroubleLater(log, log, |old(log)|, |idle|); }
    }

    /** A command whose R1 response must be clean. */
    method CleanCommand(index: nat, arg: nat) returns (ok: bool)
      requires index in {3, 6, 7, 8, 9, 12, 13, 17, 18, 24, 25}
      modifies this`log
      ensures old(log) <= log && |log| > |old(log)| && Attempted(log[|old(log)|], index)
      ensures ok ==> |log| == |old(log)| + 1 && log[|old(log)|].Command? && log[|old(log)|].arg == arg
                     && CleanR1(log[|old(log)|].status)
      ensures !ok ==> Trouble(log, |old(log)|)
    {
      hide CleanR1;
      var status, _, _, done := RunCommand(index, arg);
      ok := done && CleanR1(status);
      if !ok { assert Bad(log[|old(log)|]); }
    }

    /** CMD8: read the Extended CSD register. */
    method ReadExtCSD() returns (st: Status, out: seq<byte>)
      requires Valid() && controllerReady
      modifies region, this`controllerReady, this`ready, this`log, this`flash, this`mem, this`regs
      ensures Valid() && region.usedBlocks == old(region.usedBlocks) && flash == old(flash)
      ensures st == Ok || st == Failed || st == Panic
      ensures st == Ok ==> out == extCSD
      ensures old(log) <= log
      ensures st == Ok ==> DataDone(log, |old(log)|, 8, 0)
      ensures st == Failed ==> !controllerReady && !ready && Trouble(log, |old(log)|)
      ensures st != Failed ==> controllerReady && ready == old(ready)
      ensures st == Panic <==> !RoomFor(region.start, region.size, old(region.usedBlocks), 512)
      ensures old(region.usedBlocks) == map[] ==> st != Panic
    {
      hide Listed, BlockLimit, RoomFor, Get32, Recovered, Bad;
      var buf: seq<byte> := seq(512, _ => 0);
      st, out := TransferDMA(8, false, 0, buf, 1);
    }

    /** Identify, address and select the card, then set its bus width and clock. */
    method SelectCard() returns (ok: bool)
      requires |extCSD| == 512
      modifies this`log, this`extCSD
      ensures |extCSD| == 512 && forall i :: 0 <= i < 512 && i != 183 ==> extCSD[i] == old(extCSD[i])
      ensures old(log) <= log
      ensures ok ==> Selected(log, |old(log)|) && log[|log| - 1] == Clock(25_000_000, true)
      ensures !ok ==> Trouble(log, |old(log)|)
    {
      hide CleanR1, NoRelease, Quiet, SwitchArgument, TransferStateSeen;
      ghost var n := |log|;
      var _, _, _, identified := RunCommand(2, 0);
      if !identified {
        assert Bad(log[n]);
        return false;
      }
      var addressed := CleanCommand(3, 0x1_0000);
      if !addressed {
        TroubleLater(log, log, n, n + 1);
        return false;
      }
      var selected := CleanCommand(7, 0x1_0000);
      if !selected {
        TroubleLater(log, log, n, n + 2);
        return false;
      }
      var wide := WriteCardRegister(183, 2);
      if !wide {
        TroubleLater(log, log, n, n + 3);
        return false;
      }
      ok := SetClock(25_000_000);
      if !ok { assert Bad(log[|log| - 1]); }
    }

    /** Other users of the region reserve and release blocks. */
    method OtherUsers()
      requires region.Valid()
      modifies region
      ensures region.Valid()
    {
      hide Tiling, LowestPlacement;
      var steps: nat := *;
      while steps > 0
        invariant region.Valid()
      {
        var reserve: bool := *;
        var n: bv32 := *;
        var addr: bv32 := *;
        if reserve {
          var p := region.Reserve(n as nat, 0);
        } else {
          var reserved: bool := *;
          region.FreeBlock(addr as nat, reserved);
        }
        steps := steps - 1;
      }
    }

    /** The capacity and cache fields are those of the register. */
    ghost predicate Decoded()
      reads `extCSD, `cardBlocks, `cacheSize, `cacheEnabled
    {
      && |extCSD| == 512 && cardBlocks == Get32(extCSD, 212)
      && (cacheEnabled <==> extCSD[33] % 2 == 1) && cacheSize == Get32(extCSD, 249) * 1024
    }

    /** The faster modes are on exactly where card and host support them, and dual data
        rate only with the register saying so. */
    ghost predicate Fast()
      reads `extCSD, `hs, `ddr
    {
      && |extCSD| == 512
      && (hs <==> extCSD[196] / 2 % 2 == 1 && hostHS)
      && (ddr <==> hs && extCSD[196] / 4 % 2 == 1 && hostDDR)
      && (ddr ==> extCSD[183] == 6)
    }

    /** Select the card, read its capabilities and enable the faster modes. With
        `shared`, other users of the region run before the second register read;
        `again` says whether that read found room. */
    method InitMMC(shared: bool) returns (st: Status, ghost r: Replies, ghost again: bool)
      requires Valid() && controllerReady && !ready && cardBlocks == 0 && !hs && !ddr
      modifies region, this`controllerReady, this`ready, this`log, this`flash, this`mem, this`regs, this`extCSD,
               this`cardBlocks, this`cacheSize, this`cacheEnabled, this`hs, this`ddr
      ensures Valid() && !ready && flash == old(flash) && old(log) <= log
      ensures !shared ==> region.usedBlocks == old(region.usedBlocks)
      ensures r.idle && r.powered && (r.selected ==> Selected(log, |old(log)|))
      ensures var room := RoomFor(region.start, region.size, old(region.usedBlocks), 512);
              st == Outcome(true, r, room, again, |flash| / 512)
      ensures !shared && RoomFor(region.start, region.size, old(region.usedBlocks), 512) ==> again
      ensures st == Ok ==> cardBlocks > 0 && Fast()
      ensures st != Failed && cardBlocks > 0 ==> Decoded()
      ensures st != Failed ==> controllerReady
      ensures st == Failed ==> Trouble(log, |old(log)|) || |flash| == 0 || extCSD[183] != 6
      ensures st == Panic ==> (cardBlocks == 0 <==> !RoomFor(region.start, region.size, old(region.usedBlocks), 512))
      ensures st == Panic ==> (hs <==> cardBlocks > 0) && !ddr
      ensures old(region.usedBlocks) == map[] && !shared ==> st != Panic
    {
      hide Listed, BlockLimit, RoomFor, Get32, Selected, Trouble, Fast;
      again := true;
      ghost var n, csd0 := |log|, extCSD;
      var connected := SelectCard();
      SameWord(csd0, extCSD, 212);
      ghost var selected := log;
      r := Replies(true, true, connected, false, false, false);
      if !connected {
        return Failed, r, again;
      }
      var status, deviceType := DetectCapabilities();
      SelectedExtends(selected, log, n);
      r := r.(read := status == Ok);
      if status != Ok {
        if Trouble(log, |selected|) { TroubleLater(log, log, n, |selected|); }
        return status, r, again;
      }
      ghost var verified, read, csd := false, log, extCSD;
      st, verified, again := EnableFastModes(deviceType, shared);
      SelectedExtends(read, log, n);
      KeepsDecoded(csd, extCSD);
      if st == Failed && Trouble(log, |read|) { TroubleLater(log, log, n, |read|); }
      r := r.(verified := verified, fast := st == Ok);
    }

    /** Read the register and decode capacity and cache. */
    method DetectCapabilities() returns (st: Status, deviceType: byte)
      requires Valid() && controllerReady && !ready && cardBlocks == 0
      modifies region, this`controllerReady, this`ready, this`log, this`flash, this`mem, this`regs,
               this`cardBlocks, this`cacheSize, this`cacheEnabled
      ensures Valid() && !ready && region.usedBlocks == old(region.usedBlocks) && flash == old(flash) && old(log) <= log
      ensures st == Ok || st == Failed || st == Panic
      ensures st == Ok ==> cardBlocks > 0 && Decoded() && deviceType == extCSD[196]
      ensures st != Ok ==> cardBlocks == 0
      ensures st == Failed ==> Trouble(log, |old(log)|) || |flash| == 0
      ensures st != Failed ==> controllerReady
      ensures st == Ok ==> DataDone(log, |old(log)|, 8, 0)
      ensures st == Panic <==> !RoomFor(region.start, region.size, old(region.usedBlocks), 512)
      ensures old(region.usedBlocks) == map[] ==> st != Panic
    {
      hide Listed, BlockLimit, RoomFor, Get32, Trouble, DataDone;
      deviceType := 0;
      var status, csd := ReadExtCSD();
      if status != Ok {
        return status, 0;
      }
      cardBlocks := Get32(csd, 212);
      if cardBlocks == 0 {
        return Failed, 0;
      }
      cacheEnabled := csd[33] % 2 == 1;
      cacheSize := Get32(csd, 249) * 1024;
      return Ok, csd[196];
    }

    /** High-speed timing and dual data rate, where card and host support them;
        the new bus mode is verified by reading the register once more. */
    method EnableFastModes(deviceType: byte, shared: bool) returns (st: Status, ghost verified: bool, ghost again: bool)
      requires Valid() && controllerReady && !ready && cardBlocks > 0 && !hs && !ddr && deviceType == extCSD[196]
      modifies region, this`controllerReady, this`ready, this`log, this`flash, this`mem, this`regs, this`extCSD,
               this`hs, this`ddr
      ensures Valid() && !ready && flash == old(flash) && old(log) <= log
      ensures |extCSD| == 512 && forall i :: 0 <= i < 512 && i != 183 && i != 185 ==> extCSD[i] == old(extCSD[i])
      ensures !shared ==> region.usedBlocks == old(region.usedBlocks)
      ensures st == Ok || st == Failed || st == Panic
      ensures st == Ok ==> Fast()
      ensures hs ==> Switched(log, |old(log)|, 185, 1)
      ensures hs ==> exists i :: |old(log)| < i < |log| && log[i] == Clock(50_000_000, true)
      ensures st == Failed ==> Trouble(log, |old(log)|) || extCSD[183] != 6
      ensures st != Failed ==> controllerReady
      ensures st == Panic ==> hs && !ddr
      ensures st == Panic <==> verified && !again
      ensures !shared && RoomFor(region.start, region.size, old(region.usedBlocks), 512) ==> again
    {
      hide Listed, BlockLimit, NoRelease, RoomFor, Get32, Switched, TransferStateSeen, DataDone;
      verified, again := false, true;
      ghost var n, csd0 := |log|, extCSD;
      if deviceType / 2 % 2 == 1 && hostHS {
        var switched := WriteCardRegister(185, 1);
        SameWord(csd0, extCSD, 212);
        if !switched {
          return Failed, verified, again;
        }
        var clock := SetClock(50_000_000);
        if !clock {
          assert Bad(log[|log| - 1]);
          return Failed, verified, again;
        }
        hs := true;
        assert log[|log| - 1] == Clock(50_000_000, true);
        SwitchedExtends(log[..|log| - 1], log, n, 185, 1);
        if deviceType / 4 % 2 == 1 && hostDDR {
          ghost var before := log;
          st, verified, again := EnableDDR(shared);
          SwitchedExtends(before, log, n, 185, 1);
          if st == Failed && Trouble(log, |before|) { TroubleLater(log, log, n, |before|); }
          return;
        }
      }
      st := Ok;
    }

    /** Dual data rate: switch the width, then verify it. */
    method EnableDDR(shared: bool) returns (st: Status, ghost verified: bool, ghost again: bool)
      requires Valid() && controllerReady && !ready && cardBlocks > 0 && !ddr
      modifies region, this`controllerReady, this`ready, this`log, this`flash, this`mem, this`regs
      modifies this`extCSD, this`ddr
      ensures Valid() && !ready && flash == old(flash) && old(log) <= log
      ensures |extCSD| == 512 && forall i :: 0 <= i < 512 && i != 183 ==> extCSD[i] == old(extCSD[i])
      ensures !shared ==> region.usedBlocks == old(region.usedBlocks)
      ensures st == Ok || st == Failed || st == Panic
      ensures verified ==> Switched(log, |old(log)|, 183, 6)
      ensures st == Ok ==> verified && ddr && extCSD[183] == 6
      ensures st == Panic ==> !ddr
      ensures st == Failed ==> Trouble(log, |old(log)|) || extCSD[183] != 6
      ensures st != Failed ==> controllerReady
      ensures st == Panic <==> verified && !again
      ensures !shared && RoomFor(region.start, region.size, old(region.usedBlocks), 512) ==> again
    {
      hide Listed, BlockLimit, NoRelease, RoomFor, Get32, Switched, TransferStateSeen, DataDone, Bad;
      verified, again := false, true;
      ghost var csd0 := extCSD;
      var switched := WriteCardRegister(183, 6);
      SameWord(csd0, extCSD, 212);
      if !switched {
        return Failed, verified, again;
      }
      if shared {
        OtherUsers();
      }
      verified, again := true, RoomFor(region.start, region.size, region.usedBlocks, 512);
      ghost var wide := log;
      var status, csd := ReadExtCSD();
      SwitchedExtends(wide, log, |old(log)|, 183, 6);
      if status != Ok {
        if status == Failed { TroubleLater(log, log, |old(log)|, |wide|); }
        return status, verified, again;
      }
      if csd[183] != 6 || Get32(csd, 212) != cardBlocks {
        return Failed, verified, again;
      }
      ddr := true;
      st := Ok;
    }

    /** Power the card up and initialise it. */
    method BringUp(shared: bool) returns (st: Status, ghost r: Replies, ghost again: bool)
      requires Valid() && controllerReady && !ready && cardBlocks == 0 && !hs && !ddr
      modifies region, this`controllerReady, this`ready, this`log, this`flash, this`mem, this`regs, this`extCSD,
               this`cardBlocks, this`cacheSize, this`cacheEnabled, this`hs, this`ddr
      ensures Valid() && !ready && flash == old(flash) && old(log) <= log
      ensures !shared ==> region.usedBlocks == old(region.usedBlocks)
      ensures var room := RoomFor(region.start, region.size, old(region.usedBlocks), 512);
              st == Outcome(true, r, room, again, |flash| / 512)
      ensures !shared && RoomFor(region.start, region.size, old(region.usedBlocks), 512) ==> again
      ensures st == Ok ==> cardBlocks > 0 && Fast() && Decoded() && BroughtUp(log, |old(log)|)
      ensures st != Failed ==> controllerReady
      ensures st == Failed ==> Refused(log, |old(log)|) || |flash| == 0 || extCSD[183] != 6
      ensures st == Panic ==> (cardBlocks == 0 <==> !RoomFor(region.start, region.size, old(region.usedBlocks), 512))
      ensures st == Panic ==> (hs <==> cardBlocks > 0) && !ddr
      ensures old(region.usedBlocks) == map[] && !shared ==> st != Panic
    {
      hide Listed, BlockLimit, RoomFor, Get32, Selected, PoweredUp, NotSector, Decoded, Fast, Trouble;
      ghost var n := |log|;
      st, again := Failed, true;
      var idle, powered := PowerUp();
      r := Replies(idle, powered, false, false, false, false);
      if idle && powered {
        ghost var up := log;
        st, r, again := InitMMC(shared);
        if st == Failed && Trouble(log, |up|) { TroubleLater(log, log, n, |up|); }
        if st == Ok { assert PoweredUp(log[|up| - 1]) && Selected(log, |up| - 1 + 1); }
      }
    }

    /** Detect the card. The deferred function sets the flag unless an error was
        recorded, and a panic records none: afterwards the driver is ready
        exactly on success or on a panic. A panic at the first register read
        leaves a driver without capacity, which refuses every transfer; one at the
        second, which needs another user of the region, a driver with capacity on
        a bus mode that was not verified. */
    method Detect(shared: bool) returns (st: Status, ghost r: Replies, ghost again: bool)
      requires Valid()
      modifies region, this`controllerReady, this`ready, this`log, this`flash, this`mem, this`regs, this`extCSD,
               this`cardBlocks, this`cacheSize, this`cacheEnabled, this`hs, this`ddr
      ensures Valid() && flash == old(flash) && old(log) <= log
      ensures !shared ==> region.usedBlocks == old(region.usedBlocks)
      ensures var room := RoomFor(region.start, region.size, old(region.usedBlocks), 512);
              && st == Outcome(old(controllerReady), r, room, again, |flash| / 512)
              && (!shared && room ==> again)
              && (ready ==> (st == Ok <==> room && (again || !r.verified)))
              && (ready && !shared ==> (st == Ok <==> room))
              && (st == Panic ==> (cardBlocks == 0 <==> !room) && (hs <==> cardBlocks > 0) && !ddr)
      ensures ready <==> SetsReady(st)
      ensures st == Ok ==> cardBlocks > 0 && Decoded() && Fast()
      ensures st == Ok ==> BroughtUp(log, |old(log)|)
      ensures st == Failed ==> Refused(log, |old(log)|) || |flash| == 0 || extCSD[183] != 6
      ensures ready && cardBlocks == 0 ==> forall lba, length :: ValidateTransfer(lba, length) != Ok
      ensures st == Failed || st == NotInitialized ==>
          cardBlocks == 0 && cacheSize == 0 && !cacheEnabled && !hs && !ddr
      ensures st == Failed ==> !controllerReady
      ensures old(region.usedBlocks) == map[] && !shared ==> st != Panic
    {
      hide Listed, BlockLimit, RoomFor, Get32, BroughtUp, Refused, Fast, Decoded, Region.Valid;
      ready := false;
      cardBlocks, cacheSize, cacheEnabled, hs, ddr := 0, 0, false, false, false;
      r, again := Replies(false, false, false, false, false, false), true;
      if !controllerReady {
        return NotInitialized, r, again;
      }
      st, r, again := BringUp(shared);
      if st == Failed {
        controllerReady := false;
        cardBlocks, cacheSize, cacheEnabled, hs, ddr := 0, 0, false, false, false;
      } else {
        ready := true;
      }
    }

    /** Reset the card and wait for its power-up. */
    method PowerUp() returns (idle: bool, powered: bool)
      modifies this`log
      ensures old(log) <= log
      ensures idle && powered ==>
          && |log| > |old(log)| + 1 && log[|old(log)|].Command?
          && log[|old(log)|].index == 0 && log[|old(log)|].arg == 0
          && PoweredUp(log[|log| - 1])
      ensures !idle || !powered ==> Refused(log, |old(log)|)
    {
      hide PoweredUp, NotSector;
      powered := false;
      var a, b, c;
      a, b, c, idle := RunCommand(0, 0);
      if !idle {
        assert Bad(log[|old(log)|]);
        return;
      }
      ghost var first := log;
      powered := VoltageValidation();
      if !powered { RefusedLater(log, log, |old(log)|, |first|); }
    }

    /** Poll CMD1 until the card reports power-up; any number of polls. */
    method VoltageValidation() returns (powered: bool)
      modifies this`log
      ensures old(log) <= log
      ensures powered ==> |log| > |old(log)| && PoweredUp(log[|log| - 1])
      ensures !powered ==> Refused(log, |old(log)|)
    {
      var polls: nat := *;
      while polls > 0
        invariant old(log) <= log
      {
        var response, _, _, done := RunCommand(1, 0x40ff_8000);
        if done && response / 0x8000_0000 % 2 == 1 {
          powered := response / 0x2000_0000 % 4 == 2;
          if !powered { assert NotSector(log[|log| - 1]); }
          return;
        }
        polls := polls - 1;
      }
      log := log + [Deadline];
      assert Bad(log[|log| - 1]);
      powered := false;
    }

    /** `ExtCSD` for a 512-byte buffer. */
    method ExtCSD() returns (st: Status, out: seq<byte>)
      requires Valid()
      modifies region, this`controllerReady, this`ready, this`log, this`flash, this`mem, this`regs
      ensures Valid() && region.usedBlocks == old(region.usedBlocks) && flash == old(flash)
      ensures !old(ready) <==> st == NotInitialized
      ensures st == Ok ==> out == extCSD && ready
      ensures old(log) <= log
      ensures st == Failed ==> !controllerReady && !ready && Trouble(log, |old(log)|)
      ensures old(region.usedBlocks) == map[] ==> st != Panic
    {
      hide Bad, DataDone;
      if !ready {
        return NotInitialized, [];
      }
      st, out := ReadExtCSD();
    }

    /** Turn the card cache on or off; turning it off flushes it first. Any
        failure of a register write gives up the controller. */
    method EnableCache(enable: bool) returns (st: Status)
      requires Valid()
      modifies this`controllerReady, this`ready, this`log, this`cacheEnabled, this`extCSD
      ensures Valid() && old(log) <= log
      ensures st == Ok ==> ready && cacheEnabled == enable && cacheSize > 0
      ensures st == Ok && old(cacheEnabled) == enable ==> log == old(log)
      ensures st == Ok && old(cacheEnabled) != enable ==> |log| > |old(log)| && TransferStateSeen(log[|log| - 1])
      ensures st == Ok && !old(cacheEnabled) && enable ==> Switched(log, |old(log)|, 33, 1)
      ensures st == Ok && old(cacheEnabled) && !enable ==>
          Switched(log, |old(log)|, 32, 1) && exists i :: |old(log)| < i < |log| && Switched(log, i, 33, 0)
      ensures st == Failed && old(cacheSize) > 0 ==>
          !controllerReady && !ready && cacheEnabled == old(cacheEnabled) && Trouble(log, |old(log)|)
      ensures st == Failed && old(cacheSize) == 0 ==> log == old(log) && ready
      ensures st == NotInitialized <==> !old(ready)
    {
      hide Listed, BlockLimit, NoRelease, Get32, CleanR1, Quiet, Bad, TransferStateSeen, SwitchArgument;
      ghost var csd0 := extCSD;
      SwitchFrame(csd0, csd0);
      if !ready {
        return NotInitialized;
      }
      if cacheSize == 0 {
        return Failed;
      }
      if cacheEnabled == enable {
        return Ok;
      }
      if !enable {
        var flushed := WriteCardRegister(32, 1);
        SwitchFrame(csd0, extCSD);
        if !flushed {
          ghost var before := log;
          InvalidateTransfer();
          TroubleLater(before, log, |old(log)|, |old(log)|);
          return Failed;
        }
        SwitchFrame(csd0, extCSD);
      }
      ghost var at := |log|;
      ghost var csd1 := extCSD;
      var written := WriteCardRegister(33, if enable then 1 else 0);
      SwitchFrame(csd1, extCSD);
      if !written {
        ghost var before := log;
        InvalidateTransfer();
        TroubleLater(before, log, |old(log)|, at);
        return Failed;
      }
      assert Switched(log, at, 33, if enable then 1 else 0);
      cacheEnabled := enable;
      st := Ok;
    }

    /** Flush the cache, or without one wait for the transfer state. */
    method Sync() returns (st: Status)
      requires Valid()
      modifies this`controllerReady, this`ready, this`log, this`extCSD
      ensures Valid() && old(log) <= log
      ensures st == NotInitialized <==> !old(ready)
      ensures st == Ok ==> ready && |log| > |old(log)| && TransferStateSeen(log[|log| - 1])
      ensures st == Ok ==> if cacheEnabled then Switched(log, |old(log)|, 32, 1) else Attempted(log[|old(log)|], 13)
      ensures st == Failed ==> !controllerReady && !ready && Trouble(log, |old(log)|)
    {
      hide Listed, BlockLimit, NoRelease, Get32, CleanR1, Quiet, Bad, TransferStateSeen, SwitchArgument;
      ghost var csd0 := extCSD;
      SwitchFrame(csd0, csd0);
      if !ready {
        return NotInitialized;
      }
      var ok;
      if !cacheEnabled {
        ok := WaitState();
      } else {
        ok := WriteCardRegister(32, 1);
        SwitchFrame(csd0, extCSD);
      }
      if !ok {
        ghost var before := log;
        InvalidateTransfer();
        TroubleLater(before, log, |old(log)|, |old(log)|);
        return Failed;
      }
      st := Ok;
    }
  }

  /** The flat card with `b` written at `lo`. */
  function Written(flash: seq<byte>, lo: nat, b: seq<byte>): seq<byte>
    requires lo + |b| <= |flash|
  {
    flash[..lo] + b + flash[lo + |b|..]
  }

  lemma SliceOfSlice(flash: seq<byte>, lo: nat, n: nat, at: nat, m: nat)
    requires lo + n <= |flash| && at + m <= n
    ensures flash[lo..lo + n][at..at + m] == flash[lo + at..lo + at + m]
  {
    var a, b := flash[lo..lo + n][at..at + m], flash[lo + at..lo + at + m];
    assert forall i :: 0 <= i < m ==> a[i] == b[i];
  }

  lemma NothingYet(write: bool, maxBlocks: nat, lba: nat, total: nat, flash: seq<byte>, log: seq<Event>)
    requires lba * 512 <= |flash| && maxBlocks > 0
    ensures Covering(write, maxBlocks, [], lba, 0, total) && Written(flash, lba * 512, []) == flash
    ensures Logged(log, |log|, write, [], [])
  {
  }

  lemma WholeWrite(flash: seq<byte>, after: seq<byte>, lo: nat, b: seq<byte>)
    requires lo + |b| <= |flash|
    ensures after == Written(flash, lo, b) ==> SameOutside(flash, after, lo, |b|)
  {
  }

  function Slice(flash: seq<byte>, lo: nat, n: nat): (b: seq<byte>)
    requires lo + n <= |flash|
    ensures |b| == n
  {
    flash[lo..lo + n]
  }

  lemma SliceIs(flash: seq<byte>, lo: nat, n: nat)
    requires lo + n <= |flash|
    ensures Slice(flash, lo, n) == flash[lo..lo + n]
  {
  }

  lemma ExtendRead(flash: seq<byte>, lo: nat, done: nat, n: nat)
    requires lo + done + n <= |flash|
    ensures Slice(flash, lo, done) + Slice(flash, lo + done, n) == Slice(flash, lo, done + n)
  {
  }

  lemma LimitBound(size: nat, limit: nat)
    requires BlockLimit(size, limit)
    ensures limit <= 0xffff
  {
  }

  lemma ExtendWrite(flash: seq<byte>, before: seq<byte>, after: seq<byte>, lo: nat, buf: seq<byte>, done: nat, n: nat)
    requires lo + |buf| <= |flash| && done + n <= |buf|
    requires before == Written(flash, lo, buf[..done])
    requires lo + done + n <= |before| && after == Written(before, lo + done, buf[done..done + n])
    ensures after == Written(flash, lo, buf[..done + n])
  {
    assert before[..lo + done] == flash[..lo] + buf[..done];
    assert before[lo + done + n..] == flash[lo + done + n..];
    assert buf[..done] + buf[done..done + n] == buf[..done + n];
    Regroup(flash[..lo], buf[..done], buf[done..done + n]);
  }

  lemma Regroup(a: seq<byte>, b: seq<byte>, c: seq<byte>)
    ensures a + b + c == a + (b + c)
  {
  }

  lemma OutsideChunk(flash: seq<byte>, before: seq<byte>, after: seq<byte>, lo: nat, buf: seq<byte>, done: nat, n: nat)
    requires lo + |buf| <= |flash| && done + n <= |buf|
    requires before == Written(flash, lo, buf[..done])
    requires SameOutside(before, after, lo + done, n)
    ensures SameOutside(flash, after, lo, |buf|)
  {
    var total := |buf|;
    assert after[..lo] == after[..lo + done][..lo] == before[..lo + done][..lo] == flash[..lo];
    assert after[lo + total..] == after[lo + done + n..][total - done - n..];
    assert before[lo + done + n..][total - done - n..] == before[lo + total..] == flash[lo + total..];
  }

  lemma SettledExtends(cr: bool, r: bool, cr': bool, r': bool, log: seq<Event>, log': seq<Event>, from: nat)
    requires Settled(cr, r, cr', r', log, from) && log <= log' && forall m :: |log| <= m < |log'| ==> !Data(log'[m])
    ensures Settled(cr, r, cr', r', log', from)
    ensures (r ==> cr) ==> (r' ==> cr')
  {
    if Recovered(log, from) { RecoveredExtends(log, log', from); }
    TroubleLater(log, log', from, from);
  }

  lemma DoneExtends(log: seq<Event>, log': seq<Event>, at: nat, command: nat, arg: nat)
    requires log <= log' && |log| > at + 1
    ensures DataDone(log', at, command, arg) <==> DataDone(log, at, command, arg)
  {
  }

  lemma ShowRecovered(log: seq<Event>, from: nat, i: nat, j: nat, k: nat)
    requires from <= i < j < k < |log| && Quiet(log, from)
    requires Stopped(log[i]) && log[j] == Reset(false, true, true) && TransferStateSeen(log[k])
    ensures Recovered(log, from)
  {
    assert RecoveredBy(log, i, j, k);
  }

  lemma NotSeen(e: Event)
    requires !e.Command?
    ensures !TransferStateSeen(e)
  {
  }

  lemma NeverRecovered(log: seq<Event>, from: nat)
    requires forall k :: from <= k < |log| ==> !TransferStateSeen(log[k])
    ensures !Recovered(log, from)
  {
  }

  lemma Restored(used: map<nat, Block>, a: nat, b: Block)
    requires a !in used
    ensures used[a := b] - {a} == used
  {
  }

  lemma Untouched(flash: seq<byte>, lo: nat, n: nat)
    requires lo + n <= |flash|
    ensures SameOutside(flash, flash, lo, n)
  {
  }

  lemma SameWord(a: seq<byte>, b: seq<byte>, off: nat)
    requires |a| == |b| == 512 && 196 <= off <= 508 && forall i :: 196 <= i < 512 ==> b[i] == a[i]
    ensures Get32(b, off) == Get32(a, off) && Get32(b, 212) == Get32(a, 212)
  {
  }

  /** Register writes leave the upper fields alone. */
  lemma SwitchFrame(a: seq<byte>, b: seq<byte>)
    requires |a| == |b| == 512 && forall i :: 196 <= i < 512 ==> b[i] == a[i]
    ensures Get32(b, 212) == Get32(a, 212)
  {
  }

  lemma KeepsDecoded(a: seq<byte>, b: seq<byte>)
    requires |a| == |b| == 512 && forall i :: 0 <= i < 512 && i != 183 && i != 185 ==> b[i] == a[i]
    ensures Get32(b, 212) == Get32(a, 212) && b[33] == a[33] && Get32(b, 249) == Get32(a, 249)
  {
  }

  lemma SwitchedExtends(log: seq<Event>, log': seq<Event>, at: nat, register: nat, value: nat)
    requires register < 0x100 && value < 0x100 && log <= log' && Switched(log, at, register, value)
    ensures Switched(log', at, register, value)
  {
  }

  lemma SelectedExtends(log: seq<Event>, log': seq<Event>, at: nat)
    requires log <= log' && Selected(log, at)
    ensures Selected(log', at)
  {
  }

  lemma RefusedLater(log: seq<Event>, log': seq<Event>, from: nat, later: nat)
    requires log <= log' && from <= later && Refused(log, later)
    ensures Refused(log', from)
  {
    if Trouble(log, later) {
      TroubleLater(log, log', from, later);
    } else {
      var i :| later <= i < |log| && NotSector(log[i]);
      assert NotSector(log'[i]);
    }
  }

  lemma SameSize(flash: seq<byte>, flash': seq<byte>, lo: nat, n: nat)
    requires lo + n <= |flash| && SameOutside(flash, flash', lo, n)
    ensures |flash'| == |flash|
  {
  }

  lemma SettledEarlier(cr: bool, r: bool, cr': bool, r': bool, log: seq<Event>, from: nat, later: nat)
    requires from <= later
    ensures Settled(cr, r, cr', r', log, later) ==> Settled(cr, r, cr', r', log, from)
  {
    LaterRecovery(log, from, later);
    if Trouble(log, later) { TroubleLater(log, log, from, later); }
  }

  lemma NothingElse(flash: seq<byte>, flash': seq<byte>, lo: nat, b: seq<byte>)
    requires lo + |b| <= |flash|
    requires flash' == flash || flash' == Written(flash, lo, b) || SameOutside(flash, flash', lo, |b|)
    ensures SameOutside(flash, flash', lo, |b|)
  {
  }

  lemma ReleasedLog(log0: seq<Event>, log1: seq<Event>, log2: seq<Event>)
    requires log0 <= log1 <= log2 && |log2| == |log1| + 2 && NoRelease(log1, |log0|)
    ensures log2[..|log2| - 2] == log1 && NoRelease(log2[..|log2| - 2], |log0|)
  {
  }

  /** What the controller does with the table of a prepared transfer. */
  lemma TransferLemma(data: nat, buf: seq<byte>, mem: Adma.Memory, card: seq<byte>)
    requires |buf| > 0 && data + |buf| <= 0x1_0000_0000 && |card| == |buf|
    ensures var chunks := Adma.Fetch(Join(Adma.Blocks(Adma.ChainOf(data, |buf|))));
            && Adma.Total(chunks) == |buf|
            && Adma.Gather(mem, chunks) == Adma.Load(mem, data, |buf|)
            && Adma.Load(Adma.Scatter(mem, chunks, card), data, |buf|) == card
  {
    Adma.TableTransfers(data, |buf|, mem, card);
    Adma.LoadStored(mem, data, card);
  }

  /** The bytes a read command takes from the card. */
  function CardBytes(command: nat, flash: seq<byte>, extCSD: seq<byte>, lo: nat, n: nat): seq<byte>
    requires if command == 8 then n == |extCSD| else lo + n <= |flash|
  {
    if command == 8 then extCSD else flash[lo..lo + n]
  }

  ghost predicate SameOutside(flash: seq<byte>, flash': seq<byte>, lo: nat, n: nat)
    requires lo + n <= |flash|
  {
    |flash'| == |flash| && flash'[..lo] == flash[..lo] && flash'[lo + n..] == flash[lo + n..]
  }

  lemma LaterRecovery(log: seq<Event>, from: nat, later: nat)
    requires from <= later
    ensures Recovered(log, later) ==> Recovered(log, from)
  {
  }

  lemma PreparedBlocks(used: map<nat, Block>, region: Region, mem: Adma.Memory, write: bool, buf: seq<byte>,
                       data: nat, desc: nat, table: seq<byte>)
    requires Prepared(used, region, mem, write, buf, data, desc, table)
    ensures data !in used && desc !in used && data != desc && data > 0 && desc > 0
    ensures region.usedBlocks == used[data := Block(data, |buf|, true)][desc := Block(desc, |table|, true)]
  {
  }

  lemma BlocksFit(size: nat, blocks: nat)
    requires blocks > 0
    ensures Fits(size, blocks) ==> 512 * blocks + Adma.TableSize(512 * blocks) + 30 <= size
  {
  }

  /** The region can place `n` bytes and then their descriptor table, both on 16-byte boundaries. */
  ghost predicate RoomFor(start: nat, size: nat, used: map<nat, Block>, n: nat) {
    exists p: nat, q: nat ::
      && LowestPlacement(start, size, used, n, 16, Placed(p))
      && LowestPlacement(start, size, used[p := Block(p, n, true)], Adma.TableSize(n), 16, Placed(q))
  }

  lemma Room(start: nat, size: nat, used: map<nat, Block>, n: nat, p: nat, q: nat)
    requires LowestPlacement(start, size, used, n, 16, Placed(p))
    requires LowestPlacement(start, size, used[p := Block(p, n, true)], Adma.TableSize(n), 16, Placed(q))
    ensures RoomFor(start, size, used, n)
  {
  }

  lemma NoRoom(start: nat, size: nat, used: map<nat, Block>, n: nat, p: Placement, q: Placement)
    requires LowestPlacement(start, size, used, n, 16, p) && q.OutOfMemory?
    requires p.Placed? ==>
             LowestPlacement(start, size, used[p.addr := Block(p.addr, n, true)], Adma.TableSize(n), 16, q)
    ensures !RoomFor(start, size, used, n)
  {
    if RoomFor(start, size, used, n) {
      var p', q' :| LowestPlacement(start, size, used, n, 16, Placed(p'))
        && LowestPlacement(start, size, used[p' := Block(p', n, true)], Adma.TableSize(n), 16, Placed(q'));
      assert false;
    }
  }

  /** Detection with a region that is all in use: no run succeeds, and the driver
      is ready exactly when the run panicked, with no capacity. */
  method DetectWithoutRoom(flash: seq<byte>, extCSD: seq<byte>, hostHS: bool, hostDDR: bool)
    returns (st: Status, ready: bool, blocks: nat)
    requires |extCSD| == 512 && |flash| % 512 == 0 && Get32(extCSD, 212) == |flash| / 512
    ensures st in {NotInitialized, Failed, Panic} && (ready <==> st == Panic) && blocks == 0
  {
    hide Get32, Tiling;
    var region := new Region(0x1000, 1024);
    var hw := new SDHCI(region, flash, extCSD, hostHS, hostDDR);
    var ok := hw.Init(true, true);
    var p := region.Reserve(1024, 16);
    AlignmentSixteen();
    AllTaken(p, region.usedBlocks);
    ghost var r, again;
    st, r, again := hw.Detect(false);
    ready, blocks := hw.ready, hw.cardBlocks;
  }

  lemma AllTaken(p: Placement, used: map<nat, Block>)
    requires LowestPlacement(0x1000, 1024, map[], 1024, 16, p)
    requires p.Placed? ==> used == map[p.addr := Block(p.addr, 1024, true)]
    ensures p == Placed(0x1000) && !RoomFor(0x1000, 1024, used, 512)
  {
    assert Placeable(0x1000, 1024, map[], 0x1000, 1024, 16);
    forall a: nat ensures !Placeable(0x1000, 1024, used, a, 512, 16) {
      if 0x1000 <= a <= 0x1000 + 512 {
        assert InBlock(used[0x1000], a);
        assert Taken(used, a);
      }
    }
  }

  /** Both reservations of a transfer hold what the controller needs. */
  ghost predicate Prepared(used: map<nat, Block>, region: Region, mem: Adma.Memory, write: bool, buf: seq<byte>,
                           data: nat, desc: nat, table: seq<byte>)
    reads region
  {
    && data !in used && desc !in used && data != desc && data > 0 && desc > 0
    && region.usedBlocks == used[data := Block(data, |buf|, true)][desc := Block(desc, |table|, true)]
    && |buf| > 0 && data + |buf| <= 0x1_0000_0000 && desc < 0x1_0000_0000
    && table == Join(Adma.Blocks(Adma.ChainOf(data, |buf|)))
    && Adma.Load(mem, desc, |table|) == table
    && (write ==> Adma.Load(mem, data, |buf|) == buf)
  }

  lemma AlignmentSixteen()
    ensures EffectiveAlignment(ToUint(16)) == 16
  {
    assert Pow2(4) == 16;
  }

  lemma TablePositive(n: nat)
    requires n > 0
    ensures 0 < Adma.TableSize(n) <= 8 * n
  {
  }

  /** A used block lies inside the region and apart from the others. */
  lemma BlockInUse(region: Region, a: nat)
    requires region.Valid() && a in region.usedBlocks
    ensures region.start <= a && a + region.usedBlocks[a].size <= region.start + region.size
    ensures forall b :: b in region.usedBlocks && b != a ==>
              a + region.usedBlocks[a].size <= b || b + region.usedBlocks[b].size <= a
  {
  }
}
