/** The littlefs block-device port for the internal flash: the configuration
    record that binds the four operations and the geometry, and the device
    whose flash image and controller lock the operations act on.

    The vendor HAL is not part of this model. Its four primitives are methods
    of InternalFlash whose behaviour is an ASSUMPTION stated in their
    contracts: unlock and lock set the lock flag, a page program replaces one
    FlashPageSize page with the source bytes, a sector erase sets one
    FlashSectorSize sector to 0xFF. Whether a program or erase call fails is
    read from a fault schedule the device carries, so that failures can be
    injected; an empty schedule means the call succeeds. */
module LfsPort {
  import opened Geometry
  import opened Arithmetic
  import opened FlashImage

  /** The entry points a configuration slot can hold. */
  datatype Handler = Unbound | PortRead | PortProg | PortErase | PortSync

  datatype HalStatus = HalOk | HalError

  /** One call into the flash controller, as the device log records it. */
  datatype HalCall =
    | Unlock
    | Lock
    | ProgramPage(addr: nat, srcOff: nat, status: HalStatus)
    | EraseSector(addr: nat, status: HalStatus)

  /** How an operation ends: it returns a status code, or it enters the
      application's error handler, which does not come back. */
  datatype Exit = Returned(code: int) | Halted

  /** True when the next call governed by `schedule` fails. */
  predicate NextFails(schedule: seq<bool>)
  {
    schedule != [] && schedule[0]
  }

  /** The schedule after one call has used its head. */
  function Advance(schedule: seq<bool>): (rest: seq<bool>)
    ensures schedule != [] ==> |rest| < |schedule|
    ensures schedule == [] ==> rest == []
  {
    if schedule == [] then [] else schedule[1..]
  }

  /** The controller log and the fault schedule left after a run. */
  datatype Run = Run(calls: seq<HalCall>, rest: seq<bool>)

  /** What the program loop leaves in the controller log and the fault
      schedule when it starts with log `log` at absolute address `addr` and
      source cursor `cursor`: while the address is below `end` it programs the
      page at the address from the cursor; a success moves the address on by
      a page and the cursor by `stride` bytes, a failure retries the same
      page. */
  function ProgramLoop(log: seq<HalCall>, addr: nat, end: nat, cursor: nat, stride: nat, faults: seq<bool>): (run: Run)
    ensures |log| <= |run.calls| && |run.rest| <= |faults|
    decreases end - addr, |faults|
  {
    if addr >= end then Run(log, faults)
    else
      var status := if NextFails(faults) then HalError else HalOk;
      var log' := log + [ProgramPage(addr, cursor, status)];
      if status == HalOk
      then ProgramLoop(log', addr + FlashPageSize, end, cursor + stride, stride, Advance(faults))
      else ProgramLoop(log', addr, end, cursor, stride, Advance(faults))
  }

  /** The loop only appends to the log, only page programs, and when the
      address starts below `end` the first call it makes programs the page at
      the address from the cursor. */
  lemma {:induction false} LoopAppends(log: seq<HalCall>, addr: nat, end: nat, cursor: nat, stride: nat, faults: seq<bool>)
    ensures var calls := ProgramLoop(log, addr, end, cursor, stride, faults).calls;
            |log| <= |calls| && calls[..|log|] == log &&
            (forall i :: |log| <= i < |calls| ==> calls[i].ProgramPage?)
    ensures addr < end ==>
              var calls := ProgramLoop(log, addr, end, cursor, stride, faults).calls;
              |log| < |calls| &&
              calls[|log|] == ProgramPage(addr, cursor, if NextFails(faults) then HalError else HalOk)
    decreases end - addr, |faults|
  {
    if addr < end {
      var status := if NextFails(faults) then HalError else HalOk;
      var log' := log + [ProgramPage(addr, cursor, status)];
      if status == HalOk {
        LoopAppends(log', addr + FlashPageSize, end, cursor + stride, stride, Advance(faults));
      } else {
        LoopAppends(log', addr, end, cursor, stride, Advance(faults));
      }
      var calls := ProgramLoop(log, addr, end, cursor, stride, faults).calls;
      assert calls[..|log'|][..|log|] == calls[..|log|];
    }
  }

  /** The successful page programs among `calls`, in order. */
  function Successes(calls: seq<HalCall>): seq<HalCall>
  {
    if calls == [] then []
    else (if calls[0].ProgramPage? && calls[0].status == HalOk then [calls[0]] else []) + Successes(calls[1..])
  }

  lemma {:induction false} SuccessesAppend(a: seq<HalCall>, b: seq<HalCall>)
    ensures Successes(a + b) == Successes(a) + Successes(b)
  {
    if a == [] {
      assert a + b == b;
    } else {
      assert (a + b)[0] == a[0];
      assert (a + b)[1..] == a[1..] + b;
      SuccessesAppend(a[1..], b);
    }
  }

  /** The successful page programs of a loop from `addr` to `end`: one per
      page, each at the next page address and the next source cursor. */
  function PagePlan(addr: nat, end: nat, cursor: nat, stride: nat): (plan: seq<HalCall>)
    ensures |plan| == PagesFrom(addr, end)
    decreases end - addr
  {
    if addr >= end then []
    else
      PagesFromStep(addr, end);
      [ProgramPage(addr, cursor, HalOk)] + PagePlan(addr + FlashPageSize, end, cursor + stride, stride)
  }

  /** The j-th planned program writes the j-th page after `addr` from the
      source cursor after j advances. */
  lemma {:induction false} PagePlanAt(addr: nat, end: nat, cursor: nat, stride: nat, j: nat)
    requires j < PagesFrom(addr, end)
    ensures PagePlan(addr, end, cursor, stride)[j] ==
            ProgramPage(addr + j * FlashPageSize, cursor + stride * j, HalOk)
    decreases end - addr
  {
    if j > 0 {
      PagesFromStep(addr, end);
      PagePlanAt(addr + FlashPageSize, end, cursor + stride, stride, j - 1);
      assert addr + FlashPageSize + (j - 1) * FlashPageSize == addr + j * FlashPageSize;
      MulSucc(stride, j - 1);
    }
  }

  /** Whatever the faults, the successful calls the loop adds are exactly the
      plan: one per page, in page order. */
  lemma {:induction false} RunFollowsPlan(log: seq<HalCall>, addr: nat, end: nat, cursor: nat, stride: nat, faults: seq<bool>)
    ensures Successes(ProgramLoop(log, addr, end, cursor, stride, faults).calls) ==
            Successes(log) + PagePlan(addr, end, cursor, stride)
    decreases end - addr, |faults|
  {
    if addr < end {
      var status := if NextFails(faults) then HalError else HalOk;
      var call := ProgramPage(addr, cursor, status);
      SuccessesAppend(log, [call]);
      assert Successes([call]) == if status == HalOk then [call] else [];
      if status == HalOk {
        RunFollowsPlan(log + [call], addr + FlashPageSize, end, cursor + stride, stride, Advance(faults));
      } else {
        RunFollowsPlan(log + [call], addr, end, cursor, stride, Advance(faults));
      }
    }
  }

  /** A failed page program is never the loop's last call, and the call after
      it programs the same address from the same source cursor. */
  lemma {:induction false} RunRetriesInPlace(log: seq<HalCall>, addr: nat, end: nat, cursor: nat, stride: nat,
                                             faults: seq<bool>, i: nat)
    requires var calls := ProgramLoop(log, addr, end, cursor, stride, faults).calls;
             |log| <= i < |calls| && calls[i].ProgramPage? && calls[i].status == HalError
    ensures var calls := ProgramLoop(log, addr, end, cursor, stride, faults).calls;
            i + 1 < |calls| && calls[i + 1].ProgramPage? &&
            calls[i + 1].addr == calls[i].addr && calls[i + 1].srcOff == calls[i].srcOff
    decreases end - addr, |faults|
  {
    var status := if NextFails(faults) then HalError else HalOk;
    var log' := log + [ProgramPage(addr, cursor, status)];
    LoopAppends(log, addr, end, cursor, stride, faults);
    if status == HalOk {
      RunRetriesInPlace(log', addr + FlashPageSize, end, cursor + stride, stride, Advance(faults), i);
    } else if i > |log| {
      RunRetriesInPlace(log', addr, end, cursor, stride, Advance(faults), i);
    } else {
      LoopAppends(log', addr, end, cursor, stride, Advance(faults));
    }
  }

  /** With a controller that never fails, the loop adds exactly the planned
      calls, each page programmed once. */
  lemma {:induction false} RunWithoutFaults(log: seq<HalCall>, addr: nat, end: nat, cursor: nat, stride: nat, faults: seq<bool>)
    requires forall i :: 0 <= i < |faults| ==> !faults[i]
    ensures ProgramLoop(log, addr, end, cursor, stride, faults).calls == log + PagePlan(addr, end, cursor, stride)
    decreases end - addr
  {
    if addr < end {
      var rest := Advance(faults);
      assert forall i :: 0 <= i < |rest| ==> !rest[i] by {
        if faults != [] {
          assert forall i :: 0 <= i < |rest| ==> rest[i] == faults[i + 1];
        }
      }
      var call := ProgramPage(addr, cursor, HalOk);
      var plan := PagePlan(addr + FlashPageSize, end, cursor + stride, stride);
      assert !NextFails(faults);
      assert ProgramLoop(log, addr, end, cursor, stride, faults) ==
             ProgramLoop(log + [call], addr + FlashPageSize, end, cursor + stride, stride, rest);
      RunWithoutFaults(log + [call], addr + FlashPageSize, end, cursor + stride, stride, rest);
      assert PagePlan(addr, end, cursor, stride) == [call] + plan;
      assert log + [call] + plan == log + ([call] + plan);
    }
  }

  /** struct lfs_config: the handler slots, the geometry fields the port sets,
      and two of the fields it leaves alone (context, name_max). */
  class LfsConfig {
    var read: Handler
    var prog: Handler
    var erase: Handler
    var sync: Handler
    var readSize: nat
    var progSize: nat
    var blockSize: nat
    var blockCount: nat
    var blockCycles: int
    var cacheSize: nat
    var lookaheadSize: nat
    var context: int
    var nameMax: nat

    /** A zero-initialised record, as a C global is. */
    constructor ()
      ensures read == prog == erase == sync == Unbound
      ensures readSize == progSize == blockSize == blockCount == cacheSize == lookaheadSize == 0
      ensures blockCycles == 0 && context == 0 && nameMax == 0
    {
      read, prog, erase, sync := Unbound, Unbound, Unbound, Unbound;
      readSize, progSize, blockSize, blockCount := 0, 0, 0, 0;
      blockCycles, cacheSize, lookaheadSize := 0, 0, 0;
      context, nameMax := 0, 0;
    }

    /** The record as lfs_internal_flash_init leaves it. */
    ghost predicate IsPortConfig()
      reads this
    {
      read == PortRead && prog == PortProg && erase == PortErase && sync == PortSync &&
      readSize == 16 && progSize == 16 &&
      blockSize == FlashSectorSize && blockCount == FlashSectorNum &&
      blockCycles == 500 && cacheSize == 16 && lookaheadSize == 16
    }
  }

  /** lfs_internal_flash_init: binds the four port operations and the fixed
      geometry into `cfg`, touching no other field, and reports success. */
  method Init(cfg: LfsConfig) returns (r: int)
    modifies cfg`read, cfg`prog, cfg`erase, cfg`sync
    modifies cfg`readSize, cfg`progSize, cfg`blockSize, cfg`blockCount
    modifies cfg`blockCycles, cfg`cacheSize, cfg`lookaheadSize
    ensures cfg.IsPortConfig()
    ensures cfg.context == old(cfg.context) && cfg.nameMax == old(cfg.nameMax)
    ensures r == LfsErrOk
  {
    cfg.read := PortRead;
    cfg.prog := PortProg;
    cfg.erase := PortErase;
    cfg.sync := PortSync;

    cfg.readSize := 16;
    cfg.progSize := 16;
    cfg.blockSize := FlashSectorSize;
    cfg.blockCount := FlashSectorNum;
    cfg.blockCycles := 500;
    cfg.cacheSize := 16;
    cfg.lookaheadSize := 16;

    r := LfsErrOk;
  }

  /** The internal flash and its controller. `mem[i]` is the byte at
      FlashStartAddr + i; reads reach the same byte at address i through the
      boot alias of the flash at 0x0. */
  class InternalFlash {
    const mem: array<u8>
    var locked: bool
    /** Outcomes of the coming HAL page programs: true means that call fails. */
    var programFaults: seq<bool>
    /** Outcomes of the coming HAL sector erases: true means that call fails. */
    var eraseFaults: seq<bool>
    /** Every call made into the flash controller, oldest first. */
    ghost var log: seq<HalCall>

    ghost predicate Valid()
      reads this
    {
      mem.Length == FlashSize
    }

    /** A controller after reset: locked, with the given flash contents and
        fault schedules. */
    constructor (contents: seq<u8>, programFaults: seq<bool>, eraseFaults: seq<bool>)
      requires |contents| == FlashSize
      ensures Valid() && fresh(mem)
      ensures mem[..] == contents && locked
      ensures this.programFaults == programFaults && this.eraseFaults == eraseFaults
      ensures log == []
    {
      mem := new u8[FlashSize](i requires 0 <= i < FlashSize => contents[i]);
      locked := true;
      this.programFaults := programFaults;
      this.eraseFaults := eraseFaults;
      log := [];
    }

    /** HAL_FLASH_Unlock (assumed behaviour). */
    method HalUnlock()
      modifies this`locked, this`log
      ensures !locked && log == old(log) + [Unlock]
    {
      locked := false;
      log := log + [Unlock];
    }

    /** HAL_FLASH_Lock (assumed behaviour). */
    method HalLock()
      modifies this`locked, this`log
      ensures locked && log == old(log) + [Lock]
    {
      locked := true;
      log := log + [Lock];
    }

    /** HAL_FLASH_Program with FLASH_TYPEPROGRAM_PAGE (assumed behaviour): on
        success the page at absolute address `addr` holds the FlashPageSize
        bytes at `src[srcOff..]`; on failure nothing changes. */
    method HalProgramPage(addr: nat, src: seq<u8>, srcOff: nat) returns (status: HalStatus)
      requires Valid() && !locked
      requires FlashStartAddr <= addr && IsMultiple(addr - FlashStartAddr, FlashPageSize)
      requires addr - FlashStartAddr + FlashPageSize <= mem.Length
      requires srcOff + FlashPageSize <= |src|
      modifies mem, this`programFaults, this`log
      ensures status == (if NextFails(old(programFaults)) then HalError else HalOk)
      ensures programFaults == Advance(old(programFaults))
      ensures mem[..] == if status == HalOk
                         then Overwrite(old(mem[..]), addr - FlashStartAddr, src[srcOff .. srcOff + FlashPageSize])
                         else old(mem[..])
      ensures log == old(log) + [ProgramPage(addr, srcOff, status)]
    {
      status := if NextFails(programFaults) then HalError else HalOk;
      programFaults := Advance(programFaults);
      if status == HalOk {
        var at := addr - FlashStartAddr;
        forall i | at <= i < at + FlashPageSize {
          mem[i] := src[srcOff + i - at];
        }
      }
      log := log + [ProgramPage(addr, srcOff, status)];
    }

    /** HAL_FLASHEx_Erase of one sector (assumed behaviour): on success the
        sector at absolute address `addr` is all 0xFF; on failure nothing
        changes. */
    method HalEraseSector(addr: nat) returns (status: HalStatus)
      requires Valid() && !locked
      requires FlashStartAddr <= addr && IsMultiple(addr - FlashStartAddr, FlashSectorSize)
      requires addr - FlashStartAddr + FlashSectorSize <= mem.Length
      modifies mem, this`eraseFaults, this`log
      ensures status == (if NextFails(old(eraseFaults)) then HalError else HalOk)
      ensures eraseFaults == Advance(old(eraseFaults))
      ensures mem[..] == if status == HalOk
                         then SectorErased(old(mem[..]), addr - FlashStartAddr)
                         else old(mem[..])
      ensures log == old(log) + [EraseSector(addr, status)]
    {
      status := if NextFails(eraseFaults) then HalError else HalOk;
      eraseFaults := Advance(eraseFaults);
      if status == HalOk {
        var at := addr - FlashStartAddr;
        forall i | at <= i < at + FlashSectorSize {
          mem[i] := Erased;
        }
      }
      log := log + [EraseSector(addr, status)];
    }

    /** lfs_internal_flash_read: copies `size` bytes from flash address
        block * block_size + off into `buffer`, two bytes (one 16-bit load)
        per step, and reports success. The address has no base added: it is
        the boot alias of the flash. */
    method Read(cfg: LfsConfig, block: nat, off: nat, buffer: array<u8>, size: nat) returns (r: int)
      requires Valid() && buffer != mem
      requires cfg.readSize > 0 && cfg.readSize % 2 == 0
      requires IsMultiple(off, cfg.readSize) && IsMultiple(size, cfg.readSize)
      requires block < cfg.blockCount
      requires BlockAddress(cfg.blockSize, block, off) + size <= mem.Length
      requires size <= buffer.Length
      modifies buffer
      ensures buffer[..size] == mem[BlockAddress(cfg.blockSize, block, off) .. BlockAddress(cfg.blockSize, block, off) + size]
      ensures buffer[size..] == old(buffer[size..])
      ensures r == LfsErrOk
    {
      EvenMultiple(size, cfg.readSize);
      var address := BlockAddress(cfg.blockSize, block, off);
      var i := 0;
      while i < size
        invariant 0 <= i <= size && i % 2 == 0
        invariant forall j :: 0 <= j < i ==> buffer[j] == mem[address + j]
        invariant forall j :: i <= j < buffer.Length ==> buffer[j] == old(buffer[j])
      {
        buffer[i] := mem[address + i];
        buffer[i + 1] := mem[address + i + 1];
        i := i + 2;
      }
      r := LfsErrOk;
    }

    /** The while loop of lfs_internal_flash_prog: until the address reaches
        or passes `end`, program the page at the address from the source
        cursor; only a successful program advances the address (by a page)
        and the cursor (by `stride` bytes). */
    method ProgramPages(start: nat, end: nat, src: seq<u8>, stride: nat)
      requires Valid() && !locked
      requires FlashStartAddr <= start && IsMultiple(start - FlashStartAddr, FlashPageSize)
      requires PagesFit(start, end, 0, stride, |src|, mem.Length)
      modifies mem, this`programFaults, this`log
      ensures mem[..] == Programmed(old(mem[..]), start, end, src, 0, stride)
      ensures Run(log, programFaults) == ProgramLoop(old(log), start, end, 0, stride, old(programFaults))
    {
      ghost var image := Programmed(mem[..], start, end, src, 0, stride);
      ghost var run := ProgramLoop(log, start, end, 0, stride, programFaults);
      var address, cursor: nat := start, 0;
      while address < end
        invariant Valid() && !locked
        invariant FlashStartAddr <= address && IsMultiple(address - FlashStartAddr, FlashPageSize)
        invariant PagesFit(address, end, cursor, stride, |src|, mem.Length)
        invariant Programmed(mem[..], address, end, src, cursor, stride) == image
        invariant ProgramLoop(log, address, end, cursor, stride, programFaults) == run
        decreases end - address, |programFaults|
      {
        ghost var before := mem[..];
        var status := HalProgramPage(address, src, cursor);
        if status == HalOk {
          assert Programmed(before, address, end, src, cursor, stride) ==
                 Programmed(mem[..], address + FlashPageSize, end, src, cursor + stride, stride);
          address := address + FlashPageSize;
          cursor := cursor + stride;
        }
      }
    }

    /** lfs_internal_flash_prog: ignores `cfg`, `block` and `off`; unlocks,
        runs the program loop from FlashStartAddr to FlashStartAddr + size
        with the source cursor advancing 4 bytes (one uint32_t) per page,
        locks and reports success. `src` is the memory from `buffer` on: each
        page program reads a whole page from the cursor, past the `size`
        bytes of the caller. */
    method Program(cfg: LfsConfig, block: nat, off: nat, src: seq<u8>, size: nat) returns (r: int)
      requires Valid()
      requires size <= FlashSize
      requires SourceSpan(PagesFor(size), 4) <= |src|
      modifies mem, this`locked, this`programFaults, this`log
      ensures Valid() && locked
      ensures PagesFit(FlashStartAddr, FlashStartAddr + size, 0, 4, |src|, mem.Length) &&
              mem[..] == Programmed(old(mem[..]), FlashStartAddr, FlashStartAddr + size, src, 0, 4)
      ensures var run := ProgramLoop(old(log) + [Unlock], FlashStartAddr, FlashStartAddr + size, 0, 4, old(programFaults));
              log == run.calls + [Lock] && programFaults == run.rest
      ensures r == LfsErrOk
    {
      var start := FlashStartAddr;
      var end := FlashStartAddr + size;
      PagesWithin(size);
      PagesFitWhen(start, end, 0, 4, |src|, mem.Length);
      HalUnlock();
      ProgramPages(start, end, src, 4);
      HalLock();
      r := LfsErrOk;
    }

    /** lfs_internal_flash_erase: erases the one sector at FlashStartAddr,
        whatever `block` is, between unlock and lock. A failed erase enters
        the error handler, so the controller stays unlocked. */
    method Erase(cfg: LfsConfig, block: nat) returns (exit: Exit)
      requires Valid()
      requires block < cfg.blockCount
      modifies mem, this`locked, this`eraseFaults, this`log
      ensures Valid() && eraseFaults == Advance(old(eraseFaults))
      ensures exit == if NextFails(old(eraseFaults)) then Halted else Returned(LfsErrOk)
      ensures exit.Returned? ==>
                mem[..] == SectorErased(old(mem[..]), 0) && locked &&
                log == old(log) + [Unlock, EraseSector(FlashStartAddr, HalOk), Lock]
      ensures exit.Halted? ==>
                mem[..] == old(mem[..]) && !locked &&
                log == old(log) + [Unlock, EraseSector(FlashStartAddr, HalError)]
    {
      HalUnlock();
      var status := HalEraseSector(FlashStartAddr);
      if status != HalOk {
        return Halted;
      }
      HalLock();
      exit := Returned(LfsErrOk);
    }

    /** lfs_internal_flash_sync: internal flash has no write cache; nothing
        changes and success is reported. */
    method Sync(cfg: LfsConfig) returns (r: int)
      ensures r == LfsErrOk
    {
      r := LfsErrOk;
    }
  }

  /** block * blockSize + off, the address lfs_internal_flash_read computes,
      written as repeated addition (BlockAddressIsProduct gives the product). */
  function BlockAddress(blockSize: nat, block: nat, off: nat): (a: nat)
    ensures off <= a
  {
    if block == 0 then off else blockSize + BlockAddress(blockSize, block - 1, off)
  }

  lemma {:induction false} BlockAddressIsProduct(blockSize: nat, block: nat, off: nat)
    ensures BlockAddress(blockSize, block, off) == block * blockSize + off
  {
    if block > 0 {
      BlockAddressIsProduct(blockSize, block - 1, off);
    }
  }

  /** The address of an offset inside a block is the block's address plus
      the offset. */
  lemma {:induction false} BlockAddressOffset(blockSize: nat, block: nat, off: nat)
    ensures BlockAddress(blockSize, block, off) == BlockAddress(blockSize, block, 0) + off
  {
    if block > 0 {
      BlockAddressOffset(blockSize, block - 1, off);
    }
  }

  /** With block size and offset whole multiples of a unit, so is the address. */
  lemma {:induction false} BlockAddressAligned(blockSize: nat, block: nat, off: nat, unit: nat)
    requires IsMultiple(blockSize, unit) && IsMultiple(off, unit)
    ensures IsMultiple(BlockAddress(blockSize, block, off), unit)
  {
    if block > 0 {
      BlockAddressAligned(blockSize, block - 1, off, unit);
      MultipleAdd(blockSize, BlockAddress(blockSize, block - 1, off), unit);
    }
  }

  /** A size that is a multiple of an even read size is even, so the 2-byte
      read steps land exactly on it. */
  lemma {:induction false} EvenMultiple(size: nat, readSize: nat)
    requires readSize % 2 == 0 && IsMultiple(size, readSize)
    ensures size % 2 == 0
    decreases size
  {
    if size > 0 {
      EvenMultiple(size - readSize, readSize);
    }
  }

  /** A transfer that fits in the flash programs only pages inside it. */
  lemma PagesWithin(size: nat)
    requires size <= FlashSize
    ensures PagesFor(size) * FlashPageSize <= FlashSize
  {
    assert PagesFor(size) <= FlashSize / FlashPageSize;
  }
}
