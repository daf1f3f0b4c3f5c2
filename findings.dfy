/** Where lfs_internal_flash_prog and lfs_internal_flash_erase depart from
    what a littlefs block device must do, shown on the model of the code as
    written, and the corrected operations with the property littlefs relies
    on proved about them.

    As written, prog and erase ignore `block` and `off`: prog always starts at
    FlashStartAddr and erase always erases the sector there. And prog moves
    its source address by one uint32_t (4 bytes) per page programmed, so from
    the second page on it stores bytes that overlap the previous page. The
    corrected operations translate (block, off) to the address that read
    uses, block * block_size + off, and move the source on by a whole page. */
module Findings {
  import opened Geometry
  import opened Arithmetic
  import opened FlashImage
  import opened LfsPort

  /** The erased flash. */
  function ErasedFlash(): (img: seq<u8>)
    ensures |img| == FlashSize && forall i :: 0 <= i < |img| ==> img[i] == Erased
  {
    seq(FlashSize, _ => Erased)
  }

  /** Program as written, asked to store 16 bytes at block 1, offset 0, of
      erased flash: the page lands at the start of block 0, and the first
      byte of block 1 (what Read of block 1, offset 0 returns) stays 0xFF. */
  lemma ProgramIgnoresBlock(src: seq<u8>)
    requires |src| >= FlashPageSize && src[0] != Erased
    ensures PagesFit(FlashStartAddr, FlashStartAddr + 16, 0, 4, |src|, FlashSize)
    ensures var after := Programmed(ErasedFlash(), FlashStartAddr, FlashStartAddr + 16, src, 0, 4);
            after[0] == src[0] &&
            after[BlockAddress(FlashSectorSize, 1, 0)] == Erased != src[0]
  {
    var end := FlashStartAddr + 16;
    PagesFitWhen(FlashStartAddr, end, 0, 4, |src|, FlashSize);
    ProgrammedPage(ErasedFlash(), FlashStartAddr, end, src, 0, 4, 0, 0);
    BlockAddressIsProduct(FlashSectorSize, 1, 0);
    ProgrammedKeeps(ErasedFlash(), FlashStartAddr, end, src, 0, 4, BlockAddress(FlashSectorSize, 1, 0));
  }

  /** Erase as written, asked to erase block 1: block 0 is erased instead and
      block 1 keeps its data, so it cannot be programmed afresh. */
  lemma EraseIgnoresBlock(img: seq<u8>)
    requires |img| == FlashSize && img[FlashSectorSize] != Erased
    ensures var after := SectorErased(img, 0);
            after[0] == Erased &&
            after[BlockAddress(FlashSectorSize, 1, 0)] == img[FlashSectorSize] != Erased
  {
    BlockAddressIsProduct(FlashSectorSize, 1, 0);
  }

  /** Program as written with 256 bytes (two pages): the second page holds
      the source from offset 4 on instead of offset 128, so the flash does not
      read back as the source whenever those two bytes differ. */
  lemma StrideMismatch(img: seq<u8>, src: seq<u8>)
    requires |img| == FlashSize && |src| >= 2 * FlashPageSize
    requires src[4] != src[FlashPageSize]
    ensures PagesFit(FlashStartAddr, FlashStartAddr + 2 * FlashPageSize, 0, 4, |src|, |img|)
    ensures var after := Programmed(img, FlashStartAddr, FlashStartAddr + 2 * FlashPageSize, src, 0, 4);
            after[FlashPageSize] == src[4] &&
            after[..2 * FlashPageSize] != src[..2 * FlashPageSize]
  {
    var end := FlashStartAddr + 2 * FlashPageSize;
    PagesFitWhen(FlashStartAddr, end, 0, 4, |src|, |img|);
    ProgrammedPage(img, FlashStartAddr, end, src, 0, 4, 1, 0);
    var after := Programmed(img, FlashStartAddr, end, src, 0, 4);
    assert after[..2 * FlashPageSize][FlashPageSize] != src[..2 * FlashPageSize][FlashPageSize];
  }

  /** lfs_internal_flash_prog as evidently intended: the page loop runs from
      the flash address of (block, off) and moves the source on by a whole
      page per page programmed. */
  method ProgramAt(dev: InternalFlash, cfg: LfsConfig, block: nat, off: nat, src: seq<u8>, size: nat) returns (r: int)
    requires dev.Valid()
    requires IsMultiple(cfg.blockSize, FlashPageSize) && IsMultiple(off, FlashPageSize)
    requires BlockAddress(cfg.blockSize, block, off) + PagesFor(size) * FlashPageSize <= FlashSize
    requires SourceSpan(PagesFor(size), FlashPageSize) <= |src|
    modifies dev.mem, dev`locked, dev`programFaults, dev`log
    ensures dev.Valid() && dev.locked
    ensures var start := FlashStartAddr + BlockAddress(cfg.blockSize, block, off);
            PagesFit(start, start + size, 0, FlashPageSize, |src|, dev.mem.Length) &&
            dev.mem[..] == Programmed(old(dev.mem[..]), start, start + size, src, 0, FlashPageSize)
    ensures var start := FlashStartAddr + BlockAddress(cfg.blockSize, block, off);
            var run := ProgramLoop(old(dev.log) + [Unlock], start, start + size, 0, FlashPageSize, old(dev.programFaults));
            dev.log == run.calls + [Lock] && dev.programFaults == run.rest
    ensures r == LfsErrOk
  {
    var start := FlashStartAddr + BlockAddress(cfg.blockSize, block, off);
    var end := start + size;
    BlockAddressAligned(cfg.blockSize, block, off, FlashPageSize);
    PagesFitWhen(start, end, 0, FlashPageSize, |src|, dev.mem.Length);
    dev.HalUnlock();
    dev.ProgramPages(start, end, src, FlashPageSize);
    dev.HalLock();
    r := LfsErrOk;
  }

  /** lfs_internal_flash_erase as evidently intended: the sector erased is
      the one holding `block`. */
  method EraseAt(dev: InternalFlash, cfg: LfsConfig, block: nat) returns (exit: Exit)
    requires dev.Valid()
    requires block < cfg.blockCount && cfg.blockSize == FlashSectorSize
    requires BlockAddress(cfg.blockSize, block, 0) + FlashSectorSize <= FlashSize
    modifies dev.mem, dev`locked, dev`eraseFaults, dev`log
    ensures dev.Valid() && dev.eraseFaults == Advance(old(dev.eraseFaults))
    ensures exit == if NextFails(old(dev.eraseFaults)) then Halted else Returned(LfsErrOk)
    ensures var at := BlockAddress(cfg.blockSize, block, 0);
            exit.Returned? ==>
              dev.mem[..] == SectorErased(old(dev.mem[..]), at) && dev.locked &&
              dev.log == old(dev.log) + [Unlock, EraseSector(FlashStartAddr + at, HalOk), Lock]
    ensures var at := BlockAddress(cfg.blockSize, block, 0);
            exit.Halted? ==>
              dev.mem[..] == old(dev.mem[..]) && !dev.locked &&
              dev.log == old(dev.log) + [Unlock, EraseSector(FlashStartAddr + at, HalError)]
  {
    var at := BlockAddress(cfg.blockSize, block, 0);
    BlockAddressAligned(cfg.blockSize, block, 0, FlashSectorSize);
    dev.HalUnlock();
    var status := dev.HalEraseSector(FlashStartAddr + at);
    if status != HalOk {
      return Halted;
    }
    dev.HalLock();
    exit := Returned(LfsErrOk);
  }

  /** The corrected program stores the source verbatim at the address of
      (block, off), `at`: the bytes read back from there are the `size` bytes
      written. */
  lemma ProgramAtReadBack(img: seq<u8>, at: nat, src: seq<u8>, size: nat)
    requires at + PagesFor(size) * FlashPageSize <= |img|
    requires SourceSpan(PagesFor(size), FlashPageSize) <= |src|
    ensures PagesFit(FlashStartAddr + at, FlashStartAddr + at + size, 0, FlashPageSize, |src|, |img|)
    ensures at + size <= |img| && size <= |src| &&
            Programmed(img, FlashStartAddr + at, FlashStartAddr + at + size, src, 0, FlashPageSize)[at .. at + size] ==
            src[..size]
  {
    var start := FlashStartAddr + at;
    PagesFitWhen(start, start + size, 0, FlashPageSize, |src|, |img|);
    if size > 0 {
      FullStrideReadBack(img, start, start + size, src, 0);
    }
  }

  /** The corrected program writes only the pages it covers: every other
      byte of the flash keeps its value. */
  lemma ProgramAtKeepsRest(img: seq<u8>, at: nat, src: seq<u8>, size: nat, i: nat)
    requires at + PagesFor(size) * FlashPageSize <= |img|
    requires SourceSpan(PagesFor(size), FlashPageSize) <= |src|
    requires i < |img| && (i < at || at + PagesFor(size) * FlashPageSize <= i)
    ensures PagesFit(FlashStartAddr + at, FlashStartAddr + at + size, 0, FlashPageSize, |src|, |img|)
    ensures Programmed(img, FlashStartAddr + at, FlashStartAddr + at + size, src, 0, FlashPageSize)[i] == img[i]
  {
    var start := FlashStartAddr + at;
    PagesFitWhen(start, start + size, 0, FlashPageSize, |src|, |img|);
    ProgrammedKeeps(img, start, start + size, src, 0, FlashPageSize, i);
  }

  /** The corrected erase clears exactly the block: every offset inside it
      reads 0xFF and every byte of the other blocks is kept. */
  lemma EraseAtClearsBlock(img: seq<u8>, block: nat, off: nat, i: nat)
    requires BlockAddress(FlashSectorSize, block, 0) + FlashSectorSize <= |img|
    requires off < FlashSectorSize && i < |img|
    ensures var at := BlockAddress(FlashSectorSize, block, 0);
            var a := BlockAddress(FlashSectorSize, block, off);
            a == at + off && SectorErased(img, at)[a] == Erased
    ensures var at := BlockAddress(FlashSectorSize, block, 0);
            (i < at || at + FlashSectorSize <= i) ==> SectorErased(img, at)[i] == img[i]
  {
    BlockAddressOffset(FlashSectorSize, block, off);
  }

  /** The corrected program followed by read of the same range: the read
      returns the data, whatever faults the page programs meet, and the
      controller ends locked. */
  method ProgramThenRead(dev: InternalFlash, cfg: LfsConfig, block: nat, off: nat, data: seq<u8>, size: nat,
                         buffer: array<u8>) returns (r: int)
    requires dev.Valid() && cfg.IsPortConfig() && buffer != dev.mem
    requires block < cfg.blockCount
    requires IsMultiple(off, FlashPageSize) && IsMultiple(size, cfg.readSize)
    requires off + PagesFor(size) * FlashPageSize <= cfg.blockSize
    requires SourceSpan(PagesFor(size), FlashPageSize) <= |data|
    requires size <= buffer.Length
    modifies dev.mem, dev`locked, dev`programFaults, dev`log, buffer
    ensures dev.Valid() && dev.locked
    ensures var start := FlashStartAddr + BlockAddress(cfg.blockSize, block, off);
            PagesFit(start, start + size, 0, FlashPageSize, |data|, dev.mem.Length) &&
            dev.mem[..] == Programmed(old(dev.mem[..]), start, start + size, data, 0, FlashPageSize)
    ensures size <= |data| && buffer[..size] == data[..size]
    ensures buffer[size..] == old(buffer[size..])
    ensures r == LfsErrOk
  {
    BlockInFlash(block, off, PagesFor(size) * FlashPageSize);
    PortAlignment(off);
    ghost var before := dev.mem[..];
    r := ProgramAt(dev, cfg, block, off, data, size);
    ProgramAtReadBack(before, BlockAddress(cfg.blockSize, block, off), data, size);
    r := dev.Read(cfg, block, off, buffer, size);
  }

  /** What littlefs relies on, with the corrected operations: erase a block,
      program `size` bytes into it at `off`, read them back; unless the erase
      fails, the read returns the data, whatever faults the page programs
      meet on the way, the controller ends locked, the rest of the buffer is
      untouched and no other block of the flash has changed. */
  method WriteReadBack(dev: InternalFlash, cfg: LfsConfig, block: nat, off: nat, data: seq<u8>, size: nat,
                       buffer: array<u8>) returns (exit: Exit)
    requires dev.Valid() && cfg.IsPortConfig() && buffer != dev.mem
    requires block < cfg.blockCount
    requires IsMultiple(off, FlashPageSize) && IsMultiple(size, cfg.readSize)
    requires off + PagesFor(size) * FlashPageSize <= cfg.blockSize
    requires SourceSpan(PagesFor(size), FlashPageSize) <= |data|
    requires size <= buffer.Length
    modifies dev.mem, dev`locked, dev`programFaults, dev`eraseFaults, dev`log, buffer
    ensures exit == if NextFails(old(dev.eraseFaults)) then Halted else Returned(LfsErrOk)
    ensures exit.Returned? ==> size <= |data| && buffer[..size] == data[..size]
    ensures exit.Returned? ==> dev.locked && buffer[size..] == old(buffer[size..])
    ensures exit.Returned? ==> KeptOutside(dev.mem[..], old(dev.mem[..]), BlockAddress(cfg.blockSize, block, 0))
  {
    ghost var flash0 := dev.mem[..];
    BlockInFlash(block, 0, FlashSectorSize);
    exit := EraseAt(dev, cfg, block);
    if exit.Halted? {
      return;
    }
    var r := ProgramThenRead(dev, cfg, block, off, data, size, buffer);
    BlockInFlash(block, off, PagesFor(size) * FlashPageSize);
    BlockAddressOffset(cfg.blockSize, block, off);
    ErasedThenProgrammed(flash0, BlockAddress(cfg.blockSize, block, 0), BlockAddress(cfg.blockSize, block, off), data, size);
  }

  /** `after` differs from `before` at most inside the sector starting at
      index `at`. */
  predicate KeptOutside(after: seq<u8>, before: seq<u8>, at: nat)
  {
    |after| == |before| &&
    forall i :: 0 <= i < |before| && !(at <= i < at + FlashSectorSize) ==> after[i] == before[i]
  }

  /** Erasing the sector at `at` and programming `size` bytes at `a` inside
      it with a whole-page source stride: the bytes at `a` read back as the
      source, and every byte outside the sector is as it was. */
  lemma ErasedThenProgrammed(img: seq<u8>, at: nat, a: nat, src: seq<u8>, size: nat)
    requires at + FlashSectorSize <= |img|
    requires at <= a && a + PagesFor(size) * FlashPageSize <= at + FlashSectorSize
    requires SourceSpan(PagesFor(size), FlashPageSize) <= |src|
    ensures PagesFit(FlashStartAddr + a, FlashStartAddr + a + size, 0, FlashPageSize, |src|, |img|)
    ensures var r := Programmed(SectorErased(img, at), FlashStartAddr + a, FlashStartAddr + a + size, src, 0, FlashPageSize);
            size <= |src| && a + size <= |r| && r[a .. a + size] == src[..size] && KeptOutside(r, img, at)
  {
    var erased := SectorErased(img, at);
    ProgramAtReadBack(erased, a, src, size);
    forall i | 0 <= i < |img| && !(at <= i < at + FlashSectorSize)
      ensures Programmed(erased, FlashStartAddr + a, FlashStartAddr + a + size, src, 0, FlashPageSize)[i] == img[i]
    {
      ProgramAtKeepsRest(erased, a, src, size, i);
    }
  }

  /** Every block of the port's geometry, and any range inside it, lies
      inside the flash. */
  lemma BlockInFlash(block: nat, off: nat, n: nat)
    requires block < FlashSectorNum && off + n <= FlashSectorSize
    ensures BlockAddress(FlashSectorSize, block, off) + n <= FlashSize
  {
    BlockAddressIsProduct(FlashSectorSize, block, off);
    MulMonotone(FlashSectorSize, block, FlashSectorNum - 1);
  }

  /** A block is a whole number of pages, and a page-aligned offset is
      aligned to the port's 16-byte read size. */
  lemma PortAlignment(off: nat)
    requires IsMultiple(off, FlashPageSize)
    ensures IsMultiple(FlashSectorSize, FlashPageSize) && IsMultiple(off, 16)
  {
    MultipleIsMod(FlashSectorSize, FlashPageSize);
    MultipleIsMod(FlashPageSize, 16);
    MultipleOfMultiple(off, FlashPageSize, 16);
  }
}
