/** The usage example in the comment of Lfs_Port.h: User_Init fills the
    configuration, programs "Hello LittleFS!" at block 0, offset 0, and reads
    the same number of bytes back. */
module UsageExample {
  import opened Geometry
  import opened Arithmetic
  import opened FlashImage
  import opened LfsPort

  /** write_buffer: the string "Hello LittleFS!" with its terminating NUL,
      so sizeof(write_buffer) is 16. */
  const HelloLittleFs: seq<u8> :=
    [72, 101, 108, 108, 111, 32, 76, 105, 116, 116, 108, 101, 70, 83, 33, 0]

  /** The bytes the single page program of the example stores: it reads a
      whole page starting at write_buffer, so the bytes that follow the buffer
      in memory (`stackTail`) are stored after the string. */
  lemma HelloPage(img: seq<u8>, stackTail: seq<u8>)
    requires |img| == FlashSize
    requires |HelloLittleFs| + |stackTail| >= FlashPageSize
    ensures PagesFit(FlashStartAddr, FlashStartAddr + |HelloLittleFs|, 0, 4, |HelloLittleFs + stackTail|, |img|)
    ensures var after := Programmed(img, FlashStartAddr, FlashStartAddr + |HelloLittleFs|, HelloLittleFs + stackTail, 0, 4);
            after[..|HelloLittleFs|] == HelloLittleFs &&
            after[..FlashPageSize] == (HelloLittleFs + stackTail)[..FlashPageSize] &&
            after[FlashPageSize..] == img[FlashPageSize..]
  {
    var src := HelloLittleFs + stackTail;
    var end := FlashStartAddr + |HelloLittleFs|;
    PagesFitWhen(FlashStartAddr, end, 0, 4, |src|, |img|);
    var after := Programmed(img, FlashStartAddr, end, src, 0, 4);
    FirstPageReadBack(img, FlashStartAddr, end, src, 0, 4);
    assert src[..|HelloLittleFs|] == HelloLittleFs;
    forall i | 0 <= i < FlashPageSize
      ensures after[i] == src[i]
    {
      ProgrammedPage(img, FlashStartAddr, end, src, 0, 4, 0, i);
    }
    forall i | FlashPageSize <= i < |img|
      ensures after[i] == img[i]
    {
      ProgrammedKeeps(img, FlashStartAddr, end, src, 0, 4, i);
    }
  }

  /** User_Init: after init, prog and read, read_buffer holds the string that
      was written, the read reports success, and the flash holds the string
      followed by the bytes after write_buffer up to the end of the page. The
      example never erases that page, so this read-back rests on the page
      program replacing the page (see InternalFlash.HalProgramPage). */
  method UserInit(dev: InternalFlash, cfg: LfsConfig, stackTail: seq<u8>) returns (result: int, readBuffer: array<u8>)
    requires dev.Valid()
    requires |HelloLittleFs| + |stackTail| >= FlashPageSize
    modifies cfg, dev.mem, dev`locked, dev`programFaults, dev`log
    ensures fresh(readBuffer) && readBuffer[..] == HelloLittleFs
    ensures dev.mem[..FlashPageSize] == (HelloLittleFs + stackTail)[..FlashPageSize]
    ensures dev.mem[FlashPageSize..] == old(dev.mem[FlashPageSize..])
    ensures cfg.IsPortConfig() && dev.locked
    ensures result == LfsErrOk
  {
    ghost var flash0 := dev.mem[..];
    result := Init(cfg);

    var writeBuffer := HelloLittleFs;
    var block, off := 0, 0;
    result := dev.Program(cfg, block, off, writeBuffer + stackTail, |writeBuffer|);
    HelloPage(flash0, stackTail);

    readBuffer := new u8[|writeBuffer|](_ => 0);
    assert IsMultiple(|writeBuffer|, cfg.readSize);
    result := dev.Read(cfg, block, off, readBuffer, |writeBuffer|);
  }
}
