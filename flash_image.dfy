/** Flash contents as a sequence of bytes indexed from the start of the flash,
    and the specification functions that say what a run of page programs or a
    sector erase leaves behind. */
module FlashImage {
  import opened Geometry
  import opened Arithmetic

  /** A byte of flash or RAM. */
  newtype u8 = x: int | 0 <= x < 0x100

  /** The erased state of NOR flash: every bit one. */
  const Erased: u8 := 0xFF

  /** `img` with `data` stored from index `at` on. */
  function Overwrite(img: seq<u8>, at: nat, data: seq<u8>): (r: seq<u8>)
    requires at + |data| <= |img|
    ensures |r| == |img|
    ensures forall i :: 0 <= i < |img| ==>
              r[i] == (if at <= i < at + |data| then data[i - at] else img[i])
  {
    img[..at] + data + img[at + |data|..]
  }

  /** `img` after the sector starting at index `at` was erased. */
  function SectorErased(img: seq<u8>, at: nat): (r: seq<u8>)
    requires at + FlashSectorSize <= |img|
    ensures |r| == |img|
    ensures forall i :: at <= i < at + FlashSectorSize ==> r[i] == Erased
    ensures forall i :: 0 <= i < |img| && !(at <= i < at + FlashSectorSize) ==> r[i] == img[i]
  {
    Overwrite(img, at, seq(FlashSectorSize, _ => Erased))
  }

  /** The number of FlashPageSize steps that take an address from a start to
      at or past start + size: the passes of the program loop. */
  function PagesFor(size: nat): (n: nat)
    ensures n * FlashPageSize >= size
    ensures n > 0 ==> (n - 1) * FlashPageSize < size
  {
    (size + FlashPageSize - 1) / FlashPageSize
  }

  /** The passes the program loop makes from address `addr` until it reaches
      or passes `end`. */
  function PagesFrom(addr: nat, end: nat): nat
  {
    if addr < end then PagesFor(end - addr) else 0
  }

  /** Each pass of the loop leaves one pass fewer to go. */
  lemma PagesFromStep(addr: nat, end: nat)
    requires addr < end
    ensures PagesFrom(addr, end) == PagesFrom(addr + FlashPageSize, end) + 1
  {
    if addr + FlashPageSize < end {
      var size := end - addr;
      assert (size + FlashPageSize - 1) / FlashPageSize == (size - 1) / FlashPageSize + 1;
    }
  }

  /** How many source bytes `n` page programs read when the source cursor
      advances by `stride` bytes per page while each program reads a whole
      page. */
  function SourceSpan(n: nat, stride: nat): nat
  {
    if n == 0 then 0 else stride * (n - 1) + FlashPageSize
  }

  /** Every page the program loop stores, running from absolute address `addr`
      until `end` with the source cursor at `cursor`, lies inside an image of
      `imgLen` bytes and is read from inside a source of `srcLen` bytes. */
  predicate PagesFit(addr: nat, end: nat, cursor: nat, stride: nat, srcLen: nat, imgLen: nat)
    decreases end - addr
  {
    addr >= end ||
    (FlashStartAddr <= addr && addr - FlashStartAddr + FlashPageSize <= imgLen &&
     cursor + FlashPageSize <= srcLen &&
     PagesFit(addr + FlashPageSize, end, cursor + stride, stride, srcLen, imgLen))
  }

  /** The pages fit when the image holds PagesFrom pages from `addr` on and the
      source holds their SourceSpan from the cursor on. */
  lemma {:induction false} PagesFitWhen(addr: nat, end: nat, cursor: nat, stride: nat, srcLen: nat, imgLen: nat)
    requires FlashStartAddr <= addr
    requires addr - FlashStartAddr + PagesFrom(addr, end) * FlashPageSize <= imgLen
    requires cursor + SourceSpan(PagesFrom(addr, end), stride) <= srcLen
    ensures PagesFit(addr, end, cursor, stride, srcLen, imgLen)
    decreases end - addr
  {
    if addr < end {
      var m := PagesFrom(addr + FlashPageSize, end);
      PagesFromStep(addr, end);
      assert (m + 1) * FlashPageSize == m * FlashPageSize + FlashPageSize;
      if m > 0 {
        MulSucc(stride, m - 1);
        assert SourceSpan(m + 1, stride) == stride + SourceSpan(m, stride);
        PagesFitWhen(addr + FlashPageSize, end, cursor + stride, stride, srcLen, imgLen);
      }
    }
  }

  /** What the program loop leaves in `img` when it runs from absolute address
      `addr` until it reaches or passes `end`: each pass stores the page read
      at the source cursor, then moves the address on by a page and the
      cursor by `stride` bytes. */
  function Programmed(img: seq<u8>, addr: nat, end: nat, src: seq<u8>, cursor: nat, stride: nat): (r: seq<u8>)
    requires PagesFit(addr, end, cursor, stride, |src|, |img|)
    ensures |r| == |img|
    decreases end - addr
  {
    if addr >= end then img
    else
      Programmed(Overwrite(img, addr - FlashStartAddr, src[cursor .. cursor + FlashPageSize]),
                 addr + FlashPageSize, end, src, cursor + stride, stride)
  }

  /** The loop touches only its pages: a byte before the first page or after
      the last keeps its old value. */
  lemma {:induction false} ProgrammedKeeps(img: seq<u8>, addr: nat, end: nat, src: seq<u8>, cursor: nat, stride: nat, i: nat)
    requires PagesFit(addr, end, cursor, stride, |src|, |img|)
    requires FlashStartAddr <= addr && i < |img|
    requires i < addr - FlashStartAddr || addr - FlashStartAddr + PagesFrom(addr, end) * FlashPageSize <= i
    ensures Programmed(img, addr, end, src, cursor, stride)[i] == img[i]
    decreases end - addr
  {
    if addr < end {
      var m := PagesFrom(addr + FlashPageSize, end);
      PagesFromStep(addr, end);
      assert (m + 1) * FlashPageSize == m * FlashPageSize + FlashPageSize;
      var img1 := Overwrite(img, addr - FlashStartAddr, src[cursor .. cursor + FlashPageSize]);
      ProgrammedKeeps(img1, addr + FlashPageSize, end, src, cursor + stride, stride, i);
    }
  }

  /** Byte j of the k-th page the loop stores is source byte
      cursor + stride * k + j: the k-th pass reads from the cursor after k
      advances, and no later pass writes that page again. */
  lemma {:induction false} ProgrammedPage(img: seq<u8>, addr: nat, end: nat, src: seq<u8>, cursor: nat, stride: nat,
                                          k: nat, j: nat)
    requires PagesFit(addr, end, cursor, stride, |src|, |img|)
    requires FlashStartAddr <= addr
    requires k < PagesFrom(addr, end) && j < FlashPageSize
    ensures addr - FlashStartAddr + k * FlashPageSize + j < |img|
    ensures cursor + stride * k + j < |src|
    ensures Programmed(img, addr, end, src, cursor, stride)[addr - FlashStartAddr + k * FlashPageSize + j] ==
            src[cursor + stride * k + j]
    decreases end - addr
  {
    var at := addr - FlashStartAddr;
    var img1 := Overwrite(img, at, src[cursor .. cursor + FlashPageSize]);
    PagesFromStep(addr, end);
    if k == 0 {
      ProgrammedKeeps(img1, addr + FlashPageSize, end, src, cursor + stride, stride, at + j);
    } else {
      ProgrammedPage(img1, addr + FlashPageSize, end, src, cursor + stride, stride, k - 1, j);
      assert at + FlashPageSize + (k - 1) * FlashPageSize == at + k * FlashPageSize;
      MulSucc(stride, k - 1);
    }
  }

  /** With a full-page stride the loop stores the source verbatim: the bytes
      from `addr` up to `end` read back as the source bytes from the cursor. */
  lemma FullStrideReadBack(img: seq<u8>, addr: nat, end: nat, src: seq<u8>, cursor: nat)
    requires PagesFit(addr, end, cursor, FlashPageSize, |src|, |img|)
    requires FlashStartAddr <= addr < end
    ensures end - FlashStartAddr <= |img| && cursor + (end - addr) <= |src|
    ensures Programmed(img, addr, end, src, cursor, FlashPageSize)[addr - FlashStartAddr .. end - FlashStartAddr] ==
            src[cursor .. cursor + (end - addr)]
  {
    var at := addr - FlashStartAddr;
    var r := Programmed(img, addr, end, src, cursor, FlashPageSize);
    forall i | at <= i < end - FlashStartAddr
      ensures i < |img| && cursor + (i - at) < |src| && r[i] == src[cursor + (i - at)]
    {
      var k, j := (i - at) / FlashPageSize, (i - at) % FlashPageSize;
      assert k * FlashPageSize + j == FlashPageSize * k + j == i - at;
      ProgrammedPage(img, addr, end, src, cursor, FlashPageSize, k, j);
    }
    var last := end - addr - 1;
    assert (last / FlashPageSize) * FlashPageSize + last % FlashPageSize == last;
    ProgrammedPage(img, addr, end, src, cursor, FlashPageSize, last / FlashPageSize, last % FlashPageSize);
  }

  /** Whatever the stride, a run of at most one page stores the source bytes
      at the cursor verbatim. */
  lemma FirstPageReadBack(img: seq<u8>, addr: nat, end: nat, src: seq<u8>, cursor: nat, stride: nat)
    requires PagesFit(addr, end, cursor, stride, |src|, |img|)
    requires FlashStartAddr <= addr < end && end - addr <= FlashPageSize
    ensures end - FlashStartAddr <= |img| && cursor + (end - addr) <= |src|
    ensures Programmed(img, addr, end, src, cursor, stride)[addr - FlashStartAddr .. end - FlashStartAddr] ==
            src[cursor .. cursor + (end - addr)]
  {
    var at := addr - FlashStartAddr;
    var r := Programmed(img, addr, end, src, cursor, stride);
    forall i | at <= i < end - FlashStartAddr
      ensures i < |img| && cursor + (i - at) < |src| && r[i] == src[cursor + (i - at)]
    {
      ProgrammedPage(img, addr, end, src, cursor, stride, 0, i - at);
    }
    ProgrammedPage(img, addr, end, src, cursor, stride, 0, end - addr - 1);
  }
}
