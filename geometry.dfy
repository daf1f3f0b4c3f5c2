/** Fixed geometry of the internal NOR flash and the littlefs status code the
    port returns. The first three constants are the ones Lfs_Port.h defines;
    the others come from headers outside this model (the device header and
    lfs.h) and are fixed here to the values of the 64 KiB part the port targets. */
module Geometry {

  /** FLASH_START_ADDR: where the internal flash is mapped; program and erase
      address the controller with absolute addresses from here on. */
  const FlashStartAddr: nat := 0x0800_0000

  /** FLASH_SECTOR_NUM: number of erase sectors littlefs may use
      ((FLASH_END - FLASH_BASE) / 4096 rounded down, as the header notes). */
  const FlashSectorNum: nat := 15

  /** FLASH_SECTOR_SIZE: the controller's erase unit. The header leaves its own
      definition (4096) commented out; the device header supplies the value. */
  const FlashSectorSize: nat := 4096

  /** FLASH_PAGE_SIZE: the controller's page-programming unit (device header). */
  const FlashPageSize: nat := 128

  /** Size of the mapped flash region: FLASH_END - FLASH_BASE + 1. */
  const FlashSize: nat := 0x1_0000

  /** LFS_ERR_OK from lfs.h. */
  const LfsErrOk: int := 0
}
