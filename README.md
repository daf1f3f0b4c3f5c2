# littlefs internal-flash port — a Dafny model

This project models the littlefs block-device port for a microcontroller's internal NOR flash.
The port is `03-Littlefs/Lfs_Port.c` and `03-Littlefs/Lfs_Port.h`. It provides:

- `lfs_internal_flash_init`, which binds the four operations and the geometry into a `struct lfs_config`;
- `lfs_internal_flash_read`, a memory-mapped copy done as 16-bit loads;
- `lfs_internal_flash_prog`, a retrying loop of HAL page programs between unlock and lock;
- `lfs_internal_flash_erase`, one HAL sector erase that enters `APP_ErrorHandler` when it fails;
- `lfs_internal_flash_sync`, which does nothing.

The modules:

- `Geometry` holds the constants: `FLASH_START_ADDR`, `FLASH_SECTOR_NUM`, the sector and page sizes, the flash size and `LFS_ERR_OK`.
- `Arithmetic` holds the divisibility facts the alignment assertions need.
- `FlashImage` is the flash as a byte sequence. It defines what a run of page programs or a sector erase leaves in it: `Overwrite`, `SectorErased`, `Programmed` and `PagesFit`.
- `LfsPort` holds the configuration record (`LfsConfig`, `Init`) and the device (`InternalFlash`). The device has the flash array, the controller lock, fault schedules for the HAL calls and a log of controller calls. Its methods are the four port operations and the HAL primitives they call. `ProgramLoop` and `PagePlan` describe the program loop's call sequence.
- `UsageExample` is `User_Init` from the header's usage comment.
- `Findings` holds the defects of prog and erase, and the corrected operations with the read-back property proved.

The vendor HAL is not part of this model. Its primitives are methods whose contracts state their behaviour as an assumption:

- unlock and lock set the lock flag;
- a page program replaces one 128-byte page;
- a sector erase sets one 4096-byte sector to 0xFF.

Each program or erase call may fail according to a fault schedule that the device carries.

## Model

| member | source | states |
|---|---|---|
| LfsPort.LfsConfig.constructor | 03-Littlefs/Lfs_Port.h:31 | the global `cfg` starts zero-initialised: no handler bound, every geometry field 0 |
| LfsPort.Init | 03-Littlefs/Lfs_Port.c:8-28 | binds read/prog/erase/sync to the port's operations; read_size 16, prog_size 16, block_size 4096, block_count 15, block_cycles 500, cache 16, lookahead 16; other fields untouched; returns LFS_ERR_OK |
| LfsPort.InternalFlash.HalUnlock | 03-Littlefs/Lfs_Port.c:76 | (assumed HAL behaviour) the controller is unlocked and the call is logged |
| LfsPort.InternalFlash.HalLock | 03-Littlefs/Lfs_Port.c:85 | (assumed HAL behaviour) the controller is locked and the call is logged |
| LfsPort.InternalFlash.HalProgramPage | 03-Littlefs/Lfs_Port.c:80 | (assumed HAL behaviour) on success the 128-byte page at the address holds the source page; on failure the flash is unchanged; the outcome comes from the fault schedule |
| LfsPort.InternalFlash.HalEraseSector | 03-Littlefs/Lfs_Port.c:112 | (assumed HAL behaviour) on success the 4096-byte sector reads 0xFF and nothing else changes; on failure the flash is unchanged |
| LfsPort.InternalFlash.Read | 03-Littlefs/Lfs_Port.c:41-57 | under the LFS_ASSERT conditions, the first `size` bytes of the buffer equal the flash bytes at block*block_size+off; the rest of the buffer and the flash are untouched; returns LFS_ERR_OK |
| LfsPort.EvenMultiple | 03-Littlefs/Lfs_Port.c:45-52 | a size that is a multiple of an even read_size is even, so the 2-byte steps of the read loop end exactly at `size` |
| LfsPort.BlockAddress | 03-Littlefs/Lfs_Port.c:49 | the address read copies from, block * block_size + off, computed by repeated addition; it is never below `off` (its exact value is BlockAddressIsProduct) |
| LfsPort.BlockAddressIsProduct | 03-Littlefs/Lfs_Port.c:49 | the read address equals block * block_size + off |
| LfsPort.BlockAddressOffset | 03-Littlefs/Lfs_Port.c:49 | the address of an offset in a block is the block's address plus the offset |
| Arithmetic.MultipleIsMod | 03-Littlefs/Lfs_Port.c:44-45 | the model's divisibility predicate holds exactly when `x % m == 0`, which is the form of the read assertions |
| LfsPort.InternalFlash.ProgramPages | 03-Littlefs/Lfs_Port.c:78-84 | after the loop the flash is `Programmed(old flash, ...)` and the controller log and fault schedule are those of `ProgramLoop` |
| LfsPort.InternalFlash.Program | 03-Littlefs/Lfs_Port.c:70-88 | ignores cfg, block and off; programs pages from FLASH_START_ADDR until FLASH_START_ADDR+size is reached, with the source moving 4 bytes per page; the log is unlock, the loop's calls, then lock; ends locked; returns LFS_ERR_OK |
| LfsPort.ProgramLoop | 03-Littlefs/Lfs_Port.c:78-84 | the controller calls of the `while` loop: while the address is below the end, one page program at the address from the source cursor; success moves the address a page and the cursor a stride, failure retries in place; the log only grows and the fault schedule only shrinks (properties below) |
| LfsPort.LoopAppends | 03-Littlefs/Lfs_Port.c:78-84 | the loop only appends page-program calls to the log; the first call programs the start address from the start cursor |
| LfsPort.PagePlan | 03-Littlefs/Lfs_Port.c:78-82 | the loop makes one successful program per page: ceil(size/128) of them, 0 when size is 0 |
| LfsPort.PagePlanAt | 03-Littlefs/Lfs_Port.c:80-82 | the k-th successful program targets start + k*128 and reads from source offset stride*k |
| LfsPort.RunFollowsPlan | 03-Littlefs/Lfs_Port.c:78-84 | whatever the faults, the successful calls in the log are exactly the plan, in page order |
| LfsPort.RunRetriesInPlace | 03-Littlefs/Lfs_Port.c:80-83 | a failed page program is followed by another program of the same address from the same source offset; neither the address nor the source moves on a failure |
| LfsPort.RunWithoutFaults | 03-Littlefs/Lfs_Port.c:78-84 | when no call fails, the log gains exactly the plan: each page is programmed once |
| FlashImage.Overwrite | 03-Littlefs/Lfs_Port.c:80 | bytes in the written range take the data and every other byte is kept |
| FlashImage.SectorErased | 03-Littlefs/Lfs_Port.c:107-112 | the sector's 4096 bytes read 0xFF and every other byte is kept |
| FlashImage.PagesFor | 03-Littlefs/Lfs_Port.c:78-81 | the number of 128-byte steps that carry the address to or past start+size: the least n with n*128 >= size |
| FlashImage.PagesFitWhen | 03-Littlefs/Lfs_Port.c:78-82 | every page the loop touches lies in the flash and reads inside the source when the flash holds PagesFor pages and the source holds their span |
| FlashImage.Programmed | 03-Littlefs/Lfs_Port.c:78-84 | the flash the `while` loop leaves: page after page from the start address until the end is reached or passed, each holding a page read at the source cursor; same size as the flash it starts from (contents by ProgrammedPage and ProgrammedKeeps) |
| FlashImage.ProgrammedKeeps | 03-Littlefs/Lfs_Port.c:78-84 | bytes before the first page and after the last page programmed keep their values |
| FlashImage.ProgrammedPage | 03-Littlefs/Lfs_Port.c:80-82 | byte j of the k-th page programmed holds source byte cursor + stride*k + j, and no later page overwrites it |
| FlashImage.FirstPageReadBack | 03-Littlefs/Lfs_Port.c:78-84 | a transfer of at most one page reads back verbatim whatever the source stride |
| FlashImage.FullStrideReadBack | 03-Littlefs/Lfs_Port.c:78-84 | with a whole-page source stride the programmed range reads back as the source |
| LfsPort.InternalFlash.Erase | 03-Littlefs/Lfs_Port.c:98-118 | erases the sector at FLASH_START_ADDR whatever the block; on success the flash is that sector erased, the log is unlock/erase/lock and the result is LFS_ERR_OK; on failure the error handler is entered with the flash unchanged and the controller unlocked |
| LfsPort.InternalFlash.Sync | 03-Littlefs/Lfs_Port.c:127-131 | returns LFS_ERR_OK and changes nothing |
| UsageExample.HelloPage | 03-Littlefs/Lfs_Port.h:41-48 | programming the 16 bytes of "Hello LittleFS!\0" stores them at the start of flash, followed by the rest of the page read from memory after the buffer; the rest of the flash is kept |
| UsageExample.UserInit | 03-Littlefs/Lfs_Port.h:35-57 | after init, prog and read, `cfg` is the port configuration, the controller is locked, read_buffer holds "Hello LittleFS!\0", the first page holds the string and the bytes after it, and the rest of the flash is kept; the read's assertions hold for size 16; the final `result` (read's) is LFS_ERR_OK |
| Findings.ProgramIgnoresBlock | 03-Littlefs/Lfs_Port.c:72-73 | a 16-byte program to block 1 of erased flash lands in block 0, and block 1 still reads 0xFF |
| Findings.EraseIgnoresBlock | 03-Littlefs/Lfs_Port.c:108 | erasing block 1 erases block 0, and block 1 keeps its data |
| Findings.StrideMismatch | 03-Littlefs/Lfs_Port.c:74-82 | a 256-byte program stores source byte 4 at flash byte 128, so the flash does not read back as the source |
| Findings.ProgramAt | 03-Littlefs/Lfs_Port.c:70-88 | corrected prog: the page loop starts at FLASH_START_ADDR + block*block_size + off and moves the source a whole page per page |
| Findings.ProgramAtReadBack | 03-Littlefs/Lfs_Port.c:70-88 | with the corrected prog, the `size` bytes at the block address read back as the source |
| Findings.ProgramAtKeepsRest | 03-Littlefs/Lfs_Port.c:70-88 | the corrected prog keeps every byte outside the pages it covers |
| Findings.EraseAt | 03-Littlefs/Lfs_Port.c:98-118 | corrected erase: erases the sector at FLASH_START_ADDR + block*block_size, with the same unlock/lock/error-handler behaviour |
| Findings.EraseAtClearsBlock | 03-Littlefs/Lfs_Port.c:98-118 | after the corrected erase, every offset of the block reads 0xFF and every byte outside it is kept |
| Findings.BlockInFlash | 03-Littlefs/Lfs_Port.h:67 | each of the 15 blocks of 4096 bytes, and any range inside one, lies within the 64 KiB flash |
| Findings.ErasedThenProgrammed | 03-Littlefs/Lfs_Port.c:70-118 | erasing a sector and then programming inside it with the corrected prog: the programmed bytes read back as the source and every byte outside the sector keeps its value |
| Findings.ProgramThenRead | 03-Littlefs/Lfs_Port.c:41-88 | corrected prog followed by read of the same range: the flash is the corrected program's image, the read returns the data whatever faults the page programs meet, the rest of the buffer is untouched, the controller ends locked, and the result is LFS_ERR_OK |
| Findings.WriteReadBack | 03-Littlefs/Lfs_Port.c:41-118 | erase, then program, then read of one block through the corrected operations: if the erase succeeds, the read returns the data whatever faults the page programs meet, the controller ends locked, the rest of the buffer is untouched and no other block of the flash changes; if it fails, the error handler is entered |

## Left out

- The vendor HAL (`HAL_FLASH_Unlock`, `HAL_FLASH_Lock`, `HAL_FLASH_Program`, `HAL_FLASHEx_Erase`) is not part of this model. Its behaviour is assumed in the contracts of the `Hal*` methods.
- A NOR page program can only clear bits (the new contents are the old AND the data); the model's page program replaces the page. The two agree only when the page was erased first. littlefs erases a block before programming it, so through the corrected operations they agree. The as-written prog always programs the first page(s) of flash, and the usage example programs without erasing; neither of these programs an erased page.
- UsageExample.UserInit: the read-back holds only under the model's overwrite semantics of a page program. On real flash the example returns the string only if the first page was already erased, which nothing in the example ensures.
- UsageExample.HelloPage: states the page contents under the same overwrite semantics; on flash that was not erased, each stored byte would be the AND of the old byte and the string byte.
- FLASH_PAGE_SIZE (128), FLASH_SECTOR_SIZE (4096; the header's own definition is commented out) and the 64 KiB flash size come from the device header, which is not part of this model. They are fixed constants here.
- LfsPort.InternalFlash.Read: requires an even read_size, a range inside the flash image and a buffer of at least `size` bytes. The source checks none of these, and it performs unaligned 16-bit accesses as raw pointer casts.
- Reads go through the flash's boot alias at address 0, so the address has no base added. The model treats `mem[i]` as the byte at that address; what an address outside the alias would return is not modelled.
- The `uint32_t` address arithmetic and its wrap-around are not modelled. The preconditions keep every address far below 2^32.
- LfsPort.InternalFlash.Program: its source is a sequence holding `buffer` and the memory after it, because each page program reads a whole page past the caller's `size` bytes. It requires `size` to fit in the flash; the source would program past the end of flash.
- A HAL call that fails forever makes the source's program loop run forever. The model replaces that with a finite fault schedule: once the schedule runs out, calls succeed. Non-termination under persistent failure is therefore not modelled.
- `APP_ErrorHandler` is modelled as the `Halted` exit: the handler does not return. What the handler does is not part of this model.
- The fields `block_cycles`, `cache_size` and `lookahead_size` are modelled as the values Init sets. How littlefs uses them, and littlefs itself, are not part of this model.
- Interrupts and concurrent access to the flash controller are not modelled.
- The `__NOP()` and the `lfs`/`file` globals of the usage example are not modelled; `main.h` is not part of this model.
- Findings.ProgramAt: requires a page-aligned `off`. A prog_size equal to the page size gives this; the port's prog_size of 16 does not.

## Findings

| source | as written | input that shows it | evidently intended | confidence | as-written member | corrected member |
|---|---|---|---|---|---|---|
| 03-Littlefs/Lfs_Port.c:72-73 | prog starts at FLASH_START_ADDR whatever `block` and `off` are | prog of 16 bytes to block 1, off 0, on erased flash: the bytes land in block 0, and a read of block 1 returns 0xFF | program from FLASH_START_ADDR + block*block_size + off, the address read uses | not executed | Findings.ProgramIgnoresBlock | Findings.ProgramAt |
| 03-Littlefs/Lfs_Port.c:108 | erase always erases the sector at FLASH_START_ADDR | erase of block 1 while block 1 holds data: block 0 is erased and block 1 keeps its data | erase the sector at FLASH_START_ADDR + block*block_size | not executed | Findings.EraseIgnoresBlock | Findings.EraseAt |
| 03-Littlefs/Lfs_Port.c:74-82 | `src++` on a `uint32_t *` moves the source 4 bytes per 128-byte page | prog of 256 bytes whose bytes 4 and 128 differ: flash byte 128 holds source byte 4 | move the source on by FLASH_PAGE_SIZE bytes per page | not executed | Findings.StrideMismatch | Findings.ProgramAtReadBack |
