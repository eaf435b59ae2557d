# Main MCU bootloader: the two-pass firmware update

This project models the firmware-update engine of the main MCU bootloader
(`main`, `store_row_buffer_into_main_memory` and `brick_main_mcu` in
`source_code/main_mcu/src/bootloader.c`) in Dafny and proves what it does.

- **Preflight gate** (`Preflight.Check`, `FirmwareUpdate.Bootloader.Run`). The
  chain of checks runs before an update: fuses, settings store, upgrade flag,
  external flash presence, update file, CRC32. Each check ends in one of three
  outcomes: jump to the application, clear the flag and jump, or halt. The
  platform's answers are inputs (`Platform`).
- **Size prefix** (`Preflight.FirmwareSize`). The update file begins with a
  32-bit little-endian size. The firmware window starts just after it.
- **Chunk stream** (`ChunkStream`). The signed region of the external flash,
  `[signedStart, extSize)`, is cut into chunks of `min(256, remaining)` bytes.
  Each chunk is read by a continuous-read transfer of a whole 256-byte buffer,
  and the serial flash wraps to its first byte after its last one. Two buffers
  alternate: the next transfer is armed into the buffer not being processed.
- **CBC-MAC** (`CbcMac`). A running CBC-MAC is folded over the chunks. The
  block cipher (AES under the signing key) is a parameter.
- **Two passes** (`FirmwareUpdate.Bootloader.RunPass`). Pass 0 stores the MAC
  taken at the end of the chunk that closes the firmware window. Pass 1 copies
  the window into the internal flash row by row: from the entry offset to the
  end of every buffer, with spillover into the next row. Then it flushes the
  last partial row, recomputes the MAC at the same chunk and compares.
- **Failure and success.** A mismatch erases every row from the application
  start to the end of the internal flash and halts. Otherwise the upgrade flag
  is cleared and the device resets.

The internal flash `NVM_MEMORY` is an `array<bv8>`. A halfword store is two byte
stores. The three buffers main() declares (two chunk buffers and the row
buffer) are arrays of a `Bootloader` object, and the locals of one pass form a
`Cursor`. The external flash is a byte sequence
per pass: `ext0` while the size prefix is read and during pass 0, `ext1` during
pass 1. Tampering between the passes is a difference between the two.

Results proved about the whole update (`FirmwareUpdate.Bootloader.Update`):

- The device halts exactly when the window closes inside the signed region and
  the MACs the two passes take there differ. It then leaves the application
  region erased and the bootloader untouched.
- An external flash left alone between the passes always ends in a reset.
- When the update succeeds, the rows programmed from the application start
  hold the bytes pass 1 copied, in ascending order, each row once. Where the
  file ends inside the signed region, the internal flash holds
  `ext1[fwAddr .. fwAddr + fwSize)` byte for byte, whatever the window's
  offset inside its first chunk.

Behaviour of the code the model reproduces:
- The copy is not clipped at the end of the window or of the chunk. Every
  buffer is copied to its end (line 333).
- The final flush programs a whole row, stale bytes included (line 390).
- The last row is flushed before the MACs are compared (lines 388-394).
- A settings store that does not initialise halts the device, and three of the
  gate's failures clear the upgrade flag before the jump.
- The comparison covers the signed data only up to the end of the chunk that
  closes the window (`FirmwareUpdate.UncheckedPastWindow`), not the whole
  signed region.
- When the window never closes, because the file's end lies at or past the end
  of the external flash, pass 1 runs to the end without a flush or a
  comparison, and the update still succeeds.

## Model

| member | source | states |
|---|---|---|
| Preflight.Check | source_code/main_mcu/src/bootloader.c:168-225 | each outcome of the check chain, as an if-and-only-if over the platform's answers: unprogrammed fuses or no upgrade flag start the application with the flag kept; a failed settings store halts; no flash, no update file or a bad CRC clear the flag and start the application; only when every check passes is the update file scanned |
| FirmwareUpdate.Bootloader.Run | source_code/main_mcu/src/bootloader.c:168-225 | main(): every path that does not scan leaves the internal flash untouched, with the flag kept or cleared as the gate says and a jump to the application or a halt; a scan never jumps to the old application |
| Preflight.DecodeEncodeLe32 | source_code/main_mcu/src/bootloader.c:216 | the 32-bit size read from four little-endian bytes round-trips: decoding the encoding of any 32-bit value gives it back |
| Preflight.EncodeDecodeLe32 | source_code/main_mcu/src/bootloader.c:216 | the other direction: encoding the size decoded from any four bytes gives those bytes back |
| Preflight.FirmwareSize | source_code/main_mcu/src/bootloader.c:216 | the size prefix read from the start of the update file is a 32-bit value |
| ChunkStream.ChunkLength | source_code/main_mcu/src/bootloader.c:291-296 | a chunk is a whole buffer or the rest of the region, is never empty and never runs past the region's end |
| ChunkStream.TilesCover | source_code/main_mcu/src/bootloader.c:289-296 | the chunks of a scan tile the region: chunk i starts 256 * i bytes in, lies inside the region, has the length of `nb_bytes_to_read`, and the last one ends exactly at the region's end; there are none exactly when the region is empty |
| ChunkStream.TilesAdjacent | source_code/main_mcu/src/bootloader.c:409-410 | each chunk starts where the one before ended, and every chunk but the last is a whole buffer |
| ChunkStream.TileFirst | source_code/main_mcu/src/bootloader.c:276 | a scan of a non-empty region starts at chunk 0 of the tiling, at the region's start |
| ChunkStream.TileStep | source_code/main_mcu/src/bootloader.c:409-410 | advancing the address by `nb_bytes_to_read` moves from chunk k of the tiling to chunk k + 1, or to the region's end after the last chunk |
| ChunkStream.StreamSplit | source_code/main_mcu/src/bootloader.c:301-309 | arming the next transfer continues the same continuous read: m bytes and then n more are the m + n bytes from the same address |
| ChunkStream.ClosingChunk | source_code/main_mcu/src/bootloader.c:319-327 | the chunk of the scan whose span holds a given address (the window start for entry, the horizon for exit) starts on a chunk boundary at or before it and ends past it |
| ChunkStream.ClosingChunkIsFirst | source_code/main_mcu/src/bootloader.c:370-374 | no chunk before the closing chunk reaches past the window's horizon, so the window is left at the first chunk that ends past it |
| ChunkStream.ClosingChunkUnique | source_code/main_mcu/src/bootloader.c:370-374 | the chunk whose span holds the horizon is the closing chunk |
| ChunkStream.ChunkUpToClosing | source_code/main_mcu/src/bootloader.c:370-374 | every chunk the scan reaches at or before the horizon starts no later than the closing chunk |
| CbcMac.FoldAppend | source_code/main_mcu/src/bootloader.c:313 | folding the MAC chunk by chunk equals folding the concatenation, for cuts on block boundaries |
| CbcMac.SingleByteChangeDetected | source_code/main_mcu/src/bootloader.c:394-400 | for an injective block cipher, two inputs that differ in exactly one byte give different CBC-MACs |
| FirmwareUpdate.TamperDetected | source_code/main_mcu/src/bootloader.c:394-400 | changing any one byte of the signed data up to the end of the closing chunk between the passes makes the two window MACs differ |
| FirmwareUpdate.UncheckedPastWindow | source_code/main_mcu/src/bootloader.c:403-405 | bytes past the closing chunk are outside the comparison: when the two snapshots agree up to it, the two window MACs are equal |
| FirmwareUpdate.MacStep | source_code/main_mcu/src/bootloader.c:313 | folding the next chunk into the MAC of the signed data so far gives the MAC of the signed data up to that chunk's end |
| FirmwareUpdate.ClosesAt | source_code/main_mcu/src/bootloader.c:371-382 | the chunk holding the horizon closes the window: the MAC compared is the one up to its end, and pass 1 has copied up to the end of its buffer |
| FirmwareUpdate.CopiedCoversFirmware | source_code/main_mcu/src/bootloader.c:332-333 | when the file ends inside the signed region, the bytes pass 1 copies (whole buffers up to the closing chunk's) include the whole file |
| FirmwareUpdate.FirmwareInCopy | source_code/main_mcu/src/bootloader.c:326-344 | byte i of the file is byte i of what pass 1 pushes into the row assembler |
| FirmwareUpdate.RowAddressesAscend | source_code/main_mcu/src/bootloader.c:353-356 | the rows pass 1 programs start at the application start plus 256 * k, are row-aligned, and strictly ascend, so no row is programmed twice |
| FirmwareUpdate.Bootloader.EraseRow | source_code/main_mcu/src/bootloader.c:106-109 | erasing a row sets its 256 bytes to 0xFF and changes nothing else |
| FirmwareUpdate.Bootloader.ProgramRow | source_code/main_mcu/src/bootloader.c:111-120 | the four pages of 64 bytes, one halfword at a time, leave the row equal to the buffer and the rest of the flash unchanged |
| FirmwareUpdate.Bootloader.StoreRow | source_code/main_mcu/src/bootloader.c:104-121 | the row at the address holds the buffer afterwards, nothing outside it changes, and the address is recorded as the next programmed row |
| FirmwareUpdate.Bootloader.Brick | source_code/main_mcu/src/bootloader.c:83-97 | every byte from the application start to the end of the flash is erased; the bootloader below the application start is unchanged |
| FirmwareUpdate.Bootloader.PushBytes | source_code/main_mcu/src/bootloader.c:344-347 | the memcpy appends the bytes to those in the row buffer and keeps the row assembler's invariant |
| FirmwareUpdate.Bootloader.CommitRow | source_code/main_mcu/src/bootloader.c:350-360 | a full row buffer is programmed at the next row, the counter returns to zero and the address moves one row on, keeping the invariant that the programmed rows and the row buffer together hold every byte pushed so far |
| FirmwareUpdate.Bootloader.AssembleChunk | source_code/main_mcu/src/bootloader.c:330-367 | the buffer from the entry offset to its end is appended to the copy; a row is programmed exactly when the buffer fills it (offset at most the fill level), the spillover starts the next row, and the fill level stays below a row |
| FirmwareUpdate.Bootloader.CompleteTransfer | source_code/main_mcu/src/bootloader.c:298-299 | after the wait, the buffer holds the whole-buffer continuous read from its address, wrapping at the end of the chip |
| FirmwareUpdate.Bootloader.MacChunk | source_code/main_mcu/src/bootloader.c:311-314 | the running MAC of the signed data so far becomes that of the signed data up to the end of the chunk |
| FirmwareUpdate.Bootloader.Receive | source_code/main_mcu/src/bootloader.c:291-327 | the start of an iteration: chunk length, the received buffer's contents, the new MAC, and entry into the window exactly at the first chunk ending past the window start, with offset `fw_file_address - current_data_flash_addr`; that entry chunk is `ChunkStream.ClosingChunk` of the window start |
| FirmwareUpdate.Bootloader.ScannedStep | source_code/main_mcu/src/bootloader.c:409-422 | the end of an iteration: the address advances by the chunk length, the two buffers swap roles and stay distinct, and the MAC and window flags match the scanned prefix |
| FirmwareUpdate.Bootloader.WindowFlags | source_code/main_mcu/src/bootloader.c:370-374 | the valid and passed flags are never both set, and once the window is passed it is never entered again |
| FirmwareUpdate.Bootloader.VerifyChunk | source_code/main_mcu/src/bootloader.c:370-382 | pass 0's exit check: the MAC is stored as the reference exactly when the window closes in this chunk, and it is the MAC up to the closing chunk's end; the address then advances by the chunk length, the next transfer's address by one buffer, and the two buffers swap roles |
| FirmwareUpdate.Bootloader.CopyWindow | source_code/main_mcu/src/bootloader.c:329-368 | pass 1 sends a chunk through the row assembler exactly when it holds window bytes, extending the copy to the end of its buffer; the copy so far fits in the internal flash from the application start |
| FirmwareUpdate.Bootloader.CopyChunk | source_code/main_mcu/src/bootloader.c:343-367 | the row assembler's copy stays the continuous read of the external flash from the window start |
| FirmwareUpdate.Bootloader.CloseWindow | source_code/main_mcu/src/bootloader.c:385-401 | the partial row is programmed first; then the device is bricked exactly when the two MACs differ (application region erased), and otherwise every copied byte is in the internal flash |
| FirmwareUpdate.Bootloader.FinishWindow | source_code/main_mcu/src/bootloader.c:384-406 | pass 1 leaving the window: it ends without bricking exactly when pass 0's MAC equals the window MAC, having programmed the whole copy |
| FirmwareUpdate.Bootloader.CopyClosingChunk | source_code/main_mcu/src/bootloader.c:329-406 | pass 1 at the chunk that closes the window: the copy is extended to the end of its buffer, then the pass ends without bricking exactly when pass 0's MAC equals the window MAC, with the whole copy programmed |
| FirmwareUpdate.Bootloader.CommitChunk | source_code/main_mcu/src/bootloader.c:329-422 | one pass-1 iteration either moves on with the scan invariant kept (address advanced by the chunk length, buffers swapped), or closes the window and leaves the loop with the next transfer in flight into the other buffer and the outcome of the MAC comparison |
| FirmwareUpdate.Bootloader.ScanChunk | source_code/main_mcu/src/bootloader.c:289-423 | one iteration of the scan loop, for either pass: unless pass 1 closes the window there, the address advances by `nb_bytes_to_read` and the two buffers swap roles with the scan invariant kept |
| FirmwareUpdate.Bootloader.ScanLoop | source_code/main_mcu/src/bootloader.c:288-423 | the `while` loop of one pass: it runs to the end of the region after exactly one iteration per chunk of the tiling (`ChunkStream.Tiles`), unless pass 1 leaves it where the window closes, with the outcome of the MAC comparison |
| FirmwareUpdate.Bootloader.RunPass | source_code/main_mcu/src/bootloader.c:256-428 | pass 0 runs to the end, leaves the internal flash alone and keeps the window MAC; a pass that runs to the end takes one iteration per chunk of the tiling; pass 1 runs to the end exactly when the window never closes, and otherwise bricks exactly when the reference differs from its window MAC; what it programmed is the continuous read from the window start, in whole rows |
| FirmwareUpdate.Bootloader.Reconstructed | source_code/main_mcu/src/bootloader.c:343-366 | when every copied byte was programmed and the file ends inside the signed region, the internal flash from the application start holds the firmware file byte for byte |
| FirmwareUpdate.Bootloader.TwoPasses | source_code/main_mcu/src/bootloader.c:255-428 | the two passes: bricked exactly when the window closes and the MACs of the two snapshots differ there, with the application region erased; otherwise the rows programmed hold pass 1's copy |
| FirmwareUpdate.Bootloader.Update | source_code/main_mcu/src/bootloader.c:215-443 | the whole update: halt exactly on a MAC mismatch at the window close, with the application erased and the flag kept; an unaltered external flash always resets; otherwise the flag is cleared, the device resets, and the firmware file is in the internal flash |

## Left out

- AES: the block cipher is a parameter `cipher` of the bootloader. The all-zero keys, the key fetch and the encryption context are not modelled.
- DMA and SPI timing: a transfer completes atomically at the wait (`CompleteTransfer`). The arming calls and the final stop of the continuous read carry no state of their own.
- NVMCTRL: the ready-flag busy-waits and the MANW and CACHEDIS bits are not modelled. Each row erase and halfword store is atomic.
- `start_application` is the terminal outcome `JumpToApplication`. `platform_io_disable_switch_and_die` is `Halt`, and `NVIC_SystemReset` is `SystemReset`.
- The OLED display, clocks, platform_io power control and delays have no effect on the update and are not modelled.
- The custom_fs file table, CRC32, settings store and flash presence check are inputs (`Platform`). Where the external flash matters, it is an input byte sequence.
- The constant-time property of `utils_side_channel_safe_memcmp` is not modelled. Only its equality result is.
- The bootloader does not check that the firmware lies inside the signed region or that what pass 1 copies fits in the internal flash. The model requires both. `Placed` puts the firmware in the signed region. `Fits` asks for room from the application start for every byte pass 1 pushes into the row assembler, which is whole buffers up to the end of the buffer holding the closing chunk (the last chunk when the window stays open). Since the application region is a whole number of rows, this also covers the last partial row's flush.
- The MAC buffer `cbc_mac_to_end_of_mcu_fpass` is uninitialised in the code. The model starts it at zero, and it is only read where pass 0 wrote it.
- FirmwareUpdate.Bootloader.Run: for the scan path it states only that the device never jumps to the old application. The rest of the scan's outcome is the contract of `Update`, which `Run` calls.
- Idempotence of the whole image over two updates is not stated. The last row's bytes past the file are stale row-buffer contents, which depend on what the buffer held before. What is stated is that the file's own bytes are the same after every successful update.
- source_code/main_mcu/src/EMU/asf.h is not part of this model, apart from the row size of 256 bytes. source_code/aux_mcu/src/USB/udc.c is not part of this model either.
