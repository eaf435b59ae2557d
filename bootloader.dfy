/**
  The firmware-update engine of the main MCU bootloader: two passes over the
  signed region of the external serial flash, the first computing a CBC-MAC up
  to the end of the firmware file, the second recomputing it while copying the
  firmware file into the internal flash row by row, then comparing the two.
  A mismatch erases the whole application region and halts the device.
*/
module FirmwareUpdate {
  import opened CbcMac
  import opened ChunkStream
  import opened Preflight

  /** NVMCTRL_ROW_SIZE: the erase unit of the internal flash, four pages. */
  const ROW_SIZE: nat := 256
  const PAGE_SIZE: nat := 64
  const PAGES_PER_ROW: nat := 4
  /** Value of an erased internal flash byte. */
  const ERASED: bv8 := 0xFF

  /** End of the firmware file as the bootloader computes it, in 32-bit
      arithmetic: both operands are 32-bit values, so the sum wraps at most
      once. */
  function FwEnd(fwAddr: nat, fwSize: nat): nat
  {
    if fwAddr + fwSize < UINT32_LIMIT then fwAddr + fwSize else fwAddr + fwSize - UINT32_LIMIT
  }

  /** A chunk closes the firmware window when its end exceeds both the window's
      first byte and its end; this is the larger of the two. */
  function Horizon(fwAddr: nat, fwSize: nat): (h: nat)
    ensures fwAddr <= h && FwEnd(fwAddr, fwSize) <= h
    ensures h == fwAddr || h == FwEnd(fwAddr, fwSize)
  {
    if fwAddr < FwEnd(fwAddr, fwSize) then FwEnd(fwAddr, fwSize) else fwAddr
  }

  /** The last byte the pass-1 assembler must reach: the window's horizon when
      the window closes inside the scanned region, the region's last byte when
      it does not. */
  function CopyHorizon(fwAddr: nat, fwSize: nat, extSize: nat): (h: nat)
    requires fwAddr < extSize
    ensures fwAddr <= h < extSize
    ensures Horizon(fwAddr, fwSize) < extSize ==> h == Horizon(fwAddr, fwSize)
  {
    if Horizon(fwAddr, fwSize) < extSize then Horizon(fwAddr, fwSize) else extSize - 1
  }

  /** When the window closes inside the scanned region and the 32-bit end does
      not wrap, the bytes pass 1 copies (from the window start to the end of the
      chunk it was copying when the window closed) include the whole file. */
  lemma CopiedCoversFirmware(start: nat, extSize: nat, fwAddr: nat, fwSize: nat)
    requires start <= fwAddr && fwAddr + fwSize < extSize <= UINT32_LIMIT
    ensures Horizon(fwAddr, fwSize) < extSize
    ensures var c := ClosingChunk(start, Horizon(fwAddr, fwSize), extSize);
      c + ROW_SIZE - fwAddr > fwSize && c <= fwAddr + fwSize
  {
    assert FwEnd(fwAddr, fwSize) == fwAddr + fwSize;
  }

  /** Whether the firmware window closes inside the scanned region, that is,
      whether some chunk ends past both the window's first byte and its end. */
  predicate Closes(fwAddr: nat, fwSize: nat, extSize: nat)
  {
    Horizon(fwAddr, fwSize) < extSize
  }

  /** A multiple of the chunk size is a whole number of MAC blocks. */
  lemma ChunkIsBlocks(d: nat)
    requires d % ROW_SIZE == 0
    ensures d % BLOCK_SIZE == 0
  {
    assert d == BLOCK_SIZE * (16 * (d / ROW_SIZE));
  }

  /** The length of a chunk of a region of whole blocks is itself whole blocks. */
  lemma ChunkLengthIsBlocks(start: nat, addr: nat, end: nat)
    requires start <= addr < end && (end - start) % BLOCK_SIZE == 0 && (addr - start) % BLOCK_SIZE == 0
    ensures ChunkLength(addr, end) % BLOCK_SIZE == 0
    ensures (addr + ChunkLength(addr, end) - start) % BLOCK_SIZE == 0
  {
    assert end - addr == (end - start) - (addr - start);
  }

  /** End of the chunk that closes the firmware window: the first pass stores
      the MAC of the signed data up to here, the second recomputes it. */
  function CloseEnd(start: nat, extSize: nat, fwAddr: nat, fwSize: nat): (e: nat)
    requires start <= fwAddr && Closes(fwAddr, fwSize, extSize)
    requires (extSize - start) % BLOCK_SIZE == 0
    ensures Horizon(fwAddr, fwSize) < e <= extSize && e <= Horizon(fwAddr, fwSize) + ROW_SIZE
    ensures (e - start) % BLOCK_SIZE == 0
  {
    ClosedChunkIsBlocks(start, extSize, ClosingChunk(start, Horizon(fwAddr, fwSize), extSize));
    ClosingChunk(start, Horizon(fwAddr, fwSize), extSize)
      + ChunkLength(ClosingChunk(start, Horizon(fwAddr, fwSize), extSize), extSize)
  }

  /** A chunk of a region of whole blocks, starting a whole number of chunks
      in, ends a whole number of blocks in. */
  lemma ClosedChunkIsBlocks(start: nat, extSize: nat, c: nat)
    requires start <= c < extSize && (c - start) % ROW_SIZE == 0 && (extSize - start) % BLOCK_SIZE == 0
    ensures (c + ChunkLength(c, extSize) - start) % BLOCK_SIZE == 0
  {
    ChunkIsBlocks(c - start);
    ChunkLengthIsBlocks(start, c, extSize);
  }

  /** The CBC-MAC both passes take at the close of the firmware window: that of
      the signed data from its start to the end of the closing chunk. */
  function WindowMac(cipher: Block -> Block, ext: seq<bv8>, start: nat, fwAddr: nat, fwSize: nat): Block
    requires start <= fwAddr && Closes(fwAddr, fwSize, |ext|) && (|ext| - start) % BLOCK_SIZE == 0
  {
    Fold(cipher, ZERO, ext[start..CloseEnd(start, |ext|, fwAddr, fwSize)])
  }

  /** Number of bytes the second pass pushes into the row assembler: every
      buffer from the window's first byte up to the end of the last buffer it
      copies (the closing chunk's, or the last chunk's when the window stays
      open). Whole buffers are copied even where the region ends mid-buffer. */
  function CopiedLength(start: nat, extSize: nat, fwAddr: nat, fwSize: nat): (n: nat)
    requires start <= fwAddr < extSize
    ensures CopyHorizon(fwAddr, fwSize, extSize) - fwAddr < n <= CopyHorizon(fwAddr, fwSize, extSize) - fwAddr + ROW_SIZE
  {
    ClosingChunk(start, CopyHorizon(fwAddr, fwSize, extSize), extSize) + ROW_SIZE - fwAddr
  }

  /** The internal flash has room, from the application start, for every byte
      the second pass pushes into the row assembler; as the application region
      is a whole number of rows, the last partial row then fits too. The
      bootloader does not check this itself. */
  predicate Fits(start: nat, appStart: nat, flashSize: nat, fwAddr: nat, fwSize: nat, extSize: nat)
    requires start <= fwAddr < extSize
  {
    appStart + CopiedLength(start, extSize, fwAddr, fwSize) <= flashSize
  }

  /** Below the end of a row-aligned region, a row-aligned address leaves room
      for a whole row. */
  lemma RowRoom(base: nat, w: nat, f: nat)
    requires base <= w < f && base % ROW_SIZE == 0 && (w - base) % ROW_SIZE == 0 && f % ROW_SIZE == 0
    ensures w + ROW_SIZE <= f
  {
    var a, b, c := (w - base) / ROW_SIZE, base / ROW_SIZE, f / ROW_SIZE;
    assert w - base == ROW_SIZE * a && base == ROW_SIZE * b && f == ROW_SIZE * c;
    assert w == ROW_SIZE * (a + b);
    assert a + b < c;
  }

  /** The chunk at `addr` is the one that closes the firmware window: the MAC
      both passes compare ends with it, and pass 1 copies up to its end. */
  lemma ClosesAt(cipher: Block -> Block, ext: seq<bv8>, start: nat, extSize: nat, fwAddr: nat, fwSize: nat, addr: nat)
    requires |ext| == extSize && start <= fwAddr < extSize && (extSize - start) % BLOCK_SIZE == 0
    requires start <= addr < extSize && (addr - start) % ROW_SIZE == 0
    requires addr <= Horizon(fwAddr, fwSize) < addr + ChunkLength(addr, extSize)
    ensures Closes(fwAddr, fwSize, extSize)
    ensures CloseEnd(start, extSize, fwAddr, fwSize) == addr + ChunkLength(addr, extSize)
    ensures CopiedLength(start, extSize, fwAddr, fwSize) == addr + ROW_SIZE - fwAddr
    ensures WindowMac(cipher, ext, start, fwAddr, fwSize) == Fold(cipher, ZERO, ext[start..addr + ChunkLength(addr, extSize)])
  {
    ClosingChunkUnique(start, Horizon(fwAddr, fwSize), extSize, addr);
  }

  /** The last chunk of a region where the window stays open is the last one
      pass 1 copies. */
  lemma EndsOpenAt(start: nat, extSize: nat, fwAddr: nat, fwSize: nat, addr: nat)
    requires start <= fwAddr < extSize && !Closes(fwAddr, fwSize, extSize)
    requires start <= addr < extSize && (addr - start) % ROW_SIZE == 0
    requires addr + ChunkLength(addr, extSize) == extSize
    ensures CopiedLength(start, extSize, fwAddr, fwSize) == addr + ROW_SIZE - fwAddr
  {
    ClosingChunkUnique(start, extSize - 1, extSize, addr);
  }

  /** The bytes of one MAC step are a plain slice of the external flash, and
      folding them continues the MAC of the signed data so far. */
  lemma MacStep(cipher: Block -> Block, ext: seq<bv8>, start: nat, addr: nat, n: nat)
    requires start <= addr && addr + n <= |ext|
    requires (addr - start) % BLOCK_SIZE == 0 && n % BLOCK_SIZE == 0
    ensures Fold(cipher, ZERO, ext[start..addr + n]) == Fold(cipher, Fold(cipher, ZERO, ext[start..addr]), ext[addr..addr + n])
  {
    assert ext[start..addr] + ext[addr..addr + n] == ext[start..addr + n];
    FoldAppend(cipher, ZERO, ext[start..addr], ext[addr..addr + n]);
  }

  /** Where the window closes and the 32-bit end does not wrap, byte `i` of the
      firmware file is byte `i` of what pass 1 pushes into the row assembler. */
  lemma FirmwareInCopy(ext: seq<bv8>, start: nat, fwAddr: nat, fwSize: nat, i: nat)
    requires start <= fwAddr && fwAddr + fwSize < |ext| <= UINT32_LIMIT && i < fwSize
    ensures Closes(fwAddr, fwSize, |ext|)
    ensures i < CopiedLength(start, |ext|, fwAddr, fwSize)
    ensures Stream(ext, fwAddr, CopiedLength(start, |ext|, fwAddr, fwSize))[i] == ext[fwAddr + i]
  {
    CopiedCoversFirmware(start, |ext|, fwAddr, fwSize);
    ModOfSmall(fwAddr + i, |ext|);
  }

  /** A whole number of rows no longer than `len` and less than a row short of
      it is `len` rounded down to whole rows. */
  lemma WholeRows(written: nat, len: nat)
    requires written % ROW_SIZE == 0 && written <= len < written + ROW_SIZE
    ensures written == len - len % ROW_SIZE
  {
    var q := written / ROW_SIZE;
    assert len == ROW_SIZE * q + (len - written);
  }

  /** Start addresses of `k` consecutive rows from `base`, in the order the
      second pass programs them. */
  function RowAddresses(base: nat, k: nat): seq<nat>
  {
    if k == 0 then [] else RowAddresses(base, k - 1) + [base + ROW_SIZE * (k - 1)]
  }

  /** The programmed rows: the k-th is k rows past the first, each starts on
      a row boundary when the first does, and they strictly ascend, so no
      row is programmed twice. */
  lemma {:induction false} RowAddressesAscend(base: nat, k: nat)
    ensures |RowAddresses(base, k)| == k
    ensures forall i :: 0 <= i < k ==> RowAddresses(base, k)[i] == base + ROW_SIZE * i
    ensures base % ROW_SIZE == 0 ==> forall i :: 0 <= i < k ==> RowAddresses(base, k)[i] % ROW_SIZE == 0
    ensures forall i, j :: 0 <= i < j < k ==> RowAddresses(base, k)[i] < RowAddresses(base, k)[j]
  {
    if k > 0 {
      RowAddressesAscend(base, k - 1);
    }
  }

  /** The firmware's first byte: just past the size prefix at the start of
      the update file (fw_file_address += sizeof(fw_file_size)). */
  function FirmwareStart(fileAddr: nat): nat
  {
    fileAddr + SIZE_FIELD_BYTES
  }

  /** Changing any one byte of the signed data the two passes authenticate
      (from its start to the end of the chunk that closes the window) changes
      the MAC taken there, for an injective block cipher: the second pass
      then sees a mismatch. */
  lemma TamperDetected(cipher: Block -> Block, ext0: seq<bv8>, ext1: seq<bv8>, start: nat, fwAddr: nat, fwSize: nat, p: nat)
    requires Injective(cipher) && |ext0| == |ext1|
    requires start <= fwAddr && Closes(fwAddr, fwSize, |ext0|) && (|ext0| - start) % BLOCK_SIZE == 0
    requires start <= p < CloseEnd(start, |ext0|, fwAddr, fwSize) && ext0[p] != ext1[p]
    requires forall i :: 0 <= i < |ext0| && i != p ==> ext0[i] == ext1[i]
    ensures WindowMac(cipher, ext0, start, fwAddr, fwSize) != WindowMac(cipher, ext1, start, fwAddr, fwSize)
  {
    var e := CloseEnd(start, |ext0|, fwAddr, fwSize);
    var a, b := ext0[start..e], ext1[start..e];
    forall i | 0 <= i < |a| && i != p - start
      ensures a[i] == b[i]
    {
      assert a[i] == ext0[start + i] && b[i] == ext1[start + i];
    }
    SingleByteChangeDetected(cipher, ZERO, a, b, p - start);
  }

  /** The comparison covers the signed data only up to the end of the chunk
      that closes the window: bytes past it may differ between the passes and
      the two MACs still agree. */
  lemma UncheckedPastWindow(cipher: Block -> Block, ext0: seq<bv8>, ext1: seq<bv8>, start: nat, fwAddr: nat, fwSize: nat)
    requires |ext0| == |ext1| && start <= fwAddr && Closes(fwAddr, fwSize, |ext0|) && (|ext0| - start) % BLOCK_SIZE == 0
    requires forall i :: start <= i < CloseEnd(start, |ext0|, fwAddr, fwSize) ==> ext0[i] == ext1[i]
    ensures WindowMac(cipher, ext0, start, fwAddr, fwSize) == WindowMac(cipher, ext1, start, fwAddr, fwSize)
  {
    var e := CloseEnd(start, |ext0|, fwAddr, fwSize);
    assert ext0[start..e] == ext1[start..e];
  }

  datatype Exit = JumpToApplication | Halt | SystemReset

  /** How a pass over the bundle ended. */
  datatype PassEnd =
    | RanToEnd       // the scan reached the end of the external flash
    | WindowClosed   // pass 1 closed the window and the two MACs agreed
    | Bricked        // pass 1 closed the window, the MACs disagreed, the application region was erased

  /** The locals of one pass of the update loop. */
  datatype Cursor = Cursor(
    addr: nat,                // current_data_flash_addr: the chunk to process next
    dmaAddr: nat,             // where the transfer in flight reads from
    available: array<bv8>,    // available_data_buffer
    received: array<bv8>,     // received_data_buffer: the buffer the transfer in flight fills
    mac: Block,               // cur_cbc_mac
    valid: bool,              // address_valid_for_fw_data
    passed: bool,             // address_passed_for_fw_data
    fill: nat,                // nb_fw_bytes_in_row_buffer
    writeAddr: nat,           // address_in_mcu_memory
    refMac: Block)            // cbc_mac_to_end_of_mcu_fpass: the MAC pass 0 stores

  /** The state main() keeps across the whole update: the internal flash, the
      persistent upgrade flag and the three buffers main() declares as locals.
      Everything a pass keeps for itself is local to RunPass. */
  class Bootloader {
    // Constants of the build; their headers are not part of this model.
    const signedStart: nat          // start of the signed data in the external flash
    const extSize: nat              // W25Q16_FLASH_SIZE
    const appStart: nat             // APP_START_ADDR
    const flashSize: nat            // FLASH_SIZE
    const cipher: Block -> Block    // AES under the signing key

    /** NVM_MEMORY, the internal flash, byte by byte. */
    const nvm: array<bv8>
    /** The start addresses of the rows programmed since the update began, in
        the order they were programmed; a record for the proof only. */
    ghost var commits: seq<nat>
    /** The persistent firmware-upgrade flag in the settings store. */
    var upgradeFlag: bool

    const b1: array<bv8>            // bundle_data_b1
    const b2: array<bv8>            // bundle_data_b2
    const row: array<bv8>           // row_to_be_flashed

    ghost predicate Valid()
    {
      && b1.Length == ROW_SIZE && b2.Length == ROW_SIZE && row.Length == ROW_SIZE
      && nvm.Length == flashSize
      && b1 != b2 && row != b1 && row != b2
      && nvm != b1 && nvm != b2 && nvm != row
      && signedStart < extSize <= UINT32_LIMIT && (extSize - signedStart) % BLOCK_SIZE == 0
      && appStart % ROW_SIZE == 0 && flashSize % ROW_SIZE == 0 && appStart <= flashSize
    }

    constructor (signedStart: nat, extSize: nat, appStart: nat, flashSize: nat,
                 cipher: Block -> Block, nvm: array<bv8>, upgradeFlag: bool)
      requires signedStart < extSize <= UINT32_LIMIT && (extSize - signedStart) % BLOCK_SIZE == 0
      requires appStart % ROW_SIZE == 0 && flashSize % ROW_SIZE == 0 && appStart <= flashSize
      requires nvm.Length == flashSize
      ensures Valid()
      ensures this.signedStart == signedStart && this.extSize == extSize && this.cipher == cipher
      ensures this.appStart == appStart && this.flashSize == flashSize
      ensures this.nvm == nvm && this.upgradeFlag == upgradeFlag
      ensures fresh(b1) && fresh(b2) && fresh(row) && commits == []
    {
      commits := [];
      this.signedStart, this.extSize, this.appStart, this.flashSize := signedStart, extSize, appStart, flashSize;
      this.cipher, this.nvm, this.upgradeFlag := cipher, nvm, upgradeFlag;
      b1 := new bv8[ROW_SIZE];
      b2 := new bv8[ROW_SIZE];
      row := new bv8[ROW_SIZE];
    }

    // ---------------------------------------------------------------------
    // Flash committer and fail-secure erase

    /** Erases the internal flash row that starts at `address`. */
    method EraseRow(address: nat)
      requires Valid() && address % ROW_SIZE == 0 && address + ROW_SIZE <= flashSize
      modifies nvm
      ensures forall x :: address <= x < address + ROW_SIZE ==> nvm[x] == ERASED
      ensures forall x :: 0 <= x < nvm.Length && !(address <= x < address + ROW_SIZE) ==> nvm[x] == old(nvm[x])
    {
      forall x | address <= x < address + ROW_SIZE {
        nvm[x] := ERASED;
      }
    }

    /** store_row_buffer_into_main_memory: erases the row at `address`, then
        programs it from `buf`. */
    method StoreRow(address: nat, buf: array<bv8>)
      requires Valid() && buf.Length == ROW_SIZE && buf != nvm
      requires address % ROW_SIZE == 0 && address + ROW_SIZE <= flashSize
      modifies nvm, this`commits
      ensures commits == old(commits) + [address]
      ensures forall x :: 0 <= x < ROW_SIZE ==> nvm[address + x] == buf[x]
      ensures forall x :: 0 <= x < nvm.Length && !(address <= x < address + ROW_SIZE) ==> nvm[x] == old(nvm[x])
    {
      EraseRow(address);
      ProgramRow(address, buf);
      commits := commits + [address];
    }

    /** The programming half of store_row_buffer_into_main_memory: the row's
        four pages, one halfword of `buf` at a time. */
    method ProgramRow(address: nat, buf: array<bv8>)
      requires Valid() && buf.Length == ROW_SIZE && buf != nvm
      requires address % ROW_SIZE == 0 && address + ROW_SIZE <= flashSize
      modifies nvm
      ensures forall x :: 0 <= x < ROW_SIZE ==> nvm[address + x] == buf[x]
      ensures forall x :: 0 <= x < nvm.Length && !(address <= x < address + ROW_SIZE) ==> nvm[x] == old(nvm[x])
    {
      var j := 0;
      while j < PAGES_PER_ROW
        invariant 0 <= j <= PAGES_PER_ROW
        invariant forall x :: 0 <= x < PAGE_SIZE * j ==> nvm[address + x] == buf[x]
        invariant forall x :: 0 <= x < nvm.Length && !(address <= x < address + ROW_SIZE) ==> nvm[x] == old(nvm[x])
      {
        var i := 0;
        while i < PAGE_SIZE
          invariant 0 <= i <= PAGE_SIZE && i % 2 == 0
          invariant forall x :: 0 <= x < PAGE_SIZE * j + i ==> nvm[address + x] == buf[x]
          invariant forall x :: 0 <= x < nvm.Length && !(address <= x < address + ROW_SIZE) ==> nvm[x] == old(nvm[x])
        {
          var dst := (address + j * PAGE_SIZE + i) / 2;   // halfword index into NVM_MEMORY
          var src := (j * PAGE_SIZE + i) / 2;             // halfword index into the row buffer
          assert 2 * dst == address + PAGE_SIZE * j + i && 2 * src == PAGE_SIZE * j + i;
          nvm[2 * dst] := buf[2 * src];
          nvm[2 * dst + 1] := buf[2 * src + 1];
          i := i + 2;
        }
        j := j + 1;
      }
    }

    /** brick_main_mcu: erases every row from the application start to the end
        of the internal flash; the bootloader below it is left alone. */
    method Brick()
      requires Valid()
      modifies nvm
      ensures forall x :: appStart <= x < flashSize ==> nvm[x] == ERASED
      ensures forall x :: 0 <= x < appStart ==> nvm[x] == old(nvm[x])
    {
      var a := appStart;
      while a < flashSize
        invariant appStart <= a <= flashSize && a % ROW_SIZE == 0
        invariant forall x :: appStart <= x < a ==> nvm[x] == ERASED
        invariant forall x :: 0 <= x < appStart ==> nvm[x] == old(nvm[x])
        decreases flashSize - a
      {
        EraseRow(a);
        a := a + ROW_SIZE;
      }
    }

    // ---------------------------------------------------------------------
    // Row assembler

    /** The internal flash, which held `nvm0`, now holds the first `written`
        bytes from the application start programmed with `copied` (as far as
        it goes) and is unchanged everywhere else. */
    ghost predicate Programmed(written: nat, copied: seq<bv8>, nvm0: seq<bv8>)
      reads this`commits, nvm
    {
      && Valid() && |nvm0| == flashSize
      && written % ROW_SIZE == 0 && appStart + written <= flashSize
      && commits == RowAddresses(appStart, written / ROW_SIZE)
      && (forall x :: 0 <= x < written && x < |copied| ==> nvm[appStart + x] == copied[x])
      && (forall x :: 0 <= x < flashSize && !(appStart <= x < appStart + written) ==> nvm[x] == nvm0[x])
    }

    /** The internal flash holds `data` from the application start on. */
    ghost predicate Holds(data: seq<bv8>)
      reads nvm
    {
      && appStart + |data| <= nvm.Length
      && forall i :: 0 <= i < |data| ==> nvm[appStart + i] == data[i]
    }

    /** The internal flash, which held `nvm0`, has its application region
        erased and the bootloader below it unchanged. */
    ghost predicate Erased(nvm0: seq<bv8>)
      reads nvm
    {
      && Valid() && |nvm0| == flashSize
      && (forall x :: appStart <= x < flashSize ==> nvm[x] == ERASED)
      && (forall x :: 0 <= x < appStart ==> nvm[x] == nvm0[x])
    }

    /** The row assembler with `fill` bytes in the row buffer and the next row
        to program at `writeAddr`: of the bytes pushed into it so far
        (`copied`), the rows programmed from the application start hold the
        first ones and the row buffer the rest; the internal flash, which held
        `nvm0`, is unchanged outside those rows. */
    ghost predicate Assembled(fill: nat, writeAddr: nat, copied: seq<bv8>, nvm0: seq<bv8>)
      reads this`commits, nvm, row
    {
      && Valid()
      && fill <= ROW_SIZE
      && appStart <= writeAddr && |copied| == writeAddr - appStart + fill
      && Programmed(writeAddr - appStart, copied, nvm0)
      && (forall x :: 0 <= x < fill ==> row[x] == copied[writeAddr - appStart + x])
    }

    /** A memcpy into the row buffer: `count` bytes of `src` from `from` on go
        behind the `fill` bytes already there. */
    method PushBytes(src: array<bv8>, from: nat, count: nat, fill: nat, writeAddr: nat,
                     ghost copied: seq<bv8>, ghost nvm0: seq<bv8>)
      returns (fill': nat, ghost copied': seq<bv8>)
      requires Assembled(fill, writeAddr, copied, nvm0) && src != row && src.Length == ROW_SIZE
      requires fill + count <= ROW_SIZE && from + count <= ROW_SIZE
      modifies row
      ensures Assembled(fill', writeAddr, copied', nvm0)
      ensures fill' == fill + count && copied' == copied + src[from..from + count]
    {
      forall i | 0 <= i < count {
        row[fill + i] := src[from + i];
      }
      fill' := fill + count;
      copied' := copied + src[from..from + count];
      assert forall x :: 0 <= x < fill' ==> row[x] == copied'[writeAddr - appStart + x];
    }

    /** Programs the full row buffer into the row at `writeAddr` and moves on
        to the next row. */
    method CommitRow(writeAddr: nat, ghost copied: seq<bv8>, ghost nvm0: seq<bv8>) returns (writeAddr': nat)
      requires Assembled(ROW_SIZE, writeAddr, copied, nvm0) && writeAddr + ROW_SIZE <= flashSize
      modifies nvm, this`commits
      ensures Assembled(0, writeAddr', copied, nvm0) && writeAddr' == writeAddr + ROW_SIZE
    {
      ghost var base := writeAddr - appStart;
      StoreRow(writeAddr, row);
      writeAddr' := writeAddr + ROW_SIZE;
      forall x | 0 <= x < writeAddr' - appStart
        ensures nvm[appStart + x] == copied[x]
      {
        if x >= base {
          assert nvm[appStart + x] == row[x - base];
        }
      }
    }

    /** One chunk of the firmware window into the row buffer: the bytes of
        `buf` from `offset` to its end are appended; a row is programmed
        exactly when the row buffer fills, and what did not fit starts the
        next row. */
    method AssembleChunk(buf: array<bv8>, offset: nat, fill: nat, writeAddr: nat,
                         ghost copied: seq<bv8>, ghost nvm0: seq<bv8>)
      returns (fill': nat, writeAddr': nat, ghost copied': seq<bv8>)
      requires Assembled(fill, writeAddr, copied, nvm0) && fill < ROW_SIZE
      requires buf.Length == ROW_SIZE && buf != row && buf != nvm && offset < ROW_SIZE
      requires writeAddr + ROW_SIZE <= flashSize
      modifies row, nvm, this`commits
      ensures Assembled(fill', writeAddr', copied', nvm0) && fill' < ROW_SIZE
      ensures copied' == copied + buf[offset..]
      ensures writeAddr' == if offset <= fill then writeAddr + ROW_SIZE else writeAddr
    {
      var toCopy := ROW_SIZE - offset;                  // nb_valid_fw_bytes_to_copy
      var over := 0;                                    // nb_bytes_over
      if toCopy + fill > ROW_SIZE {
        over := toCopy + fill - ROW_SIZE;
        toCopy := toCopy - over;
      }
      fill', copied' := PushBytes(buf, offset, toCopy, fill, writeAddr, copied, nvm0);
      writeAddr' := writeAddr;
      if fill' == ROW_SIZE {
        writeAddr' := CommitRow(writeAddr, copied', nvm0);
        fill' := 0;
      }
      if over != 0 {
        fill', copied' := PushBytes(buf, offset + toCopy, over, fill', writeAddr', copied', nvm0);
      }
      assert buf[offset..] == buf[offset..offset + toCopy] + buf[offset + toCopy..offset + toCopy + over];
    }

    // ---------------------------------------------------------------------
    // One pass over the signed region

    /** Waits for the transfer into `target`: it now holds the whole-buffer
        read of the external flash from `from`. */
    method CompleteTransfer(ext: seq<bv8>, target: array<bv8>, from: nat)
      requires Valid() && |ext| == extSize && (target == b1 || target == b2)
      modifies target
      ensures target[..] == Stream(ext, from, ROW_SIZE)
    {
      forall i | 0 <= i < ROW_SIZE {
        target[i] := ext[(from + i) % extSize];
      }
    }

    /** br_aes_ct_ctrcbc_mac over the `n` bytes of the chunk at `addr`, which
        `buf` holds: the running MAC of the signed data so far becomes that of
        the signed data up to the end of the chunk. */
    method MacChunk(ext: seq<bv8>, buf: array<bv8>, addr: nat, n: nat, mac: Block) returns (mac': Block)
      requires Valid() && |ext| == extSize && buf.Length == ROW_SIZE && buf[..] == Stream(ext, addr, ROW_SIZE)
      requires signedStart <= addr < extSize && (addr - signedStart) % ROW_SIZE == 0
      requires n == ChunkLength(addr, extSize)
      requires mac == Fold(cipher, ZERO, ext[signedStart..addr])
      ensures (addr + n - signedStart) % BLOCK_SIZE == 0
      ensures mac' == Fold(cipher, ZERO, ext[signedStart..addr + n])
    {
      ChunkIsBlocks(addr - signedStart);
      ChunkLengthIsBlocks(signedStart, addr, extSize);
      ChunkBytes(ext, addr, n, buf[..]);
      var data := buf[..n];
      assert data == buf[..][..n];
      MacStep(cipher, ext, signedStart, addr, n);
      mac' := Fold(cipher, mac, data);
    }

    /** The close of the window in pass 1: the partial row left in the row
        buffer is programmed (with whatever the rest of the buffer still
        holds), then the MAC of this pass is compared with the one pass 0
        stored, and a mismatch erases the application region. `written` is
        the number of bytes programmed from the application start. */
    method CloseWindow(fill: nat, writeAddr: nat, ghost copied: seq<bv8>, ghost nvm0: seq<bv8>, refMac: Block, curMac: Block)
      returns (bricked: bool, ghost written: nat)
      requires Assembled(fill, writeAddr, copied, nvm0) && fill < ROW_SIZE && appStart + |copied| <= flashSize
      modifies nvm, this`commits
      ensures bricked == (refMac != curMac)
      ensures !bricked ==> Programmed(written, copied, nvm0) && |copied| <= written < |copied| + ROW_SIZE
      ensures bricked ==> Erased(nvm0)
    {
      ghost var base := writeAddr - appStart;
      written := base;
      if fill != 0 {
        RowRoom(appStart, writeAddr, flashSize);
        StoreRow(writeAddr, row);
        written := base + ROW_SIZE;
        forall x | 0 <= x < |copied|
          ensures nvm[appStart + x] == copied[x]
        {
          if x >= base {
            assert nvm[appStart + x] == row[x - base];
          }
        }
      }
      bricked := refMac != curMac;                      // utils_side_channel_safe_memcmp
      if bricked {
        Brick();
      }
    }

    /** Pass 1's copy of the firmware window so far: `copied` is the external
        flash read continuously from the window start, and the row assembler
        holds it. */
    ghost predicate Copying(ext: seq<bv8>, fwAddr: nat, nvm0: seq<bv8>, fill: nat, writeAddr: nat, copied: seq<bv8>)
      reads this`commits, nvm, row
    {
      && |ext| > 0 && fill < ROW_SIZE
      && Assembled(fill, writeAddr, copied, nvm0)
      && copied == Stream(ext, fwAddr, |copied|)
    }

    /** The pass-1 copy step: the chunk at `addr`, which `buf` holds, from the
        window offset `offset` to the end of the buffer, extends the copy. */
    method CopyChunk(ext: seq<bv8>, fwAddr: nat, ghost nvm0: seq<bv8>, buf: array<bv8>, addr: nat, offset: nat,
                     fill: nat, writeAddr: nat, ghost copied: seq<bv8>)
      returns (fill': nat, writeAddr': nat, ghost copied': seq<bv8>)
      requires Copying(ext, fwAddr, nvm0, fill, writeAddr, copied)
      requires buf.Length == ROW_SIZE && buf != row && buf != nvm && buf[..] == Stream(ext, addr, ROW_SIZE)
      requires offset < ROW_SIZE && addr + offset == fwAddr + |copied| && appStart + |copied| + ROW_SIZE - offset <= flashSize
      modifies row, nvm, this`commits
      ensures Copying(ext, fwAddr, nvm0, fill', writeAddr', copied')
      ensures |copied'| == |copied| + ROW_SIZE - offset
    {
      RowRoom(appStart, writeAddr, flashSize);
      StreamExtend(ext, fwAddr, |copied|, addr, offset);
      fill', writeAddr', copied' := AssembleChunk(buf, offset, fill, writeAddr, copied, nvm0);
    }

    /** Pass 1's exit from the firmware window at the chunk at `addr`, which
        closes it: CloseWindow flushes the last row and compares the MAC taken
        up to the end of this chunk with the one pass 0 stored. */
    method FinishWindow(ext: seq<bv8>, fwAddr: nat, fwSize: nat, refMac: Block, ghost nvm0: seq<bv8>,
                        addr: nat, n: nat, mac: Block, fill: nat, writeAddr: nat, ghost copied: seq<bv8>)
      returns (end: PassEnd, ghost written: nat)
      requires Valid() && |ext| == extSize && signedStart <= fwAddr < extSize
      requires signedStart <= addr < extSize && (addr - signedStart) % ROW_SIZE == 0 && n == ChunkLength(addr, extSize)
      requires addr <= Horizon(fwAddr, fwSize) < addr + n
      requires (addr + n - signedStart) % BLOCK_SIZE == 0 && mac == Fold(cipher, ZERO, ext[signedStart..addr + n])
      requires |copied| == addr + ROW_SIZE - fwAddr && appStart + |copied| <= flashSize
      requires Assembled(fill, writeAddr, copied, nvm0) && fill < ROW_SIZE
      modifies nvm, this`commits
      ensures end != RanToEnd && Closes(fwAddr, fwSize, extSize)
      ensures end == WindowClosed <==> refMac == WindowMac(cipher, ext, signedStart, fwAddr, fwSize)
      ensures end == WindowClosed ==>
                |copied| == CopiedLength(signedStart, extSize, fwAddr, fwSize) &&
                Programmed(written, copied, nvm0) && |copied| <= written < |copied| + ROW_SIZE
      ensures end == Bricked ==> Erased(nvm0)
    {
      ClosesAt(cipher, ext, signedStart, extSize, fwAddr, fwSize, addr);
      var bricked;
      bricked, written := CloseWindow(fill, writeAddr, copied, nvm0, refMac, mac);
      end := if bricked then Bricked else WindowClosed;
    }

    /** The scan of the signed region up to `s.addr`, as both passes keep it:
        the double buffer (the transfer in flight fills `received` from
        `dmaAddr`), the running MAC and the window flags. */
    ghost predicate Scanned(ext: seq<bv8>, fwAddr: nat, fwSize: nat, s: Cursor)
    {
      && Valid() && |ext| == extSize && signedStart <= fwAddr < extSize
      && ((s.available == b1 && s.received == b2) || (s.available == b2 && s.received == b1))
      && signedStart <= s.addr <= extSize && (s.addr - signedStart) % BLOCK_SIZE == 0
      && (s.addr < extSize ==> s.dmaAddr == s.addr && (s.addr - signedStart) % ROW_SIZE == 0)
      && s.mac == Fold(cipher, ZERO, ext[signedStart..s.addr])
      && s.valid == (fwAddr < s.addr <= Horizon(fwAddr, fwSize))
      && s.passed == (Horizon(fwAddr, fwSize) < s.addr)
    }

    /** The exit check of an iteration: a chunk holding window bytes closes
        the window exactly when the window's horizon lies inside it. The
        iteration keeps the scan: on to the next chunk, buffers swapped, the
        flags updated by the exit check. */
    lemma ScannedStep(ext: seq<bv8>, fwAddr: nat, fwSize: nat, s: Cursor, n: nat, mac: Block, valid: bool, closes: bool, s': Cursor)
      requires Scanned(ext, fwAddr, fwSize, s) && s.addr < extSize && n == ChunkLength(s.addr, extSize)
      requires (s.addr + n - signedStart) % BLOCK_SIZE == 0 && mac == Fold(cipher, ZERO, ext[signedStart..s.addr + n])
      requires valid == (fwAddr < s.addr + n && s.addr <= Horizon(fwAddr, fwSize))
      requires closes == (valid && s.addr + n > FwEnd(fwAddr, fwSize))
      requires s' == Cursor(s.addr + n, s.dmaAddr + ROW_SIZE, s.received, s.available, mac,
                            valid && !closes, s.passed || closes, s'.fill, s'.writeAddr, s'.refMac)
      ensures Scanned(ext, fwAddr, fwSize, s')
    {
    }

    /** The window flags are never both set, and once the scan has passed the
        window it never enters it again. */
    lemma WindowFlags(ext: seq<bv8>, fwAddr: nat, fwSize: nat, s: Cursor, t: Cursor)
      requires Scanned(ext, fwAddr, fwSize, s) && Scanned(ext, fwAddr, fwSize, t) && s.addr <= t.addr
      ensures !(s.valid && s.passed)
      ensures s.passed ==> t.passed && !t.valid
    {
    }

    /** How far pass 1 has copied when the scan is at `s`: `len` bytes from the
        window start to the end of the last buffer it has seen (all of the
        window, as far as the copy goes, when the scan is over), all of which
        fits in the internal flash from the application start. */
    ghost predicate CopyExtent(fwAddr: nat, fwSize: nat, s: Cursor, len: nat)
    {
      && signedStart <= fwAddr < extSize
      && len == (if fwAddr < s.addr then s.dmaAddr - fwAddr else 0)
      && (s.addr == extSize ==> s.dmaAddr == CopiedLength(signedStart, extSize, fwAddr, fwSize) + fwAddr)
      && appStart + len <= flashSize
    }

    /** Pass 1 through the chunk at `s.addr`: a chunk holding window bytes
        from `offset` on extends the copy to the end of its buffer; where the
        window does not close in it, the scan moves on to the next chunk with
        the copy's extent kept. */
    lemma CopyExtentStep(fwAddr: nat, fwSize: nat, s: Cursor, n: nat, valid: bool, offset: nat, len: nat, s': Cursor)
      requires Valid() && signedStart <= fwAddr < extSize && Fits(signedStart, appStart, flashSize, fwAddr, fwSize, extSize)
      requires signedStart <= s.addr < extSize && s.dmaAddr == s.addr && (s.addr - signedStart) % ROW_SIZE == 0
      requires n == ChunkLength(s.addr, extSize) && s.addr <= Horizon(fwAddr, fwSize)
      requires CopyExtent(fwAddr, fwSize, s, len)
      requires valid == (fwAddr < s.addr + n && s.addr <= Horizon(fwAddr, fwSize))
      requires valid ==> offset < ROW_SIZE && s.addr + offset == if fwAddr < s.addr then s.addr else fwAddr
      requires s'.addr == s.addr + n && s'.dmaAddr == s.dmaAddr + ROW_SIZE
      ensures valid ==> len + ROW_SIZE - offset == s.addr + ROW_SIZE - fwAddr && appStart + (len + ROW_SIZE - offset) <= flashSize
      ensures s.addr + n <= Horizon(fwAddr, fwSize) ==> CopyExtent(fwAddr, fwSize, s', if valid then len + ROW_SIZE - offset else len)
    {
      ChunkUpToClosing(signedStart, CopyHorizon(fwAddr, fwSize, extSize), extSize, s.addr);
      if s.addr + n == extSize && s.addr + n <= Horizon(fwAddr, fwSize) {
        EndsOpenAt(signedStart, extSize, fwAddr, fwSize, s.addr);
      }
    }

    /** The locals main() keeps while it scans the signed region in one pass. */
    ghost predicate Scanning(pass: nat, ext: seq<bv8>, fwAddr: nat, fwSize: nat, refMac0: Block, fill0: nat,
                             nvm0: seq<bv8>, s: Cursor, copied: seq<bv8>)
      reads this`commits, nvm, row
    {
      && Scanned(ext, fwAddr, fwSize, s) && (pass == 0 || pass == 1) && |nvm0| == flashSize
      && (pass == 1 ==> fill0 == 0 && Fits(signedStart, appStart, flashSize, fwAddr, fwSize, extSize))
      // pass 0 only takes the MAC
      && (pass == 0 ==> nvm[..] == nvm0 && commits == [] && s.fill == fill0 && s.writeAddr == appStart)
      && (pass == 0 ==> s.refMac == if s.passed then WindowMac(cipher, ext, signedStart, fwAddr, fwSize) else refMac0)
      // pass 1 copies the window, up to the end of the last buffer it has seen
      && (pass == 1 ==> !s.passed && s.refMac == refMac0 && Copying(ext, fwAddr, nvm0, s.fill, s.writeAddr, copied))
      && (pass == 1 ==> CopyExtent(fwAddr, fwSize, s, |copied|))
    }

    /** The start of an iteration: waits for the chunk at `s.addr`, folds it
        into the MAC and checks whether it enters the firmware window; `valid`
        says the chunk holds window bytes, from `offset` on. */
    method Receive(ext: seq<bv8>, fwAddr: nat, fwSize: nat, s: Cursor) returns (n: nat, mac: Block, valid: bool, offset: nat)
      requires Scanned(ext, fwAddr, fwSize, s) && s.addr < extSize
      modifies s.received
      ensures n == ChunkLength(s.addr, extSize) && s.received[..] == Stream(ext, s.addr, ROW_SIZE)
      ensures (s.addr + n - signedStart) % BLOCK_SIZE == 0 && mac == Fold(cipher, ZERO, ext[signedStart..s.addr + n])
      ensures valid == (fwAddr < s.addr + n && s.addr <= Horizon(fwAddr, fwSize))
      ensures valid ==> offset < ROW_SIZE && s.addr + offset == if fwAddr < s.addr then s.addr else fwAddr
      ensures valid ==> (s.addr + n > FwEnd(fwAddr, fwSize) <==> Horizon(fwAddr, fwSize) < s.addr + n)
      // the window is entered in the chunk of the scan that holds its first byte
      ensures valid && !s.valid ==> s.addr == ClosingChunk(signedStart, fwAddr, extSize) && offset == fwAddr - s.addr
    {
      n := extSize - s.addr;                            // nb_bytes_to_read
      if n > ROW_SIZE {
        n := ROW_SIZE;
      }
      CompleteTransfer(ext, s.received, s.dmaAddr);
      mac := MacChunk(ext, s.received, s.addr, n, s.mac);
      valid := s.valid;
      offset := 0;                                      // valid_fw_data_offset
      if !valid && !s.passed && s.addr + n > fwAddr {
        valid := true;
        offset := fwAddr - s.addr;
        ClosingChunkUnique(signedStart, fwAddr, extSize, s.addr);
      }
    }

    /** The exit check of pass 0, after the chunk at `s.addr` was received:
        where the window closes in this chunk, the MAC so far is stored as the
        reference (cbc_mac_to_end_of_mcu_fpass); then the buffers swap roles. */
    method VerifyChunk(ext: seq<bv8>, fwAddr: nat, fwSize: nat, s: Cursor, n: nat, mac: Block, valid: bool)
      returns (s': Cursor)
      requires Scanned(ext, fwAddr, fwSize, s) && s.addr < extSize && n == ChunkLength(s.addr, extSize)
      requires (s.addr + n - signedStart) % BLOCK_SIZE == 0 && mac == Fold(cipher, ZERO, ext[signedStart..s.addr + n])
      requires valid == (fwAddr < s.addr + n && s.addr <= Horizon(fwAddr, fwSize))
      requires valid ==> (s.addr + n > FwEnd(fwAddr, fwSize) <==> Horizon(fwAddr, fwSize) < s.addr + n)
      ensures Scanned(ext, fwAddr, fwSize, s') && s'.addr == s.addr + n && s'.dmaAddr == s.dmaAddr + ROW_SIZE
      ensures s'.available == s.received && s'.received == s.available
      ensures s'.fill == s.fill && s'.writeAddr == s.writeAddr
      ensures s'.refMac == if s'.passed && !s.passed then WindowMac(cipher, ext, signedStart, fwAddr, fwSize) else s.refMac
    {
      ghost var closes := valid && s.addr + n > FwEnd(fwAddr, fwSize);
      var passed, stillValid, refMac := s.passed, valid, s.refMac;
      if valid && s.addr + n > FwEnd(fwAddr, fwSize) {
        passed, stillValid := true, false;
        ClosesAt(cipher, ext, signedStart, extSize, fwAddr, fwSize, s.addr);
        refMac := mac;
      }
      s' := Cursor(s.addr + n, s.dmaAddr + ROW_SIZE, s.received, s.available, mac, stillValid, passed, s.fill, s.writeAddr, refMac);
      ScannedStep(ext, fwAddr, fwSize, s, n, mac, valid, closes, s');
    }

    /** The row-assembler step of pass 1 for the chunk at `s.addr`: a chunk
        holding window bytes from `offset` on extends the copy to the end of
        its buffer; any other chunk leaves the row assembler alone. */
    method CopyWindow(ext: seq<bv8>, fwAddr: nat, fwSize: nat, refMac0: Block, ghost nvm0: seq<bv8>,
                      s: Cursor, ghost copied: seq<bv8>, n: nat, valid: bool, offset: nat)
      returns (fill: nat, writeAddr: nat, ghost copied': seq<bv8>)
      requires Scanning(1, ext, fwAddr, fwSize, refMac0, 0, nvm0, s, copied) && s.addr < extSize
      requires n == ChunkLength(s.addr, extSize) && s.received[..] == Stream(ext, s.addr, ROW_SIZE)
      requires valid == (fwAddr < s.addr + n && s.addr <= Horizon(fwAddr, fwSize))
      requires valid ==> offset < ROW_SIZE && s.addr + offset == if fwAddr < s.addr then s.addr else fwAddr
      modifies nvm, row, this`commits
      ensures Copying(ext, fwAddr, nvm0, fill, writeAddr, copied') && appStart + |copied'| <= flashSize
      ensures !valid ==> fill == s.fill && writeAddr == s.writeAddr && copied' == copied
      ensures valid ==> |copied'| == s.addr + ROW_SIZE - fwAddr
      ensures s.addr + n <= Horizon(fwAddr, fwSize) ==>
                CopyExtent(fwAddr, fwSize, s.(addr := s.addr + n, dmaAddr := s.dmaAddr + ROW_SIZE), |copied'|)
    {
      fill, writeAddr, copied' := s.fill, s.writeAddr, copied;
      CopyExtentStep(fwAddr, fwSize, s, n, valid, offset, |copied|, s.(addr := s.addr + n, dmaAddr := s.dmaAddr + ROW_SIZE));
      if valid {
        fill, writeAddr, copied' := CopyChunk(ext, fwAddr, nvm0, s.received, s.addr, offset, fill, writeAddr, copied');
      }
    }

    /** A pass-1 iteration that leaves the window open keeps the scan: on to
        the next chunk, with the row assembler and the copy's extent as the
        row-assembler step left them. */
    lemma CopyStep(ext: seq<bv8>, fwAddr: nat, fwSize: nat, refMac0: Block, nvm0: seq<bv8>, s: Cursor,
                   n: nat, mac: Block, valid: bool, copied': seq<bv8>, s': Cursor)
      requires Scanned(ext, fwAddr, fwSize, s) && !s.passed && s.refMac == refMac0 && s.addr < extSize && |nvm0| == flashSize
      requires Fits(signedStart, appStart, flashSize, fwAddr, fwSize, extSize)
      requires n == ChunkLength(s.addr, extSize)
      requires (s.addr + n - signedStart) % BLOCK_SIZE == 0 && mac == Fold(cipher, ZERO, ext[signedStart..s.addr + n])
      requires valid == (fwAddr < s.addr + n && s.addr <= Horizon(fwAddr, fwSize))
      requires !(valid && s.addr + n > FwEnd(fwAddr, fwSize))
      requires valid ==> (s.addr + n > FwEnd(fwAddr, fwSize) <==> Horizon(fwAddr, fwSize) < s.addr + n)
      requires Copying(ext, fwAddr, nvm0, s'.fill, s'.writeAddr, copied')
      requires s.addr + n <= Horizon(fwAddr, fwSize) ==>
                 CopyExtent(fwAddr, fwSize, s.(addr := s.addr + n, dmaAddr := s.dmaAddr + ROW_SIZE), |copied'|)
      requires s' == Cursor(s.addr + n, s.dmaAddr + ROW_SIZE, s.received, s.available, mac, valid, s.passed,
                            s'.fill, s'.writeAddr, s.refMac)
      ensures Scanning(1, ext, fwAddr, fwSize, refMac0, 0, nvm0, s', copied')
    {
      ScannedStep(ext, fwAddr, fwSize, s, n, mac, valid, false, s');
    }

    /** Pass 1 at the chunk that closes the window: its window bytes from
        `offset` on go through the row assembler, then FinishWindow flushes
        the last partial row and compares the two MACs. */
    method CopyClosingChunk(ext: seq<bv8>, fwAddr: nat, fwSize: nat, refMac0: Block, ghost nvm0: seq<bv8>,
                            s: Cursor, ghost copied: seq<bv8>, n: nat, mac: Block, offset: nat)
      returns (end: PassEnd, ghost copied': seq<bv8>, ghost written: nat)
      requires Scanning(1, ext, fwAddr, fwSize, refMac0, 0, nvm0, s, copied) && s.addr < extSize
      requires n == ChunkLength(s.addr, extSize) && s.received[..] == Stream(ext, s.addr, ROW_SIZE)
      requires (s.addr + n - signedStart) % BLOCK_SIZE == 0 && mac == Fold(cipher, ZERO, ext[signedStart..s.addr + n])
      requires fwAddr < s.addr + n && s.addr <= Horizon(fwAddr, fwSize) < s.addr + n
      requires offset < ROW_SIZE && s.addr + offset == if fwAddr < s.addr then s.addr else fwAddr
      modifies nvm, row, this`commits
      ensures end != RanToEnd && Closes(fwAddr, fwSize, extSize)
      ensures end == WindowClosed <==> refMac0 == WindowMac(cipher, ext, signedStart, fwAddr, fwSize)
      ensures end == WindowClosed ==>
                |copied'| == CopiedLength(signedStart, extSize, fwAddr, fwSize) && copied' == Stream(ext, fwAddr, |copied'|) &&
                Programmed(written, copied', nvm0) && |copied'| <= written < |copied'| + ROW_SIZE
      ensures end == Bricked ==> Erased(nvm0)
    {
      var fill, writeAddr;
      fill, writeAddr, copied' := CopyWindow(ext, fwAddr, fwSize, refMac0, nvm0, s, copied, n, true, offset);
      end, written := FinishWindow(ext, fwAddr, fwSize, s.refMac, nvm0, s.addr, n, mac, fill, writeAddr, copied');
    }

    /** Pass 1 after the chunk at `s.addr` was received: a chunk holding window
        bytes from `offset` on goes through the row assembler; where the window
        closes in it, the last partial row is programmed and the two MACs are
        compared (a mismatch erases the application region); otherwise the
        buffers swap roles and the scan moves on. */
    method CommitChunk(ext: seq<bv8>, fwAddr: nat, fwSize: nat, refMac0: Block, ghost nvm0: seq<bv8>,
                       s: Cursor, ghost copied: seq<bv8>, n: nat, mac: Block, valid: bool, offset: nat)
      returns (end: PassEnd, s': Cursor, ghost copied': seq<bv8>, ghost written: nat)
      requires Scanning(1, ext, fwAddr, fwSize, refMac0, 0, nvm0, s, copied) && s.addr < extSize
      requires n == ChunkLength(s.addr, extSize) && s.received[..] == Stream(ext, s.addr, ROW_SIZE)
      requires (s.addr + n - signedStart) % BLOCK_SIZE == 0 && mac == Fold(cipher, ZERO, ext[signedStart..s.addr + n])
      requires valid == (fwAddr < s.addr + n && s.addr <= Horizon(fwAddr, fwSize))
      requires valid ==> offset < ROW_SIZE && s.addr + offset == if fwAddr < s.addr then s.addr else fwAddr
      requires valid ==> (s.addr + n > FwEnd(fwAddr, fwSize) <==> Horizon(fwAddr, fwSize) < s.addr + n)
      modifies nvm, row, this`commits
      ensures end == RanToEnd ==> Scanning(1, ext, fwAddr, fwSize, refMac0, 0, nvm0, s', copied')
      // on to the next chunk, the next transfer filling the other buffer, the two buffers swapping roles
      ensures end == RanToEnd ==> s'.addr == s.addr + n && s'.dmaAddr == s.dmaAddr + ROW_SIZE &&
                                  s'.available == s.received && s'.received == s.available
      // the loop is left before the swap, with the next transfer in flight into the other buffer
      ensures end != RanToEnd ==> Closes(fwAddr, fwSize, extSize) &&
                                  s' == s.(dmaAddr := s.dmaAddr + ROW_SIZE, available := s.received, received := s.available)
      ensures end != RanToEnd ==> (end == WindowClosed <==> refMac0 == WindowMac(cipher, ext, signedStart, fwAddr, fwSize))
      ensures end == WindowClosed ==>
                |copied'| == CopiedLength(signedStart, extSize, fwAddr, fwSize) && copied' == Stream(ext, fwAddr, |copied'|) &&
                Programmed(written, copied', nvm0) && |copied'| <= written < |copied'| + ROW_SIZE
      ensures end == Bricked ==> Erased(nvm0)
    {
      // leaving the window
      if valid && s.addr + n > FwEnd(fwAddr, fwSize) {
        end, copied', written := CopyClosingChunk(ext, fwAddr, fwSize, refMac0, nvm0, s, copied, n, mac, offset);
        s' := s.(dmaAddr := s.dmaAddr + ROW_SIZE, available := s.received, received := s.available);
        return;
      }
      written := 0;
      end := RanToEnd;
      var fill, writeAddr;
      fill, writeAddr, copied' := CopyWindow(ext, fwAddr, fwSize, refMac0, nvm0, s, copied, n, valid, offset);
      // the next transfer was armed on the other buffer; the two swap roles
      s' := Cursor(s.addr + n, s.dmaAddr + ROW_SIZE, s.received, s.available, mac, valid, s.passed, fill, writeAddr, s.refMac);
      CopyStep(ext, fwAddr, fwSize, refMac0, nvm0, s, n, mac, valid, copied', s');
    }

    /** One iteration of the scan loop, from the wait for the chunk at `s.addr`
        to the swap of the buffers. It runs to the next chunk unless pass 1
        closes the window there: then the last partial row is programmed and
        the two MACs are compared, and a mismatch erases the application
        region. */
    method ScanChunk(pass: nat, ext: seq<bv8>, fwAddr: nat, fwSize: nat, refMac0: Block, fill0: nat,
                     ghost nvm0: seq<bv8>, s: Cursor, ghost copied: seq<bv8>)
      returns (end: PassEnd, s': Cursor, ghost copied': seq<bv8>, ghost written: nat)
      requires Scanning(pass, ext, fwAddr, fwSize, refMac0, fill0, nvm0, s, copied) && s.addr < extSize
      modifies nvm, row, b1, b2, this`commits
      ensures end == RanToEnd ==> Scanning(pass, ext, fwAddr, fwSize, refMac0, fill0, nvm0, s', copied')
      ensures end == RanToEnd ==> s'.addr == s.addr + ChunkLength(s.addr, extSize) && s'.dmaAddr == s.dmaAddr + ROW_SIZE &&
                                  s'.available == s.received && s'.received == s.available
      ensures end != RanToEnd ==> pass == 1 && Closes(fwAddr, fwSize, extSize) &&
                                  s' == s.(dmaAddr := s.dmaAddr + ROW_SIZE, available := s.received, received := s.available)
      ensures end != RanToEnd ==> (end == WindowClosed <==> refMac0 == WindowMac(cipher, ext, signedStart, fwAddr, fwSize))
      ensures end == WindowClosed ==>
                |copied'| == CopiedLength(signedStart, extSize, fwAddr, fwSize) && copied' == Stream(ext, fwAddr, |copied'|) &&
                Programmed(written, copied', nvm0) && |copied'| <= written < |copied'| + ROW_SIZE
      ensures end == Bricked ==> Erased(nvm0)
    {
      var n, mac, valid, offset := Receive(ext, fwAddr, fwSize, s);
      if pass == 0 {
        s' := VerifyChunk(ext, fwAddr, fwSize, s, n, mac, valid);
        end, copied', written := RanToEnd, copied, 0;
      } else {
        end, s', copied', written := CommitChunk(ext, fwAddr, fwSize, refMac0, nvm0, s, copied, n, mac, valid, offset);
      }
    }

    /** The scan loop of one pass (`while (current_data_flash_addr <
        W25Q16_FLASH_SIZE)`), from the cursor `s0` at the start of the signed
        region: it runs to the end of the region, one iteration per chunk of
        the tiling, unless pass 1 closes the window and leaves the loop. */
    method ScanLoop(pass: nat, ext: seq<bv8>, fwAddr: nat, fwSize: nat, refMac0: Block, fill0: nat,
                    ghost nvm0: seq<bv8>, s0: Cursor)
      returns (end: PassEnd, s: Cursor, ghost copied: seq<bv8>, ghost written: nat, ghost chunks: nat)
      requires Scanning(pass, ext, fwAddr, fwSize, refMac0, fill0, nvm0, s0, []) && AtTile(signedStart, extSize, 0, s0.addr)
      modifies nvm, row, b1, b2, this`commits
      ensures s.received == b1 || s.received == b2
      ensures end == RanToEnd ==> Scanning(pass, ext, fwAddr, fwSize, refMac0, fill0, nvm0, s, copied) && s.addr == extSize
      ensures end == RanToEnd ==> chunks == |Tiles(signedStart, extSize)|
      ensures end != RanToEnd ==> pass == 1 && Closes(fwAddr, fwSize, extSize) && s.refMac == refMac0
      ensures end != RanToEnd ==> (end == WindowClosed <==> refMac0 == WindowMac(cipher, ext, signedStart, fwAddr, fwSize))
      ensures end == WindowClosed ==>
                |copied| == CopiedLength(signedStart, extSize, fwAddr, fwSize) && copied == Stream(ext, fwAddr, |copied|) &&
                Programmed(written, copied, nvm0) && |copied| <= written < |copied| + ROW_SIZE
      ensures end == Bricked ==> Erased(nvm0)
    {
      s, copied, written, chunks := s0, [], 0, 0;
      end := RanToEnd;
      while s.addr < extSize
        invariant Scanning(pass, ext, fwAddr, fwSize, refMac0, fill0, nvm0, s, copied) && end == RanToEnd
        invariant AtTile(signedStart, extSize, chunks, s.addr)
        decreases extSize - s.addr
      {
        ghost var addr := s.addr;
        end, s, copied, written := ScanChunk(pass, ext, fwAddr, fwSize, refMac0, fill0, nvm0, s, copied);
        if end != RanToEnd {
          return;
        }
        TileStep(signedStart, extSize, chunks, addr);
        chunks := chunks + 1;
      }
    }

    /** One iteration of the `nb_pass` loop over the external flash `ext`:
        pass 0 stores the MAC taken at the close of the firmware window in
        `refMac`; pass 1 copies the window into the internal flash row by row
        and, where the window closes, flushes the last partial row and
        compares the two MACs, erasing the application region on a mismatch.
        `fill` is the row buffer's fill level, kept across passes; `copied` is
        what pass 1 pushed into the row assembler and `written` how many bytes
        of it reached the internal flash. */
    method RunPass(pass: nat, ext: seq<bv8>, fwAddr: nat, fwSize: nat, refMac0: Block, fill0: nat)
      returns (end: PassEnd, refMac: Block, fill: nat, ghost copied: seq<bv8>, ghost written: nat, ghost chunks: nat)
      requires Valid() && |ext| == extSize && (pass == 0 || pass == 1) && commits == []
      requires signedStart <= fwAddr < extSize
      requires pass == 1 ==> fill0 == 0 && Fits(signedStart, appStart, flashSize, fwAddr, fwSize, extSize)
      modifies nvm, row, b1, b2, this`commits
      // pass 0 leaves the internal flash and the row assembler alone, runs to the end,
      // and keeps the MAC taken where the window closes
      ensures pass == 0 ==> end == RanToEnd && nvm[..] == old(nvm[..]) && commits == [] && fill == fill0
      // a pass that runs to the end takes one iteration per chunk of the tiling of the signed region
      ensures end == RanToEnd ==> chunks == |Tiles(signedStart, extSize)|
      ensures pass == 0 ==> refMac == if Closes(fwAddr, fwSize, extSize) then WindowMac(cipher, ext, signedStart, fwAddr, fwSize) else refMac0
      // pass 1: how it ends
      ensures pass == 1 ==> refMac == refMac0
      ensures pass == 1 ==> (end == RanToEnd <==> !Closes(fwAddr, fwSize, extSize))
      ensures pass == 1 ==> (end == WindowClosed <==>
                Closes(fwAddr, fwSize, extSize) && refMac0 == WindowMac(cipher, ext, signedStart, fwAddr, fwSize))
      ensures pass == 1 ==> (end == Bricked <==>
                Closes(fwAddr, fwSize, extSize) && refMac0 != WindowMac(cipher, ext, signedStart, fwAddr, fwSize))
      // pass 1: what was pushed into the row assembler and programmed
      ensures pass == 1 && end != Bricked ==>
                |copied| == CopiedLength(signedStart, extSize, fwAddr, fwSize) &&
                copied == Stream(ext, fwAddr, |copied|) && Programmed(written, copied, old(nvm[..]))
      // where the window closed, every pushed byte is programmed, the last partial row included
      ensures pass == 1 && end == WindowClosed ==> |copied| <= written < |copied| + ROW_SIZE
      // where the window stays open, only the full rows are
      ensures pass == 1 && end == RanToEnd ==> written <= |copied| < written + ROW_SIZE
      // pass 1: a MAC mismatch erases the whole application region
      ensures pass == 1 && end == Bricked ==> Erased(old(nvm[..]))
    {
      ghost var nvm0 := nvm[..];
      var s := Cursor(signedStart, signedStart, b2, b1, ZERO, false, false, fill0, appStart, refMac0);
      TileFirst(signedStart, extSize);
      end, s, copied, written, chunks := ScanLoop(pass, ext, fwAddr, fwSize, refMac0, fill0, nvm0, s);
      refMac, fill := s.refMac, s.fill;
      if end == Bricked {
        return;
      }
      // the transfer still in flight completes before the pass ends
      CompleteTransfer(ext, s.received, s.dmaAddr);
      if end == RanToEnd {
        written := s.writeAddr - appStart;
      }
    }

    // ---------------------------------------------------------------------
    // main()

    /** Where the bundle puts the update file, as the external flash `ext`
        tells it: the firmware after its size prefix lies inside the signed
        region, and the internal flash has room for every row the second
        pass may program. The bootloader checks neither. */
    ghost predicate Placed(fileAddr: nat, ext: seq<bv8>)
    {
      && Valid() && |ext| == extSize
      && signedStart <= FirmwareStart(fileAddr) < extSize
      && Fits(signedStart, appStart, flashSize, FirmwareStart(fileAddr), FirmwareSize(ext, fileAddr), extSize)
    }

    /** The firmware file is in the internal flash from the application start
        on, byte for byte, whenever pass 1 programmed at least every byte it
        pushed into the row assembler and the file lies inside the scanned
        region: where the window starts inside its first chunk does not
        matter. */
    lemma Reconstructed(ext: seq<bv8>, fwAddr: nat, fwSize: nat, copied: seq<bv8>, written: nat, nvm0: seq<bv8>)
      requires |ext| == extSize && signedStart <= fwAddr && fwAddr + fwSize < extSize && extSize <= UINT32_LIMIT
      requires copied == Stream(ext, fwAddr, CopiedLength(signedStart, extSize, fwAddr, fwSize))
      requires Programmed(written, copied, nvm0)
      requires Closes(fwAddr, fwSize, extSize) ==> |copied| <= written
      ensures Holds(ext[fwAddr..fwAddr + fwSize])
    {
      CopiedCoversFirmware(signedStart, extSize, fwAddr, fwSize);
      ghost var image := ext[fwAddr..fwAddr + fwSize];
      forall i | 0 <= i < fwSize
        ensures nvm[appStart + i] == image[i]
      {
        FirmwareInCopy(ext, signedStart, fwAddr, fwSize, i);
      }
    }

    /** The two iterations of the `nb_pass` loop over the firmware window at
        `fwAddr`: pass 0 over `ext0` stores the MAC taken where the window
        closes, pass 1 over `ext1` copies the window and compares. */
    method TwoPasses(fwAddr: nat, fwSize: nat, ext0: seq<bv8>, ext1: seq<bv8>)
      returns (bricked: bool, ghost copied: seq<bv8>, ghost written: nat)
      requires Valid() && |ext0| == extSize && |ext1| == extSize && commits == []
      requires signedStart <= fwAddr < extSize && Fits(signedStart, appStart, flashSize, fwAddr, fwSize, extSize)
      modifies nvm, row, b1, b2, this`commits
      ensures bricked <==> (Closes(fwAddr, fwSize, extSize) &&
                            WindowMac(cipher, ext0, signedStart, fwAddr, fwSize) != WindowMac(cipher, ext1, signedStart, fwAddr, fwSize))
      ensures bricked ==> Erased(old(nvm[..]))
      ensures !bricked ==>
                && copied == Stream(ext1, fwAddr, CopiedLength(signedStart, extSize, fwAddr, fwSize))
                && Programmed(written, copied, old(nvm[..]))
                && (Closes(fwAddr, fwSize, extSize) ==> |copied| <= written < |copied| + ROW_SIZE)
                && (!Closes(fwAddr, fwSize, extSize) ==> written <= |copied| < written + ROW_SIZE)
    {
      // cbc_mac_to_end_of_mcu_fpass is only read where pass 0 wrote it
      var end, refMac, fill, c, w, k := RunPass(0, ext0, fwAddr, fwSize, ZERO, 0);
      ghost var nvm0 := nvm[..];
      assert nvm0 == old(nvm[..]);
      end, refMac, fill, copied, written, k := RunPass(1, ext1, fwAddr, fwSize, refMac, fill);
      bricked := end == Bricked;
    }

    /** The update proper, once the preflight chain found the update file at
        `fileAddr`: the size prefix, then the two passes over the bundle. The
        external flash holds `ext0` while the size prefix is read and during
        pass 0, and `ext1` during pass 1; they differ only if it was altered
        in between. `written` is the number of bytes programmed from the
        application start. */
    method Update(fileAddr: nat, ext0: seq<bv8>, ext1: seq<bv8>) returns (exit: Exit, ghost written: nat)
      requires Valid() && |ext0| == extSize && |ext1| == extSize && Placed(fileAddr, ext0)
      modifies this, nvm, row, b1, b2
      // a MAC mismatch at the close of the window erases the application region and halts
      ensures var fwAddr, fwSize := FirmwareStart(fileAddr), FirmwareSize(ext0, fileAddr);
                exit == Halt <==> (Closes(fwAddr, fwSize, extSize) &&
                                   WindowMac(cipher, ext0, signedStart, fwAddr, fwSize) != WindowMac(cipher, ext1, signedStart, fwAddr, fwSize))
      ensures exit == Halt ==> Erased(old(nvm[..])) && upgradeFlag == old(upgradeFlag)
      // an external flash left alone between the passes is never refused
      ensures ext0 == ext1 ==> exit == SystemReset
      // otherwise the flag is cleared and the device resets, with the rows programmed
      // from the copy of the window, in ascending order from the application start
      ensures exit != Halt ==>
                var fwAddr, fwSize := FirmwareStart(fileAddr), FirmwareSize(ext0, fileAddr);
                var copied := Stream(ext1, fwAddr, CopiedLength(signedStart, extSize, fwAddr, fwSize));
                && exit == SystemReset && !upgradeFlag
                && Programmed(written, copied, old(nvm[..]))
                && (Closes(fwAddr, fwSize, extSize) ==> |copied| <= written < |copied| + ROW_SIZE)
                && (!Closes(fwAddr, fwSize, extSize) ==> written <= |copied| < written + ROW_SIZE)
      // and the firmware file is in the internal flash byte for byte
      ensures exit != Halt && FirmwareStart(fileAddr) + FirmwareSize(ext0, fileAddr) < extSize ==>
                Holds(ext1[FirmwareStart(fileAddr)..FirmwareStart(fileAddr) + FirmwareSize(ext0, fileAddr)])
    {
      var fwSize := FirmwareSize(ext0, fileAddr);     // custom_fs_read_from_flash of the size prefix
      var fwAddr := FirmwareStart(fileAddr);
      commits := [];
      ghost var nvm0 := nvm[..];
      var bricked;
      ghost var copied;
      bricked, copied, written := TwoPasses(fwAddr, fwSize, ext0, ext1);
      if bricked {
        exit := Halt;                                   // platform_io_disable_switch_and_die
        return;
      }
      upgradeFlag := false;                             // custom_fs_settings_clear_fw_upgrade_flag
      exit := SystemReset;                              // NVIC_SystemReset
      if fwAddr + fwSize < extSize {
        Reconstructed(ext1, fwAddr, fwSize, copied, written, nvm0);
      }
    }

    /** main(): the preflight chain, then the update when it lets it
        through. */
    method Run(p: Platform, ext0: seq<bv8>, ext1: seq<bv8>) returns (exit: Exit, ghost written: nat)
      requires Valid() && |ext0| == extSize && |ext1| == extSize
      requires Check(p, upgradeFlag).Scan? ==> Placed(p.updateFile.value, ext0)
      modifies this, nvm, row, b1, b2
      // the internal flash is left alone on every path that does not scan
      ensures !Check(p, old(upgradeFlag)).Scan? ==> nvm[..] == old(nvm[..]) && commits == old(commits)
      ensures Check(p, old(upgradeFlag)) == StartApplication(false) ==> exit == JumpToApplication && upgradeFlag == old(upgradeFlag)
      ensures Check(p, old(upgradeFlag)) == StartApplication(true) ==> exit == JumpToApplication && !upgradeFlag
      ensures Check(p, old(upgradeFlag)) == Die ==> exit == Halt && upgradeFlag == old(upgradeFlag)
      // a scan ends in a halt or a reset, never in a jump to the old application
      ensures Check(p, old(upgradeFlag)).Scan? ==> exit != JumpToApplication
    {
      written := 0;
      var gate := Check(p, upgradeFlag);
      match gate
      case StartApplication(clearFlag) =>
        if clearFlag {
          upgradeFlag := false;                         // custom_fs_settings_clear_fw_upgrade_flag
        }
        exit := JumpToApplication;                      // start_application
      case Die =>
        exit := Halt;                                   // platform_io_disable_switch_and_die
      case Scan(fileAddr) =>
        exit, written := Update(fileAddr, ext0, ext1);
    }
  }
}
