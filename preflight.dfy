/** Conversions between bytes and the numbers they hold. */
module Bytes {
  lemma RoundTrip(x: nat)
    requires x < 0x100
    ensures (x as bv8) as nat == x
  {
  }

  lemma OfNat(x: bv8)
    ensures (x as nat) as bv8 == x
  {
  }
}

/**
  The cheap checks the bootloader runs before it scans the update bundle, and
  the size prefix it reads in front of the firmware file.

  Every check is done by a collaborator this model does not contain (fuse
  reader, settings store, serial-flash presence probe, file table, CRC32 of the
  bundle); their answers are the fields of `Platform`.
*/
module Preflight {
  import opened ChunkStream
  import Bytes

  datatype Option<T> = None | Some(value: T)

  datatype Platform = Platform(
    fusesProgrammed: bool,    // fuses_check_program(FALSE) == RETURN_OK
    settingsInitOk: bool,     // custom_fs_settings_init() == CUSTOM_FS_INIT_OK
    flashPresent: bool,       // dataflash_check_presence(...) != RETURN_NOK
    updateFile: Option<nat>,  // custom_fs_get_file_address(0, ..., CUSTOM_FS_FW_UPDATE_TYPE)
    crcValid: bool)           // custom_fs_compute_and_check_external_bundle_crc32() != RETURN_NOK

  /** Where the preflight chain leaves the bootloader. */
  datatype Gate =
    | StartApplication(clearFlag: bool)  // jump to the resident application, clearing the upgrade flag first or not
    | Die                                // switch off and spin forever
    | Scan(fileAddr: nat)                // run the two passes over the bundle whose update file starts at fileAddr

  /** The preflight chain, in the order the bootloader runs it; `upgradeFlag`
      is the persistent firmware-upgrade flag. */
  function Check(p: Platform, upgradeFlag: bool): (g: Gate)
    // the application is started untouched when fuses are not programmed or no upgrade is requested
    ensures g == StartApplication(false) <==> !p.fusesProgrammed || (p.settingsInitOk && !upgradeFlag)
    // a settings store that will not initialise halts the device
    ensures g == Die <==> p.fusesProgrammed && !p.settingsInitOk
    // a requested upgrade with no flash chip, no update file or a bad CRC is abandoned: flag cleared, application started
    ensures g == StartApplication(true) <==>
              p.fusesProgrammed && p.settingsInitOk && upgradeFlag &&
              (!p.flashPresent || p.updateFile.None? || !p.crcValid)
    // the scan runs only when every check passes, on the file the table gives
    ensures g.Scan? <==>
              p.fusesProgrammed && p.settingsInitOk && upgradeFlag &&
              p.flashPresent && p.updateFile.Some? && p.crcValid
    ensures g.Scan? ==> g.fileAddr == p.updateFile.value
  {
    if !p.fusesProgrammed then StartApplication(false)
    else if !p.settingsInitOk then Die
    else if !upgradeFlag then StartApplication(false)
    else if !p.flashPresent then StartApplication(true)
    else if p.updateFile.None? then StartApplication(true)
    else if !p.crcValid then StartApplication(true)
    else Scan(p.updateFile.value)
  }

  /** Width of the size prefix in front of the firmware file (a 32-bit count). */
  const SIZE_FIELD_BYTES: nat := 4
  const UINT32_LIMIT: nat := 0x1_0000_0000

  /** The little-endian 32-bit value held in four bytes. */
  function DecodeLe32(b: seq<bv8>): (v: nat)
    requires |b| == SIZE_FIELD_BYTES
    ensures v < UINT32_LIMIT
  {
    var b0, b1, b2, b3 := b[0] as nat, b[1] as nat, b[2] as nat, b[3] as nat;
    assert b0 < 0x100 && b1 < 0x100 && b2 < 0x100 && b3 < 0x100;
    b0 + 0x100 * (b1 + 0x100 * (b2 + 0x100 * b3))
  }

  /** The four little-endian bytes of a 32-bit value, as the bundle stores it. */
  function EncodeLe32(v: nat): (b: seq<bv8>)
    requires v < UINT32_LIMIT
    ensures |b| == SIZE_FIELD_BYTES
  {
    var v1 := v / 0x100;
    var v2 := v1 / 0x100;
    var v3 := v2 / 0x100;
    [(v % 0x100) as bv8, (v1 % 0x100) as bv8, (v2 % 0x100) as bv8, (v3 % 0x100) as bv8]
  }

  /** One step of the byte split: the low byte and the rest. */
  lemma SplitByte(r: nat, q: nat)
    requires r < 0x100
    ensures (r + 0x100 * q) % 0x100 == r && (r + 0x100 * q) / 0x100 == q
  {
  }

  lemma DecodeEncodeLe32(v: nat)
    requires v < UINT32_LIMIT
    ensures DecodeLe32(EncodeLe32(v)) == v
  {
    var v1 := v / 0x100;
    var v2 := v1 / 0x100;
    var v3 := v2 / 0x100;
    assert v3 < 0x100;
    Bytes.RoundTrip(v % 0x100);
    Bytes.RoundTrip(v1 % 0x100);
    Bytes.RoundTrip(v2 % 0x100);
    Bytes.RoundTrip(v3 % 0x100);
    var b := EncodeLe32(v);
    assert b[0] as nat == v % 0x100 && b[1] as nat == v1 % 0x100;
    assert b[2] as nat == v2 % 0x100 && b[3] as nat == v3;
  }

  /** The base-256 digits of a value written out from its four digits. */
  lemma DigitsOf(b0: nat, b1: nat, b2: nat, b3: nat)
    requires b0 < 0x100 && b1 < 0x100 && b2 < 0x100 && b3 < 0x100
    ensures var v := b0 + 0x100 * (b1 + 0x100 * (b2 + 0x100 * b3));
            v % 0x100 == b0 && (v / 0x100) % 0x100 == b1 &&
            (v / 0x100 / 0x100) % 0x100 == b2 && (v / 0x100 / 0x100 / 0x100) % 0x100 == b3
  {
    var w2 := b2 + 0x100 * b3;
    var w1 := b1 + 0x100 * w2;
    SplitByte(b0, w1);
    SplitByte(b1, w2);
    SplitByte(b2, b3);
  }

  lemma EncodeOfDigits(b0: nat, b1: nat, b2: nat, b3: nat)
    requires b0 < 0x100 && b1 < 0x100 && b2 < 0x100 && b3 < 0x100
    ensures b0 + 0x100 * (b1 + 0x100 * (b2 + 0x100 * b3)) < UINT32_LIMIT
    ensures EncodeLe32(b0 + 0x100 * (b1 + 0x100 * (b2 + 0x100 * b3))) == [b0 as bv8, b1 as bv8, b2 as bv8, b3 as bv8]
  {
    DigitsOf(b0, b1, b2, b3);
  }

  lemma EncodeDecodeLe32(b: seq<bv8>)
    requires |b| == SIZE_FIELD_BYTES
    ensures EncodeLe32(DecodeLe32(b)) == b
  {
    var b0, b1, b2, b3 := b[0] as nat, b[1] as nat, b[2] as nat, b[3] as nat;
    assert b0 < 0x100 && b1 < 0x100 && b2 < 0x100 && b3 < 0x100;
    assert DecodeLe32(b) == b0 + 0x100 * (b1 + 0x100 * (b2 + 0x100 * b3));
    EncodeOfDigits(b0, b1, b2, b3);
    Bytes.OfNat(b[0]);
    Bytes.OfNat(b[1]);
    Bytes.OfNat(b[2]);
    Bytes.OfNat(b[3]);
    assert [b0 as bv8, b1 as bv8, b2 as bv8, b3 as bv8] == b;
  }

  /** The firmware file's size, read from the four bytes at the file's start. */
  function FirmwareSize(ext: seq<bv8>, fileAddr: nat): (size: nat)
    requires |ext| > 0
    ensures size < UINT32_LIMIT
  {
    DecodeLe32(Stream(ext, fileAddr, SIZE_FIELD_BYTES))
  }
}
