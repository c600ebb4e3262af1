/**
 * The ACR122U command catalog.  The addon sends fixed byte strings
 * (nfc-addon.cpp: the vendor firmware query and the PC/SC Part 3 storage-card
 * pseudo-APDUs with class byte 0xFF); the JavaScript layer publishes the same
 * commands as hex strings in ACR122U_COMMANDS for use with sendApdu.
 */
module Commands {
  import opened Hex

  datatype Command = GetFirmware | GetUid | LoadAuthenticationKeys | Authenticate | ReadBinary | UpdateBinary

  /** The bytes the addon transmits for each command. */
  function AddonBytes(c: Command): seq<byte> {
    match c
    case GetFirmware => [0xFF, 0x00, 0x48, 0x00, 0x00]
    case GetUid => [0xFF, 0xCA, 0x00, 0x00, 0x00]
    case LoadAuthenticationKeys => [0xFF, 0x82, 0x00, 0x00, 0x06, 0xFF, 0xFF, 0xFF, 0xFF, 0xFF, 0xFF]
    case Authenticate => [0xFF, 0x86, 0x00, 0x00, 0x05, 0x01, 0x00, 0x00, 0x60, 0x00]
    case ReadBinary => [0xFF, 0xB0, 0x00, 0x00, 0x10]
    case UpdateBinary => [0xFF, 0xD6, 0x00, 0x00, 0x10]
  }

  /** ACR122U_COMMANDS: the published hex strings. */
  function CatalogHex(c: Command): string {
    match c
    case GetFirmware => "FF00480000"
    case GetUid => "FFCA000000"
    case LoadAuthenticationKeys => "FF82000006FFFFFFFFFFFF"
    case Authenticate => "FF860000050100006000"
    case ReadBinary => "FFB0000010"
    case UpdateBinary => "FFD6000010"
  }

  /** The vendor firmware-version query. */
  lemma GetFirmwareMatches()
    ensures CatalogHex(GetFirmware) == HexOf(AddonBytes(GetFirmware))
  {
  }

  /** Get Data with P1 = 00: the card UID. */
  lemma GetUidMatches()
    ensures CatalogHex(GetUid) == HexOf(AddonBytes(GetUid))
  {
  }

  /** The MIFARE Classic key load, with the default key FF FF FF FF FF FF. */
  lemma LoadKeysMatches()
    ensures CatalogHex(LoadAuthenticationKeys) == HexOf(AddonBytes(LoadAuthenticationKeys))
  {
  }

  /** Authentication of block 0 with key type 60 (key A) from key slot 0. */
  lemma AuthenticateMatches()
    ensures CatalogHex(Authenticate) == HexOf(AddonBytes(Authenticate))
  {
  }

  /** Read Binary of block 0, 16 bytes. */
  lemma ReadBinaryMatches()
    ensures CatalogHex(ReadBinary) == HexOf(AddonBytes(ReadBinary))
  {
  }

  /**
   * Update Binary of block 0, announcing 16 bytes of data (Lc = 0x10) but
   * carrying none: WriteTag converts its `data` argument (nfc-addon.cpp:236)
   * but sends these five bytes alone.
   */
  lemma UpdateBinaryMatches()
    ensures CatalogHex(UpdateBinary) == HexOf(AddonBytes(UpdateBinary))
  {
  }

  /** Every published string is exactly ByteArrayToHex of the bytes the addon sends. */
  lemma CatalogMatchesAddon(c: Command)
    ensures CatalogHex(c) == HexOf(AddonBytes(c))
  {
    GetFirmwareMatches();
    GetUidMatches();
    LoadKeysMatches();
    AuthenticateMatches();
    ReadBinaryMatches();
    UpdateBinaryMatches();
  }

  /** So sendApdu with a catalog string makes the addon transmit the addon's own bytes. */
  lemma CatalogDecodes(c: Command)
    ensures |Utf8Value(CatalogHex(c))| <= 2 * SendBufferSize
    ensures HexToBytes(Utf8Value(CatalogHex(c))) == AddonBytes(c)
  {
    CatalogMatchesAddon(c);
    HexRoundTrip(AddonBytes(c));
  }

  /**
   * Every command is a PC/SC pseudo-APDU (class byte 0xFF) with a five-byte
   * header.  Load Keys and Authenticate carry exactly the data their fifth
   * byte announces; Update Binary announces 16 bytes it does not carry.
   */
  lemma CommandShape(c: Command)
    ensures |AddonBytes(c)| >= 5 && AddonBytes(c)[0] == 0xFF
    ensures c == LoadAuthenticationKeys || c == Authenticate ==> |AddonBytes(c)| == 5 + AddonBytes(c)[4]
    ensures |AddonBytes(UpdateBinary)| < 5 + AddonBytes(UpdateBinary)[4]
  {
  }
}
