/**
 * Hexadecimal text and bytes in the native addon (nfc-addon.cpp):
 * ByteArrayToHex, which prints every byte as two upper-case digits, and the
 * loop in SendApdu that turns a hex command back into the bytes it stores in
 * its 256-byte send buffer, two bytes of the command's UTF-8 encoding at a
 * time via strtol.
 */
module Hex {
  import opened Options

  /** An unsigned 8-bit value (a Win32 BYTE). */
  type byte = x: int | 0 <= x < 256

  /** Size of SendApdu's pbSendBuffer. */
  const SendBufferSize: nat := 256

  /** The digits `std::hex << std::uppercase` prints, in value order. */
  const UpperDigits: string := "0123456789ABCDEF"

  function DigitChar(n: int): char
    requires 0 <= n < 16
  {
    UpperDigits[n]
  }

  /** One byte as the stream writes it with width 2, fill '0', hex, uppercase. */
  function ByteHex(b: byte): (s: string)
    ensures |s| == 2
  {
    [DigitChar(b / 16), DigitChar(b % 16)]
  }

  /**
   * The text ByteArrayToHex returns for `data`: the two digits of every
   * byte, in order (of the bytes from index `from` on, for the recursion).
   */
  function HexOf(data: seq<byte>, from: nat := 0): (hex: string)
    ensures |hex| == if from <= |data| then 2 * (|data| - from) else 0
    decreases |data| - from
  {
    if from >= |data| then "" else ByteHex(data[from]) + HexOf(data, from + 1)
  }

  /** Appending a byte appends its two digits (the step ByteArrayToHex's loop takes). */
  lemma {:induction false} HexOfSnoc(data: seq<byte>, b: byte, from: nat)
    requires from <= |data|
    ensures HexOf(data + [b], from) == HexOf(data, from) + ByteHex(b)
    decreases |data| - from
  {
    if from < |data| {
      assert (data + [b])[from] == data[from];
      HexOfSnoc(data, b, from + 1);
    }
  }

  /** Characters 2(i-from) and 2(i-from)+1 of the digits of data[from..] are the two nibbles of byte i. */
  lemma {:induction false} HexOfFromAt(data: seq<byte>, from: nat, i: nat)
    requires from <= i < |data|
    ensures HexOf(data, from)[2 * (i - from)] == DigitChar(data[i] / 16)
    ensures HexOf(data, from)[2 * (i - from) + 1] == DigitChar(data[i] % 16)
    decreases i - from
  {
    var rest := HexOf(data, from + 1);
    assert HexOf(data, from) == ByteHex(data[from]) + rest;
    if from < i {
      HexOfFromAt(data, from + 1, i);
      assert rest[2 * (i - from) - 2] == DigitChar(data[i] / 16);
    }
  }

  /** Characters 2i and 2i+1 of the hex text are the high and the low nibble of byte i. */
  lemma HexOfAt(data: seq<byte>, i: nat)
    requires i < |data|
    ensures HexOf(data)[2 * i] == DigitChar(data[i] / 16)
    ensures HexOf(data)[2 * i + 1] == DigitChar(data[i] % 16)
  {
    HexOfFromAt(data, 0, i);
  }

  /** The hex text uses only the digits 0-9 and A-F. */
  lemma HexOfAlphabet(data: seq<byte>)
    ensures forall k :: 0 <= k < |HexOf(data)| ==> HexOf(data)[k] in UpperDigits
  {
    forall k | 0 <= k < |HexOf(data)|
      ensures HexOf(data)[k] in UpperDigits
    {
      HexOfAt(data, k / 2);
    }
  }

  /**
   * ByteArrayToHex(data, length): appends the two digits of every byte of
   * data[0 .. length) to a string stream, in order.
   */
  method ByteArrayToHex(data: array<byte>, length: nat) returns (hex: string)
    requires length <= data.Length
    ensures hex == HexOf(data[..length])
    ensures |hex| == 2 * length
    ensures forall k :: 0 <= k < |hex| ==> hex[k] in UpperDigits
    ensures forall i :: 0 <= i < length ==>
      hex[2 * i] == DigitChar(data[i] / 16) && hex[2 * i + 1] == DigitChar(data[i] % 16)
  {
    hex := "";
    var i := 0;
    while i < length
      invariant i <= length
      invariant hex == HexOf(data[..i])
    {
      assert data[..i + 1] == data[..i] + [data[i]];
      HexOfSnoc(data[..i], data[i], 0);
      hex := hex + ByteHex(data[i]);
      i := i + 1;
    }
    HexOfAlphabet(data[..length]);
    forall i | 0 <= i < length
      ensures hex[2 * i] == DigitChar(data[i] / 16) && hex[2 * i + 1] == DigitChar(data[i] % 16)
    {
      HexOfAt(data[..length], i);
    }
  }

  // ----- the command as SendApdu sees it: `Utf8Value()` of the JavaScript string -----

  /** The UTF-8 encoding of one character (a Unicode scalar value). */
  function CharUtf8(c: char): (bytes: seq<byte>)
    ensures 1 <= |bytes| <= 4
    ensures c as int < 0x80 ==> bytes == [c as int]
    ensures c as int >= 0x80 ==> |bytes| >= 2 && bytes[0] >= 0xC0
  {
    var n := c as int;
    if n < 0x80 then [n]
    else if n < 0x800 then [0xC0 + n / 0x40, 0x80 + n % 0x40]
    else if n < 0x10000 then [0xE0 + n / 0x1000, 0x80 + (n / 0x40) % 0x40, 0x80 + n % 0x40]
    else [0xF0 + n / 0x40000, 0x80 + (n / 0x1000) % 0x40, 0x80 + (n / 0x40) % 0x40, 0x80 + n % 0x40]
  }

  /** The UTF-8 bytes of s (of the characters from index `from` on, for the recursion). */
  function Utf8Value(s: string, from: nat := 0): (bytes: seq<byte>)
    ensures |bytes| >= if from <= |s| then |s| - from else 0
    decreases |s| - from
  {
    if from >= |s| then [] else CharUtf8(s[from]) + Utf8Value(s, from + 1)
  }

  predicate IsAscii(s: string) {
    forall k :: 0 <= k < |s| ==> s[k] as int < 0x80
  }

  /** An ASCII string is encoded one byte per character, each byte the character's code. */
  lemma {:induction false} Utf8ValueAscii(s: string, from: nat)
    requires IsAscii(s) && from <= |s|
    ensures |Utf8Value(s, from)| == |s| - from
    ensures forall k :: from <= k < |s| ==> Utf8Value(s, from)[k - from] == s[k] as int
    decreases |s| - from
  {
    if from < |s| {
      Utf8ValueAscii(s, from + 1);
      assert Utf8Value(s, from) == [s[from] as int] + Utf8Value(s, from + 1);
    }
  }

  /** The euro sign, U+20AC, takes three bytes, so a string of n of them takes 3n. */
  lemma {:induction false} Utf8ValueOfEuros(s: string, from: nat)
    requires from <= |s| && forall k :: 0 <= k < |s| ==> s[k] == '€'
    ensures |Utf8Value(s, from)| == 3 * (|s| - from)
    decreases |s| - from
  {
    if from < |s| {
      Utf8ValueOfEuros(s, from + 1);
      assert CharUtf8('€') == [0xE2, 0x82, 0xAC];
      assert Utf8Value(s, from) == CharUtf8('€') + Utf8Value(s, from + 1);
    }
  }

  /** The hex text ByteArrayToHex returns is ASCII. */
  lemma HexOfAscii(data: seq<byte>)
    ensures IsAscii(HexOf(data))
  {
    HexOfAlphabet(data);
    assert forall c :: c in UpperDigits ==> c as int < 0x80;
  }

  // ----- strtol(s, NULL, 16) on the one- and two-byte strings SendApdu gives it -----

  /** The bytes C's isspace accepts in the "C" locale: space, and tab through carriage return. */
  predicate IsSpace(c: byte) {
    c == ' ' as int || '\t' as int <= c <= '\r' as int
  }

  /** The value of a base-16 digit of either case; None for any other byte. */
  function DigitValue(c: byte): (v: Option<nat>)
    ensures v.Some? ==> v.value < 16
  {
    if '0' as int <= c <= '9' as int then Some(c - '0' as int)
    else if 'A' as int <= c <= 'F' as int then Some(c - 'A' as int + 10)
    else if 'a' as int <= c <= 'f' as int then Some(c - 'a' as int + 10)
    else None
  }

  predicate AllDigits(s: seq<byte>) {
    forall k :: 0 <= k < |s| ==> DigitValue(s[k]).Some?
  }

  /** How many bytes at the front of s are hex digits. */
  function DigitRun(s: seq<byte>): (n: nat)
    ensures n <= |s| && AllDigits(s[..n])
    ensures n < |s| ==> DigitValue(s[n]).None?
    decreases |s|
  {
    if s == [] || DigitValue(s[0]).None? then 0 else 1 + DigitRun(s[1..])
  }

  /** The number a run of hex digits denotes, most significant first. */
  function DigitsValue(s: seq<byte>): (v: nat)
    requires AllDigits(s)
    ensures |s| <= 1 ==> v < 16
    ensures |s| <= 2 ==> v < 256
    decreases |s|
  {
    if s == [] then 0 else 16 * DigitsValue(s[..|s| - 1]) + DigitValue(s[|s| - 1]).value
  }

  /**
   * strtol(s, NULL, 16): skip white space, take an optional sign, then read
   * as many hex digits as there are; no digit at all gives 0.  On one or two
   * bytes a "0x" prefix is read as the digit 0 followed by a stop, which is
   * the same value, and the result is far from LONG_MAX.
   */
  function Strtol16(s: seq<byte>): (v: int)
    requires |s| <= 2
    ensures -16 < v < 256
    decreases |s|
  {
    if |s| > 0 && IsSpace(s[0]) then Strtol16(s[1..])
    else if |s| > 0 && (s[0] == '-' as int || s[0] == '+' as int) then
      var magnitude: int := DigitsValue(s[1..][..DigitRun(s[1..])]);
      if s[0] == '-' as int then -magnitude else magnitude
    else DigitsValue(s[..DigitRun(s)])
  }

  /** `(BYTE)strtol(byteString, NULL, 16)`: the conversion to BYTE keeps the value modulo 256. */
  function ApduByte(byteString: seq<byte>): (b: byte)
    requires |byteString| <= 2
    ensures Strtol16(byteString) >= 0 ==> b == Strtol16(byteString)
    ensures Strtol16(byteString) < 0 ==> b == Strtol16(byteString) + 256
  {
    Strtol16(byteString) % 256
  }

  /** `apdu.substr(i, 2)`: two bytes, or one at the end of an odd-length command. */
  function Substr2(apdu: seq<byte>, i: nat): (s: seq<byte>)
    requires i < |apdu|
    ensures 1 <= |s| <= 2
  {
    apdu[i .. if i + 2 <= |apdu| then i + 2 else |apdu|]
  }

  /**
   * The bytes SendApdu's loop stores for the command bytes `apdu`, in order:
   * byte k comes from bytes 2k and 2k+1, or from the last byte alone when
   * the length is odd.
   */
  function HexToBytes(apdu: seq<byte>): (bytes: seq<byte>)
    ensures |bytes| == (|apdu| + 1) / 2
  {
    seq((|apdu| + 1) / 2, k requires 0 <= k < (|apdu| + 1) / 2 => ApduByte(Substr2(apdu, 2 * k)))
  }

  /** Any two hex digits, of either case, give the byte they spell. */
  lemma {:induction false} PairValue(c0: byte, c1: byte)
    requires DigitValue(c0).Some? && DigitValue(c1).Some?
    ensures ApduByte([c0, c1]) == 16 * DigitValue(c0).value + DigitValue(c1).value
  {
    var s := [c0, c1];
    assert !IsSpace(c0) && c0 != '-' as int && c0 != '+' as int;
    assert s[1..] == [c1] && [c1][1..] == [];
    assert DigitRun(s[1..]) == 1;
    assert DigitRun(s) == 2;
    assert s[..2] == s && s[..1] == [c0] && [c0][..0] == [];
    assert DigitsValue([c0]) == DigitValue(c0).value;
    assert Strtol16(s) == 16 * DigitValue(c0).value + DigitValue(c1).value;
  }

  /**
   * Leading white space is skipped and a sign is honoured, so "-1" becomes
   * 0xFF after the BYTE conversion.
   */
  lemma ApduByteSpaceAndSign()
    ensures ApduByte([0x20, 0x46]) == 0x0F  // " F"
    ensures ApduByte([0x2D, 0x31]) == 0xFF  // "-1"
    ensures ApduByte([0x2B, 0x61]) == 0x0A  // "+a"
  {
    assert [0x20, 0x46][1..] == [0x46] && [0x2D, 0x31][1..] == [0x31] && [0x2B, 0x61][1..] == [0x61];
    assert [0x46][..1] == [0x46] && [0x31][..1] == [0x31] && [0x61][..1] == [0x61];
    assert [0x46][..0] == [] && [0x31][..0] == [] && [0x61][..0] == [];
  }

  /** Reading stops at the first byte that is not a digit, and "0x" is just the digit 0. */
  lemma ApduByteDigitRun()
    ensures ApduByte([0x31, 0x47]) == 0x01  // "1G"
    ensures ApduByte([0x47, 0x31]) == 0x00  // "G1"
    ensures ApduByte([0x30, 0x78]) == 0x00  // "0x"
    ensures ApduByte([0x37]) == 0x07        // "7"
  {
    assert [0x31, 0x47][1..] == [0x47] && [0x30, 0x78][1..] == [0x78];
    assert [0x31, 0x47][..1] == [0x31] && [0x30, 0x78][..1] == [0x30] && [0x37][..1] == [0x37];
    assert [0x31][..0] == [] && [0x30][..0] == [] && [0x37][..0] == [];
  }

  /** A command that is not ASCII is cut by bytes: "é1" is C3 A9 31, read as "\xC3\xA9" and "1". */
  lemma NonAsciiCommand()
    ensures Utf8Value("é1") == [0xC3, 0xA9, 0x31]
    ensures HexToBytes(Utf8Value("é1")) == [0x00, 0x01]
  {
    var apdu: seq<byte> := [0xC3, 0xA9, 0x31];
    assert Substr2(apdu, 0) == [0xC3, 0xA9] && Substr2(apdu, 2) == [0x31];
    assert [0xC3, 0xA9][..0] == [] && [0x31][1..] == [] && [0x31][..1] == [0x31] && [0x31][..0] == [];
  }

  /** The ASCII code of hex digit n as ByteArrayToHex prints it. */
  function DigitCode(n: int): (c: byte)
    requires 0 <= n < 16
    ensures DigitValue(c) == Some(n)
  {
    if n < 10 then '0' as int + n else 'A' as int + n - 10
  }

  lemma DigitCharCode(n: int)
    requires 0 <= n < 16
    ensures DigitChar(n) as int == DigitCode(n)
  {
    assert UpperDigits == ['0','1','2','3','4','5','6','7','8','9','A','B','C','D','E','F'];
  }

  /** strtol reads back the two digits ByteArrayToHex printed for b. */
  lemma ByteHexDecodes(b: byte)
    ensures ApduByte([DigitCode(b / 16), DigitCode(b % 16)]) == b
  {
    PairValue(DigitCode(b / 16), DigitCode(b % 16));
  }

  /** Bytes 2k and 2k+1 of the encoded hex text are the ASCII codes of byte k's two digits. */
  lemma HexBytesAt(data: seq<byte>, k: nat)
    requires k < |data|
    ensures |Utf8Value(HexOf(data))| == 2 * |data|
    ensures Substr2(Utf8Value(HexOf(data)), 2 * k) == [DigitCode(data[k] / 16), DigitCode(data[k] % 16)]
  {
    var hex := HexOf(data);
    HexOfAscii(data);
    Utf8ValueAscii(hex, 0);
    var apdu := Utf8Value(hex);
    HexOfAt(data, k);
    DigitCharCode(data[k] / 16);
    DigitCharCode(data[k] % 16);
    assert apdu[2 * k] == DigitCode(data[k] / 16);
    assert apdu[2 * k + 1] == DigitCode(data[k] % 16);
    assert Substr2(apdu, 2 * k) == [apdu[2 * k], apdu[2 * k + 1]];
  }

  /** Decoding the text ByteArrayToHex made, as its UTF-8 bytes, gives the bytes back. */
  lemma HexRoundTrip(data: seq<byte>)
    ensures |Utf8Value(HexOf(data))| == 2 * |data|
    ensures HexToBytes(Utf8Value(HexOf(data))) == data
  {
    HexOfAscii(data);
    Utf8ValueAscii(HexOf(data), 0);
    var apdu := Utf8Value(HexOf(data));
    forall k | 0 <= k < |data|
      ensures HexToBytes(apdu)[k] == data[k]
    {
      HexBytesAt(data, k);
      ByteHexDecodes(data[k]);
    }
  }

  /**
   * The hex-to-bytes loop of SendApdu: `pbSendBuffer[dwSendLength++] =
   * (BYTE)strtol(apdu.substr(i, 2).c_str(), NULL, 16)` for i = 0, 2, 4, ...
   * The loop has no bounds check: it stays inside the buffer only when the
   * command has at most twice as many bytes as the buffer.
   */
  method FillSendBuffer(apdu: seq<byte>, pbSendBuffer: array<byte>) returns (dwSendLength: nat)
    requires |apdu| <= 2 * pbSendBuffer.Length
    modifies pbSendBuffer
    ensures dwSendLength == (|apdu| + 1) / 2
    ensures pbSendBuffer[..dwSendLength] == HexToBytes(apdu)
    ensures pbSendBuffer[dwSendLength..] == old(pbSendBuffer[dwSendLength..])
  {
    dwSendLength := 0;
    var i := 0;
    while i < |apdu|
      invariant i == 2 * dwSendLength <= |apdu| + 1
      invariant dwSendLength <= pbSendBuffer.Length
      invariant forall k :: 0 <= k < dwSendLength ==> pbSendBuffer[k] == ApduByte(Substr2(apdu, 2 * k))
      invariant forall k :: dwSendLength <= k < pbSendBuffer.Length ==> pbSendBuffer[k] == old(pbSendBuffer[k])
    {
      var byteString := Substr2(apdu, i);
      pbSendBuffer[dwSendLength] := ApduByte(byteString);
      dwSendLength := dwSendLength + 1;
      i := i + 2;
    }
  }

  /**
   * The defect in SendApdu as written: a command of more than 512 bytes
   * makes the loop store more than 256 bytes, past the end of pbSendBuffer.
   */
  lemma SendBufferOverflow(apdu: seq<byte>)
    requires |apdu| > 2 * SendBufferSize
    ensures |HexToBytes(apdu)| > SendBufferSize
  {
  }

  /** A concrete command that overruns the buffer: 514 'F' characters need 257 bytes. */
  lemma OverlongCommand()
    ensures var apdu := seq(514, _ => 'F' as int); |HexToBytes(apdu)| == 257 && |HexToBytes(apdu)| > SendBufferSize
  {
  }

  /** The bound is on bytes, not characters: 200 '€' are only 200 characters but 600 bytes. */
  lemma NonAsciiOverflow()
    ensures var command := seq(200, _ => '€'); |Utf8Value(command)| == 600 > 2 * SendBufferSize
  {
    var command := seq(200, _ => '€');
    Utf8ValueOfEuros(command, 0);
  }

  /**
   * SendApdu's conversion with the bounds check it lacks: a command that
   * would not fit in the 256-byte buffer is refused instead of written.
   */
  method EncodeApdu(apdu: seq<byte>) returns (command: Option<seq<byte>>)
    ensures command.Some? <==> |apdu| <= 2 * SendBufferSize
    ensures command.Some? ==> command.value == HexToBytes(apdu) && |command.value| <= SendBufferSize
  {
    if |apdu| > 2 * SendBufferSize {
      return None;
    }
    var pbSendBuffer := new byte[SendBufferSize];
    var dwSendLength := FillSendBuffer(apdu, pbSendBuffer);
    command := Some(pbSendBuffer[..dwSendLength]);
  }

  /** Any byte string of at most 256 bytes survives ByteArrayToHex followed by the checked conversion. */
  method RoundTripThroughSendBuffer(data: seq<byte>) returns (command: Option<seq<byte>>)
    requires |data| <= SendBufferSize
    ensures command == Some(data)
  {
    HexRoundTrip(data);
    command := EncodeApdu(Utf8Value(HexOf(data)));
  }
}
