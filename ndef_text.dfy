/**
 * ParseNDEFText (nfc-addon.cpp): a simplified reader of the payload of an
 * NFC Forum Text record (Text Record Type Definition, section 3.2.1).  The
 * first byte is the status byte, whose low six bits give the length of the
 * IANA language code that follows it; everything after the language code is
 * returned as the text, byte for byte.
 */
module NdefText {
  import opened Hex

  /** Responses shorter than this are not parsed at all. */
  const MinimumLength: nat := 5

  /** `a & b` on unsigned values: bit k of the result is set iff bit k is set in both. */
  function BitAnd(a: nat, b: nat): nat
  {
    if a == 0 || b == 0 then 0
    else 2 * BitAnd(a / 2, b / 2) + (if a % 2 == 1 && b % 2 == 1 then 1 else 0)
  }

  function Pow2(k: nat): (p: nat)
    ensures p >= 1
  {
    if k == 0 then 1 else 2 * Pow2(k - 1)
  }

  /** Masking with 2^k - 1 keeps the low k bits: the remainder modulo 2^k. */
  lemma {:induction false} LowBitsMask(x: nat, k: nat)
    ensures BitAnd(x, Pow2(k) - 1) == x % Pow2(k)
  {
    if k > 0 {
      LowBitsMask(x / 2, k - 1);
      var half := Pow2(k - 1);
      assert (Pow2(k) - 1) / 2 == half - 1;
      assert x % Pow2(k) == 2 * ((x / 2) % half) + x % 2 by {
        RemainderOfHalf(x, half);
      }
    }
  }

  lemma RemainderOfHalf(x: nat, half: nat)
    requires half >= 1
    ensures x % (2 * half) == 2 * ((x / 2) % half) + x % 2
  {
    var m := 2 * ((x / 2) % half) + x % 2;
    assert x == (2 * half) * ((x / 2) / half) + m;
    RemainderUnique(x, 2 * half, (x / 2) / half, m);
  }

  /** x = d*q + r with 0 <= r < d pins down x % d. */
  lemma RemainderUnique(x: int, d: int, q: int, r: int)
    requires 0 <= r < d && x == d * q + r
    ensures x % d == r
  {
    var k := q - x / d;
    assert d * q == d * (x / d) + d * k by {
      Distribute(d, x / d, k);
    }
    if k >= 1 {
      MulAtLeast(d, k);
    } else if k <= -1 {
      MulAtLeast(d, -k);
    }
  }

  lemma Distribute(d: int, a: int, b: int)
    ensures d * (a + b) == d * a + d * b
  {
  }

  lemma {:induction false} MulAtLeast(d: int, k: int)
    requires d > 0 && k >= 1
    ensures d * k >= d
    decreases k
  {
    if k > 1 {
      MulAtLeast(d, k - 1);
      Distribute(d, k - 1, 1);
    }
  }

  /** `status & 0x3F`: the language-code length; bits 7 (UTF-16) and 6 (reserved) are ignored. */
  function LangLen(status: byte): (n: nat)
    ensures n < 64
    ensures n == status % 64
  {
    LowBitsMask(status, 6);
    BitAnd(status, 0x3F)
  }

  /** ParseNDEFText(data, length), with `data` standing for the first `length` bytes of the buffer. */
  function ParseNdefText(data: seq<byte>): (text: seq<byte>)
    ensures |data| < MinimumLength ==> text == []
    ensures text != [] ==> |data| >= MinimumLength && |text| == |data| - 1 - LangLen(data[0])
    ensures text == data[|data| - |text|..]
  {
    if |data| < MinimumLength then []
    else
      var langLen := LangLen(data[0]);
      if |data| < langLen + 1 then [] else data[1 + langLen..]
  }

  /** A long enough response whose language code fits yields exactly the bytes after the code. */
  lemma ParseNdefTextSlice(data: seq<byte>)
    requires |data| >= MinimumLength && |data| >= LangLen(data[0]) + 1
    ensures ParseNdefText(data) == data[1 + LangLen(data[0])..]
    ensures |ParseNdefText(data)| == |data| - 1 - LangLen(data[0])
  {
  }

  /** A language-code length that runs past the end yields "", whatever the flag bits say. */
  lemma ParseNdefTextOverlong(data: seq<byte>)
    requires |data| >= 1 && |data| < (data[0] % 64) + 1
    ensures ParseNdefText(data) == []
  {
  }

  /**
   * A Text record payload as section 3.2.1 of the NFC Forum Text Record Type Definition lays it out: the status byte
   * (bit 7 set for UTF-16, bits 5..0 the language-code length), the language
   * code, then the text.
   */
  function TextPayload(utf16: bool, lang: seq<byte>, text: seq<byte>): (payload: seq<byte>)
    requires |lang| < 64
    ensures |payload| == 1 + |lang| + |text|
  {
    [(if utf16 then 0x80 else 0x00) + |lang|] + lang + text
  }

  /** ParseNDEFText recovers the text of any payload of at least five bytes, in either encoding. */
  lemma ParseTextPayload(utf16: bool, lang: seq<byte>, text: seq<byte>)
    requires |lang| < 64
    requires 1 + |lang| + |text| >= MinimumLength
    ensures ParseNdefText(TextPayload(utf16, lang, text)) == text
  {
    var payload := TextPayload(utf16, lang, text);
    assert LangLen(payload[0]) == |lang|;
    assert payload[1 + |lang|..] == text;
  }
}
