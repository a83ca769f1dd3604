/** Byte strings, hexadecimal and decimal text, as the node prints and parses them. */
module Text {

  type Byte = x: int | 0 <= x < 256

  /** A 32-byte hash value. */
  type Digest = s: seq<Byte> | |s| == 32 witness seq(32, _ => 0)

  datatype Option<+T> = None | Some(value: T)

  const HEX_DIGITS: string := "0123456789abcdef"

  predicate IsHexDigit(c: char) {
    '0' <= c <= '9' || 'a' <= c <= 'f' || 'A' <= c <= 'F'
  }

  predicate IsHex(s: string) {
    forall i :: 0 <= i < |s| ==> IsHexDigit(s[i])
  }

  function HexValue(c: char): (v: nat)
    requires IsHexDigit(c)
    ensures v < 16
  {
    if c <= '9' then c as int - '0' as int
    else if c >= 'a' then c as int - 'a' as int + 10
    else c as int - 'A' as int + 10
  }

  /** Lower-case hexadecimal, two digits a byte. */
  function EncodeHex(bytes: seq<Byte>): (s: string)
    ensures |s| == 2 * |bytes| && IsHex(s)
  {
    if bytes == [] then ""
    else [HEX_DIGITS[bytes[0] / 16], HEX_DIGITS[bytes[0] % 16]] + EncodeHex(bytes[1..])
  }

  /** Accepts both cases; fails on an odd length or on a character that is no hex digit. */
  function DecodeHex(s: string): (r: Option<seq<Byte>>)
    ensures r.Some? ==> 2 * |r.value| == |s|
  {
    if s == "" then Some([])
    else if |s| == 1 || !IsHexDigit(s[0]) || !IsHexDigit(s[1]) then None
    else
      match DecodeHex(s[2..])
      case None => None
      case Some(rest) => Some([(16 * HexValue(s[0]) + HexValue(s[1])) as Byte] + rest)
  }

  /** Decoding undoes encoding, so encoding is injective. */
  lemma {:induction false} DecodeEncodeHex(bytes: seq<Byte>)
    ensures DecodeHex(EncodeHex(bytes)) == Some(bytes)
  {
    if bytes != [] {
      DecodeEncodeHex(bytes[1..]);
      var s := EncodeHex(bytes);
      assert s[2..] == EncodeHex(bytes[1..]);
      HexDigitValue(bytes[0] / 16);
      HexDigitValue(bytes[0] % 16);
      assert bytes == [bytes[0]] + bytes[1..];
    }
  }

  lemma HexDigitValue(v: nat)
    requires v < 16
    ensures IsHexDigit(HEX_DIGITS[v]) && HexValue(HEX_DIGITS[v]) == v
  {
  }

  function LowerChar(c: char): char {
    if 'A' <= c <= 'Z' then (c as int + 32) as char else c
  }

  /** The text in lower-case letters. */
  function Lower(s: string): (t: string)
    ensures |t| == |s|
  {
    seq(|s|, i requires 0 <= i < |s| => LowerChar(s[i]))
  }

  lemma DigitOfValue(c: char)
    requires IsHexDigit(c)
    ensures HEX_DIGITS[HexValue(c)] == LowerChar(c)
  {
    if c <= '9' {
      assert c == '0' || c == '1' || c == '2' || c == '3' || c == '4' || c == '5' || c == '6' || c == '7' || c == '8' || c == '9';
    } else if c >= 'a' {
      assert c == 'a' || c == 'b' || c == 'c' || c == 'd' || c == 'e' || c == 'f';
    } else {
      assert c == 'A' || c == 'B' || c == 'C' || c == 'D' || c == 'E' || c == 'F';
    }
  }

  /** A text decodes if and only if it consists of an even number of hexadecimal digits. */
  lemma {:induction false} DecodesIff(s: string)
    ensures DecodeHex(s).Some? <==> |s| % 2 == 0 && IsHex(s)
  {
    if |s| >= 2 {
      DecodesIff(s[2..]);
      if IsHex(s[2..]) && IsHexDigit(s[0]) && IsHexDigit(s[1]) {
        assert forall i :: 2 <= i < |s| ==> s[i] == s[2..][i - 2];
      }
    }
  }

  lemma DecodeStep(s: string)
    requires |s| >= 2 && DecodeHex(s).Some?
    ensures IsHexDigit(s[0]) && IsHexDigit(s[1]) && DecodeHex(s[2..]).Some?
    ensures DecodeHex(s).value == [16 * HexValue(s[0]) + HexValue(s[1])] + DecodeHex(s[2..]).value
  {
  }

  lemma EncodeStep(high: nat, low: nat, rest: seq<Byte>, bytes: seq<Byte>)
    requires high < 16 && low < 16 && bytes == [16 * high + low] + rest
    ensures EncodeHex(bytes) == [HEX_DIGITS[high], HEX_DIGITS[low]] + EncodeHex(rest)
  {
    assert bytes[1..] == rest && bytes[0] / 16 == high && bytes[0] % 16 == low;
  }

  lemma LowerStep(s: string)
    requires |s| >= 2
    ensures Lower(s) == [LowerChar(s[0]), LowerChar(s[1])] + Lower(s[2..])
  {
  }

  /** Encoding undoes decoding, up to capitals: so two texts decode alike if and only if they are the
      same in lower case. */
  lemma {:induction false} EncodeDecodeHex(s: string)
    requires DecodeHex(s).Some?
    ensures EncodeHex(DecodeHex(s).value) == Lower(s)
  {
    if s != "" {
      DecodeStep(s);
      var high, low, rest := HexValue(s[0]), HexValue(s[1]), DecodeHex(s[2..]).value;
      EncodeDecodeHex(s[2..]);
      EncodeStep(high, low, rest, DecodeHex(s).value);
      DigitOfValue(s[0]);
      DigitOfValue(s[1]);
      LowerStep(s);
    }
  }

  predicate IsDecimal(s: string) {
    forall i :: 0 <= i < |s| ==> '0' <= s[i] <= '9'
  }

  /** A number in base ten, without leading zeros. */
  function Decimal(n: nat): (s: string)
    ensures |s| > 0 && IsDecimal(s)
  {
    if n < 10 then [('0' as int + n) as char]
    else Decimal(n / 10) + [('0' as int + n % 10) as char]
  }

  function ParseDecimal(s: string): nat
    requires IsDecimal(s)
  {
    if s == "" then 0
    else 10 * ParseDecimal(s[..|s| - 1]) + (s[|s| - 1] as int - '0' as int)
  }

  lemma {:induction false} ParseDecimalInverts(n: nat)
    ensures ParseDecimal(Decimal(n)) == n
  {
    if n >= 10 {
      ParseDecimalInverts(n / 10);
      assert Decimal(n)[..|Decimal(n)| - 1] == Decimal(n / 10);
    }
  }

  /** The UTF-8 bytes of one character. */
  function Utf8Char(c: char): (bytes: seq<Byte>)
    ensures |bytes| > 0
    ensures c as int < 128 ==> bytes == [c as int]
  {
    var n := c as int;
    if n < 0x80 then [n]
    else if n < 0x800 then [0xC0 + n / 0x40, 0x80 + n % 0x40]
    else if n < 0x1_0000 then [0xE0 + n / 0x1000, 0x80 + n / 0x40 % 0x40, 0x80 + n % 0x40]
    else [0xF0 + n / 0x4_0000, 0x80 + n / 0x1000 % 0x40, 0x80 + n / 0x40 % 0x40, 0x80 + n % 0x40]
  }

  function Utf8(s: string): seq<Byte> {
    if s == "" then [] else Utf8Char(s[0]) + Utf8(s[1..])
  }

  predicate IsAscii(s: string) {
    forall i :: 0 <= i < |s| ==> s[i] as int < 128
  }

  /** Two ASCII texts with the same bytes are the same text. */
  lemma {:induction false} Utf8Injective(s: string, t: string)
    requires IsAscii(s) && IsAscii(t) && Utf8(s) == Utf8(t)
    ensures s == t
  {
    if s != "" && t != "" {
      assert Utf8(s)[0] == s[0] as int && Utf8(t)[0] == t[0] as int;
      assert Utf8(s)[1..] == Utf8(s[1..]) && Utf8(t)[1..] == Utf8(t[1..]);
      Utf8Injective(s[1..], t[1..]);
      assert s == [s[0]] + s[1..] && t == [t[0]] + t[1..];
    }
  }

  /** ASCII text is one byte a character. */
  lemma {:induction false} Utf8OfAscii(s: string)
    requires IsAscii(s)
    ensures |Utf8(s)| == |s| && forall i :: 0 <= i < |s| ==> Utf8(s)[i] == s[i] as int
  {
    if s != "" {
      Utf8OfAscii(s[1..]);
      assert Utf8(s) == [s[0] as int] + Utf8(s[1..]);
    }
  }

  /** Some bytes, numbers and characters written out. */
  lemma HexSample()
    ensures EncodeHex([0x1f, 0xa9]) == "1fa9"
  {
    assert EncodeHex([]) == "";
    EncodeStep(0xa, 0x9, [], [0xa9]);
    EncodeStep(0x1, 0xf, [0xa9], [0x1f, 0xa9]);
  }

  lemma DecimalSample()
    ensures Decimal(0) == "0" && Decimal(1203) == "1203"
  {
    assert Decimal(1) == "1";
    assert Decimal(12) == "12";
    assert Decimal(120) == "120";
  }

  lemma Utf8Sample()
    ensures Utf8Char('\U{00E9}') == [0xC3, 0xA9]
    ensures Utf8Char('\U{20AC}') == [0xE2, 0x82, 0xAC]
    ensures Utf8Char('\U{1F600}') == [0xF0, 0x9F, 0x98, 0x80]
  {
  }
}
