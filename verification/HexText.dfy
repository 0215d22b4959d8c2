/** Hexadecimal text as the two uploaders write it, and how it reads back. */
module HexText {

  type Byte = x: int | 0 <= x < 256

  function HexDigit(d: int): char
    requires 0 <= d < 16
  {
    if d < 10 then '0' + d as char else 'a' + (d - 10) as char
  }

  predicate IsHexDigit(c: char) {
    '0' <= c <= '9' || 'a' <= c <= 'f'
  }

  function DigitValue(c: char): nat {
    if '0' <= c <= '9' then c as int - '0' as int else if 'a' <= c <= 'f' then c as int - 'a' as int + 10 else 0
  }

  /** A number as a stream in `std::hex` mode writes it. */
  function Hex(n: nat): (s: string)
    ensures |s| >= 1 && forall c <- s :: IsHexDigit(c)
  {
    if n < 16 then [HexDigit(n)] else Hex(n / 16) + [HexDigit(n % 16)]
  }

  function HexValue(s: string): nat {
    if s == "" then 0 else 16 * HexValue(s[..|s| - 1]) + DigitValue(s[|s| - 1])
  }

  /** The sixteen digits. */
  lemma {:induction false} DigitTable(d: nat)
    requires d < 16
    ensures HexDigit(d) == "0123456789abcdef"[d] && DigitValue("0123456789abcdef"[d]) == d
  {
    var digits := "0123456789abcdef";
    assert digits[..10] == "0123456789" && digits[10..] == "abcdef";
    if d < 10 {
      assert digits[d] == digits[..10][d] == '0' + d as char;
    } else {
      assert digits[d] == digits[10..][d - 10] == 'a' + (d - 10) as char;
    }
  }

  lemma {:induction false} DigitRoundTrip(d: int)
    requires 0 <= d < 16
    ensures DigitValue(HexDigit(d)) == d
  {
  }

  lemma {:induction false} HexRoundTrip(n: nat)
    ensures HexValue(Hex(n)) == n
  {
    if n < 16 {
      DigitRoundTrip(n);
      assert [HexDigit(n)][..0] == "";
    } else {
      HexRoundTrip(n / 16);
      DigitRoundTrip(n % 16);
      assert Hex(n)[..|Hex(n)| - 1] == Hex(n / 16);
    }
  }

  lemma {:induction false} HexValueDigit(s: string, c: char)
    ensures HexValue(s + [c]) == 16 * HexValue(s) + DigitValue(c)
  {
    assert (s + [c])[..|s|] == s;
  }

  /** A number written without leading zeros. */
  ghost predicate Plain(s: string) {
    s != "" && (forall c <- s :: IsHexDigit(c)) && (s[0] != '0' || |s| == 1)
  }

  lemma {:induction false} PlainInit(s: string)
    requires Plain(s) && |s| > 1
    ensures var k := |s| - 1; Plain(s[..k]) && s[..k][0] != '0' && IsHexDigit(s[k])
  {
    var k := |s| - 1;
    assert forall c <- s[..k] :: c in s;
    assert s[k] in s;
  }

  lemma {:induction false} Positive(s: string)
    requires Plain(s) && s[0] != '0'
    ensures HexValue(s) > 0
  {
    var k := |s| - 1;
    if k == 0 {
      assert s[..0] == "" && s[0] in s;
    } else {
      PlainInit(s);
      Positive(s[..k]);
    }
  }

  /** The text of a number has no leading zero. */
  lemma {:induction false} HexPlain(n: nat)
    ensures Plain(Hex(n)) && (n > 0 ==> Hex(n)[0] != '0')
  {
    if n < 16 {
    } else {
      HexPlain(n / 16);
    }
  }

  /** Together with the table of the digits this makes the text of a number the only one. */
  lemma {:induction false} HexUnique(s: string)
    requires Plain(s)
    ensures s == Hex(HexValue(s))
  {
    var k := |s| - 1;
    assert s == s[..k] + [s[k]] && s[k] in s;
    HexValueDigit(s[..k], s[k]);
    DigitBack(s[k]);
    if k == 0 {
      assert s[..0] == "" && s == [s[k]];
    } else {
      PlainInit(s);
      Positive(s[..k]);
      HexUnique(s[..k]);
    }
  }

  lemma {:induction false} DigitBack(c: char)
    requires IsHexDigit(c)
    ensures DigitValue(c) < 16 && HexDigit(DigitValue(c)) == c
  {
  }

  /** The two digits of a byte. */
  function ByteText(b: Byte): (s: string)
    ensures |s| == 2 && forall c <- s :: IsHexDigit(c)
  {
    [HexDigit(b / 16), HexDigit(b % 16)]
  }

  /** `byteToAsciiString` of the serial port tools. */
  function ByteToAscii(c: Byte): string {
    (if c <= 0xf then "0" else "") + Hex(c)
  }

  /** `std::setw` and `std::setfill('0')`. */
  function Filled(s: string, width: nat): string {
    seq(if |s| < width then width - |s| else 0, _ => '0') + s
  }

  /** A plain `char`, and its conversion to `unsigned char`. */
  type Char = x: int | -128 <= x < 128

  function ToByte(c: Char): (b: Byte)
    ensures b == c || b == c + 256
  {
    c % 256
  }

  /** What a byte of a file becomes when it is read into a plain `char`. */
  function FromByte(b: Byte): (c: Char)
    ensures c == b || c == b - 256
    ensures ToByte(c) == b
  {
    if b < 128 then b else b - 256
  }

  /** `charToHexString` of the W2 uploader. */
  function CharToHex(c: Char): string {
    Filled(Hex(ToByte(c)), 2)
  }

  /** Both encoders write a byte as its two digits. */
  lemma {:induction false} EncodersAgree(b: Byte, c: Char)
    ensures ByteToAscii(b) == ByteText(b)
    ensures CharToHex(c) == ByteText(ToByte(c))
  {
    TwoDigits(b);
    TwoDigits(ToByte(c));
    if ToByte(c) < 16 {
      assert Filled(Hex(ToByte(c)), 2) == "0" + Hex(ToByte(c));
    } else {
      assert Filled(Hex(ToByte(c)), 2) == Hex(ToByte(c));
    }
  }

  lemma {:induction false} TwoDigits(b: Byte)
    ensures if b < 16 then "0" + Hex(b) == ByteText(b) else Hex(b) == ByteText(b)
  {
    if b >= 16 {
      assert Hex(b / 16) == [HexDigit(b / 16)];
    } else {
      assert HexDigit(0) == '0';
    }
  }
}
