/** What the reader accepts beside the canonical text: every escape of a character, and white space between tokens. */
module JsonReader {
  import opened Results
  import opened Json

  const UPPER_HEX := "0123456789ABCDEF"
  const LOWER_HEX := "0123456789abcdef"

  /** One hexadecimal digit, in either case. */
  function HexOf(n: int, upper: bool): char
    requires 0 <= n < 16
  {
    if upper then UPPER_HEX[n] else LOWER_HEX[n]
  }

  lemma HexOfIsRead(n: int, upper: bool)
    requires 0 <= n < 16
    ensures HexValue(HexOf(n, upper)) == Some(n as nat)
  {
  }

  function FourHex(n: int, upper: bool): (digits: string)
    requires 0 <= n < 0x1_0000
    ensures |digits| == 4
  {
    [HexOf(n / 0x1000, upper), HexOf(n / 0x100 % 0x10, upper), HexOf(n / 0x10 % 0x10, upper), HexOf(n % 0x10, upper)]
  }

  lemma LastHexDigit(n: nat)
    ensures n == n / 0x10 * 0x10 + n % 0x10
  {
  }

  lemma FourDigits(n: nat)
    ensures n == n / 0x1000 * 0x1000 + n / 0x100 % 0x10 * 0x100 + n / 0x10 % 0x10 * 0x10 + n % 0x10
  {
    assert n / 0x10 / 0x10 == n / 0x100 && n / 0x100 / 0x10 == n / 0x1000;
    LastHexDigit(n);
    LastHexDigit(n / 0x10);
    LastHexDigit(n / 0x100);
  }

  lemma FourHexIsRead(n: int, upper: bool, rest: string)
    requires 0 <= n < 0x1_0000
    ensures Hex4(FourHex(n, upper) + rest) == Some(n as nat)
  {
    HexOfIsRead(n / 0x1000, upper);
    HexOfIsRead(n / 0x100 % 0x10, upper);
    HexOfIsRead(n / 0x10 % 0x10, upper);
    HexOfIsRead(n % 0x10, upper);
    FourDigits(n);
    var s := FourHex(n, upper);
    assert (s + rest)[0] == s[0] && (s + rest)[1] == s[1] && (s + rest)[2] == s[2] && (s + rest)[3] == s[3];
  }

  /** The UTF-16 escape of a character without its start, as section 7 of RFC 8259 defines it. */
  function EscapeTail(c: char, upper: bool): string {
    var n := c as int;
    if n < 0x1_0000 then FourHex(n, upper)
    else FourHex(High(n), upper) + ("\\u" + FourHex(Low(n), upper))
  }

  function High(n: nat): (high: nat)
    requires 0x1_0000 <= n < 0x11_0000
    ensures 0xD800 <= high < 0xDC00
  {
    0xD800 + (n - 0x1_0000) / 0x400
  }

  function Low(n: nat): (low: nat)
    ensures 0xDC00 <= low < 0xE000
  {
    0xDC00 + n % 0x400
  }

  lemma PairSplits(n: nat)
    requires 0x1_0000 <= n < 0x11_0000
    ensures n == 0x1_0000 + (High(n) - 0xD800) * 0x400 + (Low(n) - 0xDC00)
  {
  }

  lemma SingleIsRead(n: nat, upper: bool, rest: string)
    requires n < 0xD800 || 0xE000 <= n < 0x1_0000
    ensures ParseUnicodeEscape(FourHex(n, upper) + rest) == Read(n as char, rest)
  {
    FourHexIsRead(n, upper, rest);
    assert (FourHex(n, upper) + rest)[4..] == rest;
  }

  lemma PairIsRead(high: nat, low: nat, upper: bool, rest: string, n: nat)
    requires 0xD800 <= high < 0xDC00 && 0xDC00 <= low < 0xE000
    requires n == 0x1_0000 + (high - 0xD800) * 0x400 + (low - 0xDC00)
    ensures ParseUnicodeEscape(FourHex(high, upper) + ("\\u" + (FourHex(low, upper) + rest))) == Read(n as char, rest)
  {
    var tail := FourHex(low, upper) + rest;
    FourHexIsRead(high, upper, "\\u" + tail);
    FourHexIsRead(low, upper, rest);
    PairParts(FourHex(high, upper), tail, rest);
  }

  lemma PairParts(first: string, tail: string, rest: string)
    requires |first| == 4 && |tail| >= 4 && tail[4..] == rest
    ensures var s := first + ("\\u" + tail);
            |s| >= 10 && s[4] == '\\' && s[5] == 'u' && s[6..] == tail && s[10..] == rest
  {
    var s := first + ("\\u" + tail);
    assert s[6..] == tail;
    assert s[10..] == tail[4..];
  }

  lemma Appended(a: string, b: string, c: string, d: string)
    ensures (a + (b + c)) + d == a + (b + (c + d))
  {
  }

  lemma EscapeTailIsRead(c: char, upper: bool, rest: string)
    ensures ParseUnicodeEscape(EscapeTail(c, upper) + rest) == Read(c, rest)
  {
    var n := c as int;
    if n < 0x1_0000 {
      SingleIsRead(n, upper, rest);
    } else {
      PairSplits(n);
      PairIsRead(High(n), Low(n), upper, rest, n);
      Appended(FourHex(High(n), upper), "\\u", FourHex(Low(n), upper), rest);
    }
  }

  lemma EscapeIsParsed(text: string)
    ensures ParseChar("\\u" + text) == ParseUnicodeEscape(text)
  {
    assert ("\\u" + text)[1..] == "u" + text && ("u" + text)[1..] == text;
  }

  /** Every character is read from its UTF-16 escape, in either case of the digits. */
  lemma UnicodeEscapeIsRead(c: char, upper: bool, rest: string)
    ensures ParseChar("\\u" + (EscapeTail(c, upper) + rest)) == Read(c, rest)
  {
    EscapeTailIsRead(c, upper, rest);
    EscapeIsParsed(EscapeTail(c, upper) + rest);
  }

  /** The eight short escapes, among them the slash, which is never written. */
  lemma ShortEscapesAreRead(rest: string)
    ensures ParseChar("\\\"" + rest) == Read('"', rest) && ParseChar("\\\\" + rest) == Read('\\', rest)
    ensures ParseChar("\\/" + rest) == Read('/', rest)
    ensures ParseChar("\\b" + rest) == Read(0x08 as char, rest) && ParseChar("\\f" + rest) == Read(0x0C as char, rest)
    ensures ParseChar("\\n" + rest) == Read(0x0A as char, rest) && ParseChar("\\r" + rest) == Read(0x0D as char, rest)
    ensures ParseChar("\\t" + rest) == Read(0x09 as char, rest)
  {
    forall e: char ensures ("\\" + [e] + rest)[1..][1..] == rest && ("\\" + [e] + rest)[1] == e {
    }
  }

  /** White space is the four characters of section 2 of RFC 8259, and any amount of it is skipped. */
  lemma {:induction false} SpaceIsSkipped(space: string, rest: string)
    requires forall i | 0 <= i < |space| :: space[i] as int in {0x20, 0x09, 0x0A, 0x0D}
    requires rest == "" || rest[0] as int !in {0x20, 0x09, 0x0A, 0x0D}
    ensures SkipSpace(space + rest) == rest
  {
    if space == "" {
      assert space + rest == rest;
    } else {
      assert (space + rest)[1..] == space[1..] + rest;
      SpaceIsSkipped(space[1..], rest);
    }
  }
}
