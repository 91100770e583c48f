/**
 Strict UTF-8, the encoding of every stored blob (section 3 of RFC 3629).
 A Dafny `char` is a Unicode scalar value, so a string without lone surrogates.
 */
module Utf8 {
  import opened Results

  type Byte = b: int | 0 <= b < 0x100
  type Bytes = seq<Byte>

  function EncodeChar(c: char): Bytes {
    var n := c as int;
    if n < 0x80 then [n]
    else if n < 0x800 then [0xC0 + n / 0x40, 0x80 + n % 0x40]
    else if n < 0x1_0000 then [0xE0 + n / 0x1000, 0x80 + n / 0x40 % 0x40, 0x80 + n % 0x40]
    else [0xF0 + n / 0x4_0000, 0x80 + n / 0x1000 % 0x40, 0x80 + n / 0x40 % 0x40, 0x80 + n % 0x40]
  }

  function Encode(s: string): Bytes {
    if s == "" then [] else EncodeChar(s[0]) + Encode(s[1..])
  }

  /** The payload bits of a byte, once its marker bits are taken off. */
  function Above(b: Byte, marker: int): int { b - marker }

  predicate Continuation(b: Byte) { 0x80 <= b < 0xC0 }

  function Scalar(n: nat, floor: nat): Option<char> {
    if n < floor || 0xD800 <= n < 0xE000 || n >= 0x11_0000 then None else Some(n as char)
  }

  /** The first character and the number of bytes it takes; overlong forms and surrogates are refused. */
  function DecodeChar(b: Bytes): (r: Option<(char, nat)>)
    requires b != []
    ensures r.Some? ==> 0 < r.value.1 <= |b|
  {
    if b[0] < 0x80 then Some((b[0] as char, 1))
    else if 0xC0 <= b[0] < 0xE0 && |b| >= 2 && Continuation(b[1]) then
      match Scalar(Above(b[0], 0xC0) * 0x40 + Above(b[1], 0x80), 0x80)
      case None => None
      case Some(c) => Some((c, 2))
    else if 0xE0 <= b[0] < 0xF0 && |b| >= 3 && Continuation(b[1]) && Continuation(b[2]) then
      match Scalar(Above(b[0], 0xE0) * 0x1000 + Above(b[1], 0x80) * 0x40 + Above(b[2], 0x80), 0x800)
      case None => None
      case Some(c) => Some((c, 3))
    else if 0xF0 <= b[0] < 0xF8 && |b| >= 4 && Continuation(b[1]) && Continuation(b[2]) && Continuation(b[3]) then
      match Scalar(Above(b[0], 0xF0) * 0x4_0000 + Above(b[1], 0x80) * 0x1000 + Above(b[2], 0x80) * 0x40
          + Above(b[3], 0x80), 0x1_0000)
      case None => None
      case Some(c) => Some((c, 4))
    else None
  }

  lemma SixBitGroups(n: nat)
    ensures n == n / 0x40 * 0x40 + n % 0x40
    ensures n / 0x40 == n / 0x1000 * 0x40 + n / 0x40 % 0x40
    ensures n / 0x1000 == n / 0x4_0000 * 0x40 + n / 0x1000 % 0x40
    ensures n / 0x1000 == n / 0x40 / 0x40 && n / 0x4_0000 == n / 0x1000 / 0x40
  {
    assert n / 0x40 / 0x40 == n / 0x1000;
    assert n / 0x1000 / 0x40 == n / 0x4_0000;
  }

  lemma DecodeEncodeChar(c: char, rest: Bytes)
    ensures DecodeChar(EncodeChar(c) + rest) == Some((c, |EncodeChar(c)|))
  {
    var n := c as int;
    SixBitGroups(n);
    var e := EncodeChar(c);
    var b := e + rest;
    assert b[0] == e[0];
    if 0x80 <= n {
      assert b[1] == e[1];
      if 0x800 <= n {
        assert b[2] == e[2];
        if 0x1_0000 <= n {
          assert b[3] == e[3];
        }
      }
    }
  }

  lemma JoinedGroups(high: nat, low: nat)
    requires low < 0x40
    ensures (high * 0x40 + low) / 0x40 == high && (high * 0x40 + low) % 0x40 == low
  {
  }

  lemma ThreeGroups(n: nat, a: nat, b: nat, c: nat)
    requires n == a * 0x1000 + b * 0x40 + c && b < 0x40 && c < 0x40
    ensures n / 0x1000 == a && n / 0x40 % 0x40 == b && n % 0x40 == c && n / 0x40 == a * 0x40 + b
  {
    SixBitGroups(n);
    JoinedGroups(a, b);
    JoinedGroups(a * 0x40 + b, c);
  }

  lemma FourGroups(n: nat, a: nat, b: nat, c: nat, d: nat)
    requires n == a * 0x4_0000 + b * 0x1000 + c * 0x40 + d && b < 0x40 && c < 0x40 && d < 0x40
    ensures n / 0x4_0000 == a && n / 0x1000 % 0x40 == b && n / 0x40 % 0x40 == c && n % 0x40 == d
  {
    SixBitGroups(n);
    ThreeGroups(n, a * 0x40 + b, c, d);
    JoinedGroups(a, b);
  }

  lemma EncodeDecodeChar(b: Bytes)
    requires b != [] && DecodeChar(b).Some?
    ensures var (c, k) := DecodeChar(b).value; EncodeChar(c) == b[..k]
  {
    var (c, k) := DecodeChar(b).value;
    if k == 2 {
      JoinedGroups(Above(b[0], 0xC0), Above(b[1], 0x80));
    } else if k == 3 {
      ThreeGroups(c as int, Above(b[0], 0xE0), Above(b[1], 0x80), Above(b[2], 0x80));
    } else if k == 4 {
      FourGroups(c as int, Above(b[0], 0xF0), Above(b[1], 0x80), Above(b[2], 0x80), Above(b[3], 0x80));
    }
  }

  function Decode(b: Bytes): Option<string> {
    if b == [] then Some("")
    else
      match DecodeChar(b)
      case None => None
      case Some((c, k)) =>
        match Decode(b[k..])
        case None => None
        case Some(s) => Some([c] + s)
  }

  lemma {:induction false} DecodeEncode(s: string)
    ensures Decode(Encode(s)) == Some(s)
  {
    if s != "" {
      var rest := Encode(s[1..]);
      DecodeEncodeChar(s[0], rest);
      assert (EncodeChar(s[0]) + rest)[|EncodeChar(s[0])|..] == rest;
      DecodeEncode(s[1..]);
      assert s == [s[0]] + s[1..];
    }
  }

  lemma EncodeCons(c: char, s: string)
    ensures Encode([c] + s) == EncodeChar(c) + Encode(s)
  {
    assert ([c] + s)[1..] == s;
  }

  lemma DecodeStep(b: Bytes) returns (c: char, k: nat, s: string)
    requires b != [] && Decode(b).Some?
    ensures 0 < k <= |b| && EncodeChar(c) == b[..k]
    ensures Decode(b[k..]) == Some(s) && Decode(b) == Some([c] + s)
  {
    EncodeDecodeChar(b);
    c, k := DecodeChar(b).value.0, DecodeChar(b).value.1;
    s := Decode(b[k..]).value;
  }

  lemma {:induction false} EncodeDecode(b: Bytes)
    requires Decode(b).Some?
    ensures Encode(Decode(b).value) == b
  {
    if b != [] {
      var c, k, s := DecodeStep(b);
      EncodeDecode(b[k..]);
      EncodeCons(c, s);
      assert b == b[..k] + b[k..];
    }
  }

  /** Decoding succeeds exactly on encodings, with the encoded text: the two are inverse. */
  lemma DecodeExact(b: Bytes, s: string)
    ensures Decode(b) == Some(s) <==> b == Encode(s)
  {
    DecodeEncode(s);
    if Decode(b) == Some(s) {
      EncodeDecode(b);
    }
  }
}
