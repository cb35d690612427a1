/** Byte-level text encodings used when the upload request is built: the
    ASCII and UTF-8 encoders of the .NET runtime, the lower-case hexadecimal
    formatting of a 64-bit tick count, and the unchecked narrowing of a
    64-bit length to a 32-bit signed integer. */
module Encoding {

  newtype byte = b: int | 0 <= b < 256

  datatype Option<T> = None | Some(value: T)

  const Int32Limit: int := 0x8000_0000
  const Word32: int := 0x1_0000_0000

  /** `(int)n` in an unchecked C# context: keep the low 32 bits and read
      them as a two's-complement signed value. The result is the unique
      32-bit signed integer congruent to `n` modulo 2^32. */
  function Int32Cast(n: int): (r: int)
    ensures -Int32Limit <= r < Int32Limit
    ensures (n - r) % Word32 == 0
    ensures 0 <= n < Int32Limit ==> r == n
  {
    var low := n % Word32;
    if low < Int32Limit then low else low - Word32
  }

  // ---------------------------------------------------------------------
  // Characters

  predicate IsAsciiChar(c: char) { c as int < 0x80 }

  predicate IsAscii(s: string) { forall i :: 0 <= i < |s| ==> IsAsciiChar(s[i]) }

  /** A Unicode scalar value (a value Dafny's `char` can hold). */
  predicate IsScalar(v: int) { 0 <= v < 0xD800 || 0xE000 <= v < 0x11_0000 }

  // ---------------------------------------------------------------------
  // ASCII (System.Text.Encoding.ASCII.GetBytes)

  /** The ASCII encoder's bytes for one character: the code itself below
      0x80, otherwise the replacement '?' once per UTF-16 code unit (a
      character above 0xFFFF is a surrogate pair, hence two). */
  function AsciiChar(c: char): (r: seq<byte>)
    ensures IsAsciiChar(c) ==> r == [c as int as byte]
    ensures !IsAsciiChar(c) ==> forall i :: 0 <= i < |r| ==> r[i] == '?' as int as byte
    ensures 1 <= |r| <= 2
  {
    if c as int < 0x80 then [c as int as byte]
    else if c as int < 0x1_0000 then ['?' as int as byte]
    else ['?' as int as byte, '?' as int as byte]
  }

  /** The ASCII encoder's bytes for a text: one or two per character. */
  function Ascii(s: string): (r: seq<byte>)
    ensures |s| <= |r| <= 2 * |s|
  {
    if s == [] then [] else AsciiChar(s[0]) + Ascii(s[1..])
  }

  lemma {:induction false} AsciiAppend(a: string, b: string)
    ensures Ascii(a + b) == Ascii(a) + Ascii(b)
  {
    if a == [] {
      assert a + b == b;
    } else {
      assert (a + b)[1..] == a[1..] + b;
      AsciiAppend(a[1..], b);
    }
  }

  /** On an ASCII string the ASCII encoder is lossless: one byte per
      character, equal to the character's code. */
  lemma {:induction false} AsciiOfAscii(s: string)
    requires IsAscii(s)
    ensures |Ascii(s)| == |s|
    ensures forall i :: 0 <= i < |s| ==> Ascii(s)[i] == s[i] as int as byte
  {
    if s != [] {
      AsciiOfAscii(s[1..]);
    }
  }

  // ---------------------------------------------------------------------
  // UTF-8 (System.Text.Encoding.UTF8.GetBytes)

  /** The UTF-8 form of one scalar value (RFC 3629, section 3). */
  function Utf8Char(c: char): (r: seq<byte>)
    ensures 1 <= |r| <= 4
    ensures (|r| == 1) == IsAsciiChar(c)
    ensures |r| == 1 ==> r[0] as int == c as int
    ensures |r| > 1 ==> forall i :: 0 <= i < |r| ==> r[i] >= 0x80
  {
    var v := c as int;
    if v < 0x80 then
      [v as byte]
    else if v < 0x800 then
      [(0xC0 + v / 64) as byte, (0x80 + v % 64) as byte]
    else if v < 0x1_0000 then
      [(0xE0 + v / 4096) as byte, (0x80 + v / 64 % 64) as byte, (0x80 + v % 64) as byte]
    else
      [(0xF0 + v / 262144) as byte, (0x80 + v / 4096 % 64) as byte,
       (0x80 + v / 64 % 64) as byte, (0x80 + v % 64) as byte]
  }

  /** The UTF-8 form of a text: one to four bytes per character. */
  function Utf8(s: string): (r: seq<byte>)
    ensures |s| <= |r| <= 4 * |s|
  {
    if s == [] then [] else Utf8Char(s[0]) + Utf8(s[1..])
  }

  lemma {:induction false} Utf8Append(a: string, b: string)
    ensures Utf8(a + b) == Utf8(a) + Utf8(b)
  {
    if a == [] {
      assert a + b == b;
    } else {
      assert (a + b)[1..] == a[1..] + b;
      Utf8Append(a[1..], b);
    }
  }

  predicate IsContinuation(b: byte) { 0x80 <= b < 0xC0 }

  /** Decodes the first scalar value of `b`, rejecting truncated, overlong
      and surrogate forms; yields the character and the bytes it took. */
  function Utf8DecodeFirst(b: seq<byte>): (r: Option<(char, nat)>)
    ensures r.Some? ==> 1 <= r.value.1 <= |b|
  {
    if |b| == 0 then None
    else if b[0] < 0x80 then Some((b[0] as int as char, 1))
    else if b[0] < 0xC0 then None
    else if b[0] < 0xE0 then
      if |b| < 2 || !IsContinuation(b[1]) then None
      else
        var v := (b[0] as int - 0xC0) * 64 + (b[1] as int - 0x80);
        if v < 0x80 then None else Some((v as char, 2))
    else if b[0] < 0xF0 then
      if |b| < 3 || !IsContinuation(b[1]) || !IsContinuation(b[2]) then None
      else
        var v := (b[0] as int - 0xE0) * 4096 + (b[1] as int - 0x80) * 64 + (b[2] as int - 0x80);
        if v < 0x800 || !IsScalar(v) then None else Some((v as char, 3))
    else
      if |b| < 4 || !IsContinuation(b[1]) || !IsContinuation(b[2]) || !IsContinuation(b[3]) then None
      else
        var v := (b[0] as int - 0xF0) * 262144 + (b[1] as int - 0x80) * 4096
                 + (b[2] as int - 0x80) * 64 + (b[3] as int - 0x80);
        if v < 0x1_0000 || 0x11_0000 <= v then None else Some((v as char, 4))
  }

  /** A strict UTF-8 decoder: the inverse of `Utf8`. */
  function Utf8Decode(b: seq<byte>): Option<string>
    decreases |b|
  {
    if b == [] then Some([])
    else match Utf8DecodeFirst(b)
      case None => None
      case Some((c, n)) =>
        match Utf8Decode(b[n..])
        case None => None
        case Some(rest) => Some([c] + rest)
  }

  lemma Utf8DecodeFirstOfChar(c: char, rest: seq<byte>)
    ensures Utf8DecodeFirst(Utf8Char(c) + rest) == Some((c, |Utf8Char(c)|))
  {
    var v := c as int;
    if v < 0x80 {
    } else if v < 0x800 {
      DecodeTwo(c, rest);
    } else if v < 0x1_0000 {
      DecodeThree(c, rest);
    } else {
      DecodeFour(c, rest);
    }
  }

  lemma DecodeTwo(c: char, rest: seq<byte>)
    requires 0x80 <= c as int < 0x800
    ensures Utf8DecodeFirst(Utf8Char(c) + rest) == Some((c, 2))
  {
    var v := c as int;
    var e := Utf8Char(c) + rest;
    var d0, d1 := v / 64, v % 64;
    assert e[0] as int == 0xC0 + d0 && e[1] as int == 0x80 + d1;
    assert d0 * 64 + d1 == v;
  }

  lemma DecodeThree(c: char, rest: seq<byte>)
    requires 0x800 <= c as int < 0x1_0000
    ensures Utf8DecodeFirst(Utf8Char(c) + rest) == Some((c, 3))
  {
    var v := c as int;
    var e := Utf8Char(c) + rest;
    var d0, d1, d2 := v / 4096, v / 64 % 64, v % 64;
    assert e[0] as int == 0xE0 + d0 && e[1] as int == 0x80 + d1 && e[2] as int == 0x80 + d2;
    assert d0 * 4096 + d1 * 64 + d2 == v;
  }

  lemma DecodeFour(c: char, rest: seq<byte>)
    requires 0x1_0000 <= c as int
    ensures Utf8DecodeFirst(Utf8Char(c) + rest) == Some((c, 4))
  {
    var v := c as int;
    var e := Utf8Char(c) + rest;
    var d0, d1, d2, d3 := v / 262144, v / 4096 % 64, v / 64 % 64, v % 64;
    assert e[0] as int == 0xF0 + d0 && e[1] as int == 0x80 + d1;
    assert e[2] as int == 0x80 + d2 && e[3] as int == 0x80 + d3;
    var q1, q2 := v / 64, v / 4096;
    DivideBy64(v);
    DivideBy64(q1);
    DivideBy64(q2);
    assert v / 262144 == q2 / 64 && q2 == q1 / 64;
  }

  /** The base-64 digits of a value, read off by successive division. */
  lemma DivideBy64(v: int)
    requires 0 <= v
    ensures v == 64 * (v / 64) + v % 64
    ensures v / 4096 == v / 64 / 64
    ensures v / 262144 == v / 4096 / 64
  {
    var q := v / 64;
    var r := v % 64;
    var q2 := q / 64;
    assert v == 4096 * q2 + (64 * (q % 64) + r);
    var q3 := q2 / 64;
    assert v == 262144 * q3 + (4096 * (q2 % 64) + 64 * (q % 64) + r);
  }

  /** Decoding the UTF-8 form of any string gives the string back, so the
      encoder loses nothing and is injective. */
  lemma {:induction false} Utf8RoundTrip(s: string)
    ensures Utf8Decode(Utf8(s)) == Some(s)
  {
    if s != [] {
      var e := Utf8(s);
      Utf8DecodeFirstOfChar(s[0], Utf8(s[1..]));
      assert e[|Utf8Char(s[0])|..] == Utf8(s[1..]);
      Utf8RoundTrip(s[1..]);
      assert [s[0]] + s[1..] == s;
    }
  }

  /** On ASCII text the ASCII and UTF-8 encoders agree. */
  lemma {:induction false} AsciiIsUtf8(s: string)
    requires IsAscii(s)
    ensures Ascii(s) == Utf8(s)
  {
    if s != [] {
      AsciiIsUtf8(s[1..]);
    }
  }

  /** A byte below 0x80 in a UTF-8 form is always a whole ASCII character:
      the bytes of a longer form are all 0x80 or above. */
  lemma {:induction false} Utf8AsciiByte(s: string, i: nat, x: char)
    requires IsAsciiChar(x)
    requires (forall k :: 0 <= k < |s| ==> s[k] != x)
    requires i < |Utf8(s)|
    ensures Utf8(s)[i] as int != x as int
  {
    if s != [] {
      var h := Utf8Char(s[0]);
      if i >= |h| {
        assert forall k :: 0 <= k < |s[1..]| ==> s[1..][k] == s[k + 1];
        Utf8AsciiByte(s[1..], i - |h|, x);
      }
    }
  }

  // ---------------------------------------------------------------------
  // Hexadecimal (long.ToString("x"))

  function HexDigit(d: nat): (c: char)
    requires d < 16
  {
    if d < 10 then ('0' as int + d) as char else ('a' as int + d - 10) as char
  }

  function HexValue(c: char): Option<nat>
  {
    if '0' <= c <= '9' then Some(c as int - '0' as int)
    else if 'a' <= c <= 'f' then Some(c as int - 'a' as int + 10)
    else None
  }

  predicate IsHexDigit(c: char) { HexValue(c).Some? }

  /** The shortest lower-case hexadecimal numeral of `n` ("0" for zero):
      hexadecimal digits only, no leading zero, and it reads back as `n`. */
  function Hex(n: nat): (r: string)
    ensures 1 <= |r|
    ensures |r| > 1 ==> r[0] != '0'
    ensures forall i :: 0 <= i < |r| ==> IsHexDigit(r[i])
    ensures ParseHex(r) == Some(n)
  {
    if n < 16 then [HexDigit(n)]
    else
      var high := Hex(n / 16);
      var r := high + [HexDigit(n % 16)];
      assert r[..|r| - 1] == high;
      r
  }

  /** Reads a non-empty lower-case hexadecimal numeral. */
  function ParseHex(s: string): Option<nat>
  {
    if s == [] then None
    else match HexValue(s[|s| - 1])
      case None => None
      case Some(d) =>
        if |s| == 1 then Some(d)
        else match ParseHex(s[..|s| - 1])
          case None => None
          case Some(m) => Some(m * 16 + d)
  }

  function Pow16(k: nat): (p: nat)
    ensures p >= 1
  {
    if k == 0 then 1 else 16 * Pow16(k - 1)
  }

  lemma {:induction false} Pow16Add(a: nat, b: nat)
    ensures Pow16(a + b) == Pow16(a) * Pow16(b)
  {
    if a > 0 {
      Pow16Add(a - 1, b);
    }
  }

  /** A value below 16^k needs at most k digits. */
  lemma {:induction false} HexLength(n: nat, k: nat)
    requires 1 <= k && n < Pow16(k)
    ensures |Hex(n)| <= k
  {
    if n >= 16 {
      assert k > 0;
      var p := Pow16(k - 1);
      assert n / 16 < p by {
        assert n < 16 * p;
      }
      HexLength(n / 16, k - 1);
    }
  }
}
