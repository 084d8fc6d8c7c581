/**
  Digest bytes to hexadecimal text, as `checkBreach` and `showHash` do it
  (script.js): each byte through `b.toString(16).padStart(2, '0')`, the pieces
  joined; the breach check then upper-cases the result. A hexadecimal parser
  serves as the independent reference the encoding is proved against.
*/
module HexEncoding {
  import opened Wrappers
  import opened Text

  type Byte = b: int | 0 <= b < 256

  /** The output of SHA-1 (FIPS 180-4, section 6.1): 160 bits. */
  type Sha1Digest = d: seq<Byte> | |d| == 20 witness seq(20, _ => 0)
  /** The output of SHA-256 (FIPS 180-4, section 6.2): 256 bits. */
  type Sha256Digest = d: seq<Byte> | |d| == 32 witness seq(32, _ => 0)

  predicate IsLowerHexDigit(c: char) { IsAsciiDigit(c) || 'a' <= c <= 'f' }
  predicate IsUpperHexDigit(c: char) { IsAsciiDigit(c) || 'A' <= c <= 'F' }

  /** The lower-case digit JavaScript prints for `n` in base 16. */
  function HexDigit(n: nat): (c: char)
    requires n < 16
    ensures IsLowerHexDigit(c)
  {
    if n < 10 then ('0' as int + n) as char else ('a' as int + n - 10) as char
  }

  /** `n.toString(16)` for a non-negative integer: no leading zeros, "0" for zero. */
  function ToBase16(n: nat): (s: string)
    ensures s != [] && (|s| > 1 ==> s[0] != '0')
    decreases n
  {
    if n < 16 then [HexDigit(n)] else ToBase16(n / 16) + [HexDigit(n % 16)]
  }

  /** `s.padStart(width, fill)`: left-pads with `fill` up to `width` characters. */
  function PadStart(s: string, width: nat, fill: char): (r: string)
    ensures |r| == if |s| >= width then |s| else width
    ensures r[|r| - |s|..] == s
    ensures forall i :: 0 <= i < |r| - |s| ==> r[i] == fill
  {
    if |s| >= width then s else seq(width - |s|, _ => fill) + s
  }

  /**
    `b.toString(16).padStart(2, '0')`: exactly two lower-case digits, the high
    nibble first.
  */
  function ByteHex(b: Byte): (h: string)
    ensures h == [HexDigit(b / 16), HexDigit(b % 16)]
  {
    assert b >= 16 ==> ToBase16(b) == ToBase16(b / 16) + [HexDigit(b % 16)];
    PadStart(ToBase16(b), 2, '0')
  }

  /** `Array.from(bytes).map(b => ...).join('')` */
  function Hex(bytes: seq<Byte>): (h: string)
    ensures |h| == 2 * |bytes|
    decreases |bytes|
  {
    if bytes == [] then [] else ByteHex(bytes[0]) + Hex(bytes[1..])
  }

  lemma ByteHexIsLowerHex(b: Byte)
    ensures |ByteHex(b)| == 2 && IsLowerHexDigit(ByteHex(b)[0]) && IsLowerHexDigit(ByteHex(b)[1])
  {
    var hi, lo := HexDigit(b / 16), HexDigit(b % 16);
    assert ByteHex(b) == [hi, lo];
  }

  /** The encoding holds lower-case hexadecimal digits only. */
  lemma {:induction false} HexIsLowerHex(bytes: seq<Byte>)
    ensures forall i :: 0 <= i < |Hex(bytes)| ==> IsLowerHexDigit(Hex(bytes)[i])
    decreases |bytes|
  {
    if bytes != [] {
      var first, rest := ByteHex(bytes[0]), Hex(bytes[1..]);
      ByteHexIsLowerHex(bytes[0]);
      HexIsLowerHex(bytes[1..]);
      var h := Hex(bytes);
      assert h == first + rest;
      forall i | 0 <= i < |h| ensures IsLowerHexDigit(h[i]) {
        if i == 0 {
          assert h[0] == first[0];
        } else if i == 1 {
          assert h[1] == first[1];
        } else {
          assert h[i] == rest[i - 2];
        }
      }
    }
  }

  /** The value of a hexadecimal digit of either case. */
  function HexValue(c: char): (v: Option<nat>)
    ensures v.Some? <==> IsLowerHexDigit(c) || IsUpperHexDigit(c)
    ensures v.Some? ==> v.value < 16
  {
    if IsAsciiDigit(c) then Some(c as int - '0' as int)
    else if 'a' <= c <= 'f' then Some(c as int - 'a' as int + 10)
    else if 'A' <= c <= 'F' then Some(c as int - 'A' as int + 10)
    else None
  }

  /** Reads pairs of hexadecimal digits (either case) back into bytes. */
  function ParseHex(s: string): Option<seq<Byte>>
    decreases |s|
  {
    if s == [] then Some([])
    else if |s| == 1 then None
    else
      match (HexValue(s[0]), HexValue(s[1]), ParseHex(s[2..]))
      case (Some(hi), Some(lo), Some(rest)) => Some([hi * 16 + lo] + rest)
      case _ => None
  }

  lemma HexDigitValue(n: nat)
    requires n < 16
    ensures HexValue(HexDigit(n)) == Some(n)
    ensures HexValue(UpperChar(HexDigit(n))) == Some(n)
  {
  }

  /** One step of the parser: two digits for the first byte, the rest parsed on. */
  lemma ParseHexStep(s: string, b: Byte, rest: seq<Byte>)
    requires |s| >= 2 && HexValue(s[0]) == Some(b / 16) && HexValue(s[1]) == Some(b % 16)
    requires ParseHex(s[2..]) == Some(rest)
    ensures ParseHex(s) == Some([b] + rest)
  {
    assert (b / 16) * 16 + b % 16 == b;
  }

  /** Decoding the encoding gives back the bytes. */
  lemma {:induction false} ParseHexOfHex(bytes: seq<Byte>)
    ensures ParseHex(Hex(bytes)) == Some(bytes)
    decreases |bytes|
  {
    if bytes != [] {
      var b, tail := bytes[0], bytes[1..];
      var first, rest := ByteHex(b), Hex(tail);
      var h := Hex(bytes);
      assert h == first + rest;
      assert h[2..] == rest;
      assert h[0] == HexDigit(b / 16) && h[1] == HexDigit(b % 16);
      HexDigitValue(b / 16);
      HexDigitValue(b % 16);
      ParseHexOfHex(tail);
      ParseHexStep(h, b, tail);
      assert [b] + tail == bytes;
    }
  }

  /** Decoding the upper-cased encoding gives back the bytes too. */
  lemma {:induction false} ParseHexOfUpperHex(bytes: seq<Byte>)
    ensures ParseHex(Upper(Hex(bytes))) == Some(bytes)
    decreases |bytes|
  {
    if bytes != [] {
      var b, tail := bytes[0], bytes[1..];
      var first, rest := ByteHex(b), Hex(tail);
      assert Hex(bytes) == first + rest;
      var u := Upper(first + rest);
      UpperConcat(first, rest);
      assert u[2..] == Upper(rest);
      assert u[0] == UpperChar(HexDigit(b / 16)) && u[1] == UpperChar(HexDigit(b % 16));
      HexDigitValue(b / 16);
      HexDigitValue(b % 16);
      ParseHexOfUpperHex(tail);
      ParseHexStep(u, b, tail);
      assert [b] + tail == bytes;
    }
  }

  /** Upper-casing a lower-case hex string yields upper-case hex digits only. */
  lemma UpperHexDigits(h: string)
    requires forall i :: 0 <= i < |h| ==> IsLowerHexDigit(h[i])
    ensures forall i :: 0 <= i < |h| ==> IsUpperHexDigit(Upper(h)[i])
  {
  }

  /** The encoding is injective: different digests never print the same. */
  lemma HexInjective(a: seq<Byte>, b: seq<Byte>)
    requires Hex(a) == Hex(b)
    ensures a == b
  {
    ParseHexOfHex(a);
    ParseHexOfHex(b);
  }
}
