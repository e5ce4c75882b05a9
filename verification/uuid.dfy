/**
  The request identifier of the bridge (uuid): sixteen pseudo-random values,
  each reduced to one byte, printed as two lowercase hex digits apiece in the
  8-4-4-4-12 layout of RFC 4122. The seventh value has its high nibble forced
  to 4 (the version of section 4.1.3 of RFC 4122) and the ninth is pushed
  into 0x80..0xBE (the variant of section 4.1.1).

  The values returned by rand() are an input here: `r[i]` is the value that
  the i-th format argument received. C++ leaves the order in which the
  arguments are evaluated unspecified, so nothing is said about which call
  produced which value.
*/
module Uuid {
  import opened Wrappers

  /** The digits printed by the `%x` conversion, by value. */
  const HexDigits := "0123456789abcdef"

  predicate IsHexDigit(c: char) {
    '0' <= c <= '9' || 'a' <= c <= 'f'
  }

  /** The value of a lowercase hex digit, or -1 for any other character. */
  function HexValue(c: char): (v: int)
    ensures -1 <= v < 16
    ensures v >= 0 <==> IsHexDigit(c)
  {
    if '0' <= c <= '9' then c as int - '0' as int
    else if 'a' <= c <= 'f' then c as int - 'a' as int + 10
    else -1
  }

  /** Each digit is read back as the value it was printed for. */
  lemma HexValueOfDigit(d: nat)
    requires d < 16
    ensures IsHexDigit(HexDigits[d]) && HexValue(HexDigits[d]) == d
  {
  }

  /** The `%02x` rendering of a byte: high nibble, then low nibble. */
  function Hex2(b: byte): (s: string)
    ensures |s| == 2 && IsHexDigit(s[0]) && IsHexDigit(s[1])
    ensures HexValue(s[0]) * 16 + HexValue(s[1]) == b
  {
    HexValueOfDigit(b / 16);
    HexValueOfDigit(b % 16);
    [HexDigits[b / 16], HexDigits[b % 16]]
  }

  /** The bytes `bs` printed one after the other with `%02x`. */
  function Hex(bs: seq<byte>): (s: string)
    ensures |s| == 2 * |bs|
  {
    if |bs| == 0 then [] else Hex2(bs[0]) + Hex(bs[1..])
  }

  /** Every character of `Hex(bs)` is a lowercase hex digit. */
  lemma {:induction false} HexDigitsOnly(bs: seq<byte>)
    ensures forall i :: 0 <= i < |Hex(bs)| ==> IsHexDigit(Hex(bs)[i])
  {
    if |bs| > 0 {
      HexDigitsOnly(bs[1..]);
      var h := Hex2(bs[0]);
      assert Hex(bs) == h + Hex(bs[1..]);
      forall i | 0 <= i < |Hex(bs)|
        ensures IsHexDigit(Hex(bs)[i])
      {
        if i >= 2 {
          assert Hex(bs)[i] == Hex(bs[1..])[i - 2];
        }
      }
    }
  }

  /** Reads pairs of lowercase hex digits back into bytes. */
  function Unhex(s: string): (r: Option<seq<byte>>)
    ensures r.Some? ==> 2 * |r.value| == |s|
  {
    if |s| == 0 then Some([])
    else if |s| == 1 then None
    else
      var hi := HexValue(s[0]);
      var lo := HexValue(s[1]);
      if hi < 0 || lo < 0 then None
      else match Unhex(s[2..])
        case None => None
        case Some(rest) => Some([hi * 16 + lo] + rest)
  }

  /** Reading the printed bytes gives the bytes back. */
  lemma {:induction false} UnhexHex(bs: seq<byte>)
    ensures Unhex(Hex(bs)) == Some(bs)
  {
    if |bs| > 0 {
      UnhexHex(bs[1..]);
      var h, s := Hex2(bs[0]), Hex(bs);
      assert s == h + Hex(bs[1..]);
      assert s[0] == h[0] && s[1] == h[1] && s[2..] == Hex(bs[1..]);
      UnhexPair(s, bs[0]);
      assert [bs[0]] + bs[1..] == bs;
    }
  }

  /** One pair of digits in front of readable digits adds its byte in front. */
  lemma UnhexPair(s: string, b: byte)
    requires |s| >= 2 && IsHexDigit(s[0]) && IsHexDigit(s[1])
    requires HexValue(s[0]) * 16 + HexValue(s[1]) == b
    requires Unhex(s[2..]).Some?
    ensures Unhex(s) == Some([b] + Unhex(s[2..]).value)
  {
  }

  /** Printing what was read gives the string back. */
  lemma {:induction false} HexUnhex(s: string)
    requires Unhex(s).Some?
    ensures Hex(Unhex(s).value) == s
  {
    if |s| > 0 {
      HexUnhex(s[2..]);
      var bs := Unhex(s).value;
      var b := bs[0];
      assert bs[1..] == Unhex(s[2..]).value;
      assert Hex2(b) == s[..2] by {
        var h := Hex2(b);
        assert HexValue(h[0]) * 16 + HexValue(h[1]) == HexValue(s[0]) * 16 + HexValue(s[1]);
        HexNibbles(HexValue(h[0]), HexValue(h[1]), HexValue(s[0]), HexValue(s[1]));
        HexValueInjective(h[0], s[0]);
        HexValueInjective(h[1], s[1]);
      }
      assert s == s[..2] + s[2..];
    }
  }

  lemma HexNibbles(a: int, b: int, c: int, d: int)
    requires 0 <= a < 16 && 0 <= b < 16 && 0 <= c < 16 && 0 <= d < 16
    requires a * 16 + b == c * 16 + d
    ensures a == c && b == d
  {
  }

  lemma HexValueInjective(x: char, y: char)
    requires IsHexDigit(x) && IsHexDigit(y) && HexValue(x) == HexValue(y)
    ensures x == y
  {
  }

  /** Positions of the four hyphens in the 36-character layout. */
  predicate IsHyphenPosition(i: int) {
    i == 8 || i == 13 || i == 18 || i == 23
  }

  /** The 8-4-4-4-12 layout: hyphens at the four group boundaries, lowercase hex digits elsewhere. */
  predicate WellFormed(u: string) {
    |u| == 36 &&
    forall i :: 0 <= i < 36 ==> if IsHyphenPosition(i) then u[i] == '-' else IsHexDigit(u[i])
  }

  /**
    The format string of uuid(): sixteen `%02x` conversions split into
    groups of 4, 2, 2, 2 and 6 bytes by hyphens.
  */
  function Format(f: seq<byte>): (u: string)
    requires |f| == 16
    ensures |u| == 36
  {
    Hex(f[..4]) + "-" + Hex(f[4..6]) + "-" + Hex(f[6..8]) + "-" + Hex(f[8..10]) + "-" + Hex(f[10..])
  }

  /** The hex digits of `u` with the four hyphens taken out. */
  function Digits(u: string): (d: string)
    requires |u| == 36
    ensures |d| == 32
  {
    u[..8] + u[9..13] + u[14..18] + u[19..23] + u[24..]
  }

  /** Reads a well-formed identifier back into its sixteen bytes. */
  function Parse(u: string): (r: Option<seq<byte>>)
    ensures r.Some? ==> |r.value| == 16
  {
    if |u| == 36 && u[8] == '-' && u[13] == '-' && u[18] == '-' && u[23] == '-' then Unhex(Digits(u))
    else None
  }

  lemma {:induction false} HexSplit(a: seq<byte>, b: seq<byte>)
    ensures Hex(a + b) == Hex(a) + Hex(b)
  {
    if |a| == 0 {
      assert a + b == b;
    } else {
      assert (a + b)[1..] == a[1..] + b;
      HexSplit(a[1..], b);
      assert (a + b)[0] == a[0];
    }
  }

  /** Taking the hyphens out of the layout leaves its five groups back to back. */
  lemma DigitsOfLayout(a: string, b: string, c: string, d: string, e: string)
    requires |a| == 8 && |b| == 4 && |c| == 4 && |d| == 4 && |e| == 12
    ensures Digits(a + "-" + b + "-" + c + "-" + d + "-" + e) == a + b + c + d + e
  {
    var u := a + "-" + b + "-" + c + "-" + d + "-" + e;
    assert u[..8] == a;
    assert u[9..13] == b;
    assert u[14..18] == c;
    assert u[19..23] == d;
    assert u[24..] == e;
  }

  /** The digits of a formatted identifier are the bytes printed back to back. */
  lemma DigitsOfFormat(f: seq<byte>)
    requires |f| == 16
    ensures Digits(Format(f)) == Hex(f)
  {
    var g1, g2, g3, g4, g5 := f[..4], f[4..6], f[6..8], f[8..10], f[10..];
    DigitsOfLayout(Hex(g1), Hex(g2), Hex(g3), Hex(g4), Hex(g5));
    assert f == g1 + g2 + g3 + g4 + g5;
    HexSplit(g1, g2);
    HexSplit(g1 + g2, g3);
    HexSplit(g1 + g2 + g3, g4);
    HexSplit(g1 + g2 + g3 + g4, g5);
  }

  /** Parsing a formatted identifier gives the sixteen bytes back. */
  lemma ParseFormat(f: seq<byte>)
    requires |f| == 16
    ensures Parse(Format(f)) == Some(f)
  {
    DigitsOfFormat(f);
    UnhexHex(f);
  }

  /** Whatever parses is the formatting of what it parses to. */
  lemma FormatParse(u: string)
    requires Parse(u).Some?
    ensures Format(Parse(u).value) == u
  {
    var f := Parse(u).value;
    HexUnhex(Digits(u));
    DigitsOfFormat(f);
    var v := Format(f);
    assert Digits(v) == Digits(u);
    forall i | 0 <= i < 36
      ensures v[i] == u[i]
    {
      if !IsHyphenPosition(i) {
        DigitsAt(v, i);
        DigitsAt(u, i);
      }
    }
  }

  /** Where each non-hyphen character of a 36-character string lands in `Digits`. */
  lemma DigitsAt(u: string, i: int)
    requires |u| == 36 && 0 <= i < 36 && !IsHyphenPosition(i)
    ensures i < 8 ==> Digits(u)[i] == u[i]
    ensures 8 < i < 13 ==> Digits(u)[i - 1] == u[i]
    ensures 13 < i < 18 ==> Digits(u)[i - 2] == u[i]
    ensures 18 < i < 23 ==> Digits(u)[i - 3] == u[i]
    ensures 23 < i ==> Digits(u)[i - 4] == u[i]
  {
  }

  /** A formatted identifier has the 8-4-4-4-12 layout. */
  lemma FormatWellFormed(f: seq<byte>)
    requires |f| == 16
    ensures WellFormed(Format(f))
  {
    var u := Format(f);
    DigitsOfFormat(f);
    HexDigitsOnly(f);
    forall i | 0 <= i < 36 && !IsHyphenPosition(i)
      ensures IsHexDigit(u[i])
    {
      DigitsAt(u, i);
    }
  }

  /** The byte value each format argument prints, given the value `x` that argument's rand() call returned. */
  function Field(i: nat, x: nat): (b: byte)
    requires i < 16
    ensures i == 6 ==> b / 16 == 4
    ensures i == 8 ==> 0x80 <= b <= 0xBE
  {
    if i == 6 then x % 16 + 0x40        // (rand() & 0x0F) | 0x40
    else if i == 8 then x % 0x3F + 0x80  // rand() % 0x3F + 0x80
    else x % 256                          // rand() & 0xFF
  }

  function Fields(r: seq<nat>): (f: seq<byte>)
    requires |r| == 16
    ensures |f| == 16
  {
    seq(16, i requires 0 <= i < 16 => Field(i, r[i]))
  }

  /**
    uuid(): the identifier printed from the sixteen values. It has the
    8-4-4-4-12 layout, its version digit is 4, its variant digit is one of
    8, 9, a, b, and it reads back as exactly the bytes that were printed.
  */
  function Generate(r: seq<nat>): (u: string)
    requires |r| == 16
    ensures WellFormed(u)
    ensures u[14] == '4'
    ensures u[19] in "89ab" && u[19..21] != "bf"
    ensures Parse(u) == Some(Fields(r))
  {
    var f := Fields(r);
    FormatWellFormed(f);
    ParseFormat(f);
    VersionAndVariant(f);
    Format(f)
  }

  /** The version digit is the high nibble of the seventh byte, the variant digits spell the ninth. */
  lemma VersionAndVariant(f: seq<byte>)
    requires |f| == 16 && f[6] / 16 == 4 && 0x80 <= f[8] <= 0xBE
    ensures Format(f)[14] == '4'
    ensures Format(f)[19] in "89ab" && Format(f)[19..21] != "bf"
  {
    var u := Format(f);
    assert u[14..18] == Hex(f[6..8]);
    assert Hex(f[6..8])[0] == Hex2(f[6])[0];
    assert u[19..23] == Hex(f[8..10]);
    assert Hex(f[8..10])[..2] == Hex2(f[8]);
    assert u[19..21] == Hex2(f[8]);
  }

  /** The variant byte never reaches 0xBF: `rand() % 0x3F` is at most 0x3E. */
  lemma VariantNeverBF(x: nat)
    ensures Field(8, x) != 0xBF
    ensures Hex2(Field(8, x)) != "bf"
  {
  }
}
