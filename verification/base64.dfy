/**
  The base64 decoder of the bridge (base64_decode): a bit accumulator over the
  standard alphabet of RFC 4648 section 4 that stops, without error, at the
  first character outside the alphabet. The padding character '=' is outside
  the alphabet, so it ends decoding like any other stray character.
*/
module Base64 {
  import opened BitString
  import opened Wrappers

  /** The `n` consecutive characters starting at `first`. */
  function CharRange(first: char, n: nat): (s: string)
    requires first as int + n <= 0xD800
    ensures |s| == n
    ensures forall i :: 0 <= i < n ==> s[i] as int == first as int + i
  {
    seq(n, i requires 0 <= i < n => (first as int + i) as char)
  }

  /**
    The 64-symbol alphabet, "A".."Z" "a".."z" "0".."9" "+" "/": the symbol
    whose value is `i` is `Alphabet[i]`.
  */
  const Alphabet: string := CharRange('A', 26) + CharRange('a', 26) + CharRange('0', 10) + "+/"

  /**
    The decoding table: a symbol's value, or -1 for every character outside
    the alphabet ('=' included).
  */
  function Value(c: char): (v: int)
    ensures -1 <= v < 64
  {
    if 'A' <= c <= 'Z' then c as int - 'A' as int
    else if 'a' <= c <= 'z' then c as int - 'a' as int + 26
    else if '0' <= c <= '9' then c as int - '0' as int + 52
    else if c == '+' then 62
    else if c == '/' then 63
    else -1
  }

  /** The table gives each symbol its position in the alphabet, and nothing else a value. */
  lemma ValueIsAlphabetPosition(c: char)
    ensures Value(c) >= 0 ==> Alphabet[Value(c)] == c
    ensures Value(c) == -1 <==> c !in Alphabet
  {
    if c in Alphabet {
      var i :| 0 <= i < 64 && Alphabet[i] == c;
      ValueOfAlphabet(i);
    }
  }

  /** Every position of the alphabet holds a different symbol, so the table inverts it. */
  lemma ValueOfAlphabet(i: nat)
    requires i < 64
    ensures Value(Alphabet[i]) == i
  {
    if i < 26 {
      assert Alphabet[i] == CharRange('A', 26)[i];
    } else if i < 52 {
      assert Alphabet[i] == CharRange('a', 26)[i - 26];
    } else if i < 62 {
      assert Alphabet[i] == CharRange('0', 10)[i - 52];
    }
  }

  predicate IsSymbol(c: char) {
    Value(c) >= 0
  }

  predicate AllSymbols(s: string) {
    forall i :: 0 <= i < |s| ==> IsSymbol(s[i])
  }

  /** The concatenated 6-bit values of an all-symbol string, most significant bit first. */
  function Bits(s: string): (b: seq<bool>)
    requires AllSymbols(s)
    ensures |b| == 6 * |s|
  {
    if |s| == 0 then [] else Bits(s[..|s| - 1]) + FromNat(Value(s[|s| - 1]), 6)
  }

  lemma {:induction false} BitsAppend(s: string, t: string)
    requires AllSymbols(s) && AllSymbols(t)
    ensures AllSymbols(s + t)
    ensures Bits(s + t) == Bits(s) + Bits(t)
  {
    if |t| > 0 {
      var t' := t[..|t| - 1];
      assert (s + t)[..|s + t| - 1] == s + t';
      BitsAppend(s, t');
    } else {
      assert s + t == s;
    }
  }

  /** The whole bytes at the front of a bit string; a trailing partial byte is dropped. */
  function Octets(b: seq<bool>): (r: seq<byte>)
    ensures |r| == |b| / 8
  {
    if |b| < 8 then []
    else
      assert Pow2(8) == 256;
      [ToNat(b[..8]) as byte] + Octets(b[8..])
  }

  /** Byte `i` holds bits 8i .. 8i+7, most significant first. */
  lemma {:induction false} OctetsAt(b: seq<bool>, i: nat)
    requires i < |b| / 8
    ensures Octets(b)[i] == ToNat(b[8 * i..8 * i + 8])
  {
    if i > 0 {
      var j := i - 1;
      OctetsAt(b[8..], j);
      assert 8 + 8 * j == 8 * i;
      assert b[8..][8 * j..8 * j + 8] == b[8 * i..8 * i + 8];
    }
  }

  /** Appending bits never changes the bytes already complete. */
  lemma OctetsPrefix(b: seq<bool>, e: seq<bool>)
    ensures Octets(b) <= Octets(b + e)
  {
    var r, r' := Octets(b), Octets(b + e);
    forall i | 0 <= i < |r|
      ensures r[i] == r'[i]
    {
      OctetsAt(b, i);
      OctetsAt(b + e, i);
      assert (b + e)[8 * i..8 * i + 8] == b[8 * i..8 * i + 8];
    }
  }

  /** The length of the longest prefix of `s` made of alphabet symbols. */
  function SymbolPrefixLength(s: string): (k: nat)
    ensures k <= |s|
    ensures AllSymbols(s[..k])
    ensures k < |s| ==> !IsSymbol(s[k])
  {
    if |s| == 0 || !IsSymbol(s[0]) then 0
    else
      var k := 1 + SymbolPrefixLength(s[1..]);
      assert forall i :: 1 <= i < k ==> s[..k][i] == s[1..][..k - 1][i - 1];
      k
  }

  /** The symbol prefix ends exactly where the first non-symbol stands. */
  lemma SymbolPrefixEndsAt(s: string, c: nat)
    requires c <= |s| && AllSymbols(s[..c])
    requires c == |s| || !IsSymbol(s[c])
    ensures SymbolPrefixLength(s) == c
  {
    var k := SymbolPrefixLength(s);
    forall i | 0 <= i < c
      ensures IsSymbol(s[i])
    {
      assert s[..c][i] == s[i];
    }
    forall i | 0 <= i < k
      ensures IsSymbol(s[i])
    {
      assert s[..k][i] == s[i];
    }
  }

  /** What the decoder computes: the whole bytes of the symbol prefix. */
  function Decoding(s: string): seq<byte> {
    var k := SymbolPrefixLength(s);
    Octets(Bits(s[..k]))
  }

  /** Appending one symbol appends its six bits, and shifts the accumulator by six. */
  lemma AppendSymbol(s: string, c: nat)
    requires c < |s| && AllSymbols(s[..c]) && IsSymbol(s[c])
    ensures AllSymbols(s[..c + 1])
    ensures Bits(s[..c + 1]) == Bits(s[..c]) + FromNat(Value(s[c]), 6)
    ensures ToNat(Bits(s[..c + 1])) == ToNat(Bits(s[..c])) * 64 + Value(s[c])
  {
    assert s[..c + 1] == s[..c] + [s[c]];
    assert s[..c + 1][..c] == s[..c];
    var v := Value(s[c]);
    ToNatAppend(Bits(s[..c]), FromNat(v, 6));
    ToNatFromNat(v, 6);
    assert Pow2(6) == 64;
  }

  /** The loop invariant of the decoder after `c` characters. */
  ghost predicate Accumulated(s: string, c: nat, val: nat, valb: int, out: seq<byte>) {
    && c <= |s|
    && AllSymbols(s[..c])
    && val == ToNat(Bits(s[..c]))
    && Pending(Bits(s[..c]), valb, out)
  }

  /** `out` holds the whole bytes of `bits`, and `valb` is the count of pending bits minus 8. */
  ghost predicate Pending(bits: seq<bool>, valb: int, out: seq<byte>) {
    && out == Octets(bits)
    && valb == |bits| - 8 - 8 * |out|
    && -8 <= valb < 0
  }

  /**
    Six more bits either complete no byte, or complete exactly the next one,
    which is the accumulator shifted right by the bits that remain pending.
  */
  lemma EmitStep(bits: seq<bool>, e: seq<bool>, n: nat, out: seq<byte>, valb: int,
                 valb': int, out': seq<byte>)
    requires |e| == 6 && n == ToNat(bits + e)
    requires Pending(bits, valb, out)
    requires valb + 6 >= 0 ==> valb' == valb + 6 - 8 && out' == out + [(n / Pow2(valb + 6)) % 256]
    requires valb + 6 < 0 ==> valb' == valb + 6 && out' == out
    ensures Pending(bits + e, valb', out')
  {
    var b' := bits + e;
    var o := Octets(b');
    OctetsPrefix(bits, e);
    if valb + 6 >= 0 {
      assert |o| == |out| + 1;
      assert |b'| - (valb + 6) - 8 == 8 * |out|;
      ByteWindow(b', valb + 6);
      OctetsAt(b', |out|);
      assert o == out' by {
        assert o[..|out|] == out;
      }
    } else {
      assert |o| == |out|;
      assert o == out by {
        assert o[..|out|] == out;
      }
    }
  }

  /** One iteration of the decoder on a symbol keeps the invariant. */
  lemma DecodeStep(s: string, c: nat, val: nat, valb: int, out: seq<byte>,
                   val': nat, valb': int, out': seq<byte>)
    requires Accumulated(s, c, val, valb, out)
    requires c < |s| && IsSymbol(s[c])
    requires val' == val * 64 + Value(s[c])
    requires valb + 6 >= 0 ==> valb' == valb + 6 - 8 && out' == out + [(val' / Pow2(valb + 6)) % 256]
    requires valb + 6 < 0 ==> valb' == valb + 6 && out' == out
    ensures Accumulated(s, c + 1, val', valb', out')
  {
    AppendSymbol(s, c);
    EmitStep(Bits(s[..c]), FromNat(Value(s[c]), 6), val', out, valb, valb', out');
  }

  /**
    The decoder as written: `val` accumulates 6 bits per symbol, `valb` counts
    the bits not yet emitted minus 8, and a byte is emitted whenever a whole
    one is available. `val` is unbounded here (see README).
  */
  method Decode(input: string) returns (out: seq<byte>)
    ensures out == Decoding(input)
  {
    out := [];
    var val: nat := 0;
    var valb: int := -8;
    var c := 0;
    while c < |input|
      invariant Accumulated(input, c, val, valb, out)
    {
      var v := Value(input[c]);
      if v == -1 {
        break;
      }
      ghost var (val0, valb0, out0) := (val, valb, out);
      val := val * 64 + v;
      valb := valb + 6;
      if valb >= 0 {
        out := out + [(val / Pow2(valb)) % 256];
        valb := valb - 8;
      }
      DecodeStep(input, c, val0, valb0, out0, val, valb, out);
      c := c + 1;
    }
    SymbolPrefixEndsAt(input, c);
    assert out == Octets(Bits(input[..c]));
  }

  /** Decoding ignores everything from the first non-symbol on, wherever it stands. */
  lemma DecodeStopsAtNonSymbol(s: string, k: nat)
    requires k < |s| && !IsSymbol(s[k])
    ensures Decoding(s) == Decoding(s[..k])
  {
    var n := SymbolPrefixLength(s);
    assert s[..k][..n] == s[..n];
    SymbolPrefixEndsAt(s[..k], n);
  }

  /** The padding character ends decoding: nothing after it is read. */
  lemma DecodeStopsAtPadding(s: string, t: string)
    ensures Decoding(s + "=" + t) == Decoding(s)
  {
    var u := s + "=" + t;
    assert u[|s|] == '=';
    DecodeStopsAtNonSymbol(u, |s|);
    assert u[..|s|] == s;
  }

  /**
    On a string made only of symbols, the output has one byte per whole 8 bits
    of input (floor(6k/8) bytes for k symbols), and byte `i` is bits 8i .. 8i+7
    of the concatenated 6-bit values.
  */
  lemma DecodeAllSymbols(s: string)
    requires AllSymbols(s)
    ensures |Decoding(s)| == 6 * |s| / 8
    ensures forall i :: 0 <= i < |Decoding(s)| ==> Decoding(s)[i] == ToNat(Bits(s)[8 * i..8 * i + 8])
  {
    assert s[..|s|] == s;
    SymbolPrefixEndsAt(s, |s|);
    forall i | 0 <= i < |Decoding(s)|
      ensures Decoding(s)[i] == ToNat(Bits(s)[8 * i..8 * i + 8])
    {
      OctetsAt(Bits(s), i);
    }
  }

  /** Reading more input never changes bytes already produced. */
  lemma DecodePrefix(s: string, t: string)
    ensures Decoding(s) <= Decoding(s + t)
  {
    var n := SymbolPrefixLength(s);
    assert (s + t)[..n] == s[..n];
    if n < |s| {
      assert (s + t)[n] == s[n];
      SymbolPrefixEndsAt(s + t, n);
    } else {
      var m := SymbolPrefixLength(s + t);
      var t' := (s + t)[|s|..m];
      assert (s + t)[..m] == s + t';
      assert s[..n] == s;
      assert AllSymbols(t') by {
        forall i | 0 <= i < |t'|
          ensures IsSymbol(t'[i])
        {
          assert t'[i] == (s + t)[..m][|s| + i];
        }
      }
      BitsAppend(s, t');
      OctetsPrefix(Bits(s), Bits(t'));
    }
  }

  /** The bits of a byte string, eight per byte, most significant first. */
  function ByteBits(x: seq<byte>): (b: seq<bool>)
    ensures |b| == 8 * |x|
  {
    if |x| == 0 then [] else ByteBits(x[..|x| - 1]) + FromNat(x[|x| - 1], 8)
  }

  lemma {:induction false} ByteBitsAt(x: seq<byte>, i: nat)
    requires i < |x|
    ensures ByteBits(x)[8 * i..8 * i + 8] == FromNat(x[i], 8)
  {
    var front := x[..|x| - 1];
    if i < |x| - 1 {
      ByteBitsAt(front, i);
      assert ByteBits(x)[8 * i..8 * i + 8] == ByteBits(front)[8 * i..8 * i + 8];
    }
  }

  /** The symbols that spell a bit string whose length is a multiple of six. */
  function Symbols(b: seq<bool>): (s: string)
    requires |b| % 6 == 0
    ensures |s| == |b| / 6
  {
    if |b| == 0 then ""
    else Symbols(b[..|b| - 6]) + [Alphabet[SymbolValueOfBits(b[|b| - 6..])]]
  }

  /** The symbols chosen for `b` are alphabet symbols whose 6-bit values give `b` back. */
  lemma {:induction false} SymbolsSpell(b: seq<bool>)
    requires |b| % 6 == 0
    ensures AllSymbols(Symbols(b)) && Bits(Symbols(b)) == b
  {
    if |b| > 0 {
      var front := b[..|b| - 6];
      var last := b[|b| - 6..];
      assert b == front + last;
      SymbolsSpell(front);
      var v := SymbolValueOfBits(last);
      var c := Alphabet[v];
      assert Symbols(b) == Symbols(front) + [c];
      assert [c][..0] == [];
      assert AllSymbols([c]) && Bits([c]) == last;
      BitsAppend(Symbols(front), [c]);
    }
  }

  /** Six bits name one symbol, whose table value gives the same six bits back. */
  function SymbolValueOfBits(w: seq<bool>): (v: nat)
    requires |w| == 6
    ensures v < 64
    ensures Value(Alphabet[v]) == v
    ensures FromNat(v, 6) == w
  {
    assert Pow2(6) == 64;
    FromNatToNat(w);
    var v := ToNat(w);
    ValueOfAlphabet(v);
    v
  }

  /** The number of fill units that rounds `n` up to a multiple of `k`. */
  function Fill(n: nat, k: nat): (f: nat)
    requires k == 4 || k == 6
    ensures f < k
    ensures (n + f) % k == 0
  {
    var q, r := n / k, n % k;
    assert n == k * q + r;
    if r == 0 then 0
    else
      assert n + (k - r) == k * (q + 1);
      k - r
  }

  /** The bits of `x` zero-filled to a whole number of symbols. */
  function PaddedBits(x: seq<byte>): (b: seq<bool>)
    ensures |b| % 6 == 0
    ensures 8 * |x| <= |b| < 8 * |x| + 6
    ensures b[..8 * |x|] == ByteBits(x)
  {
    var bits := ByteBits(x);
    bits + Zeros(Fill(|bits|, 6))
  }

  function Padding(n: nat): (p: string)
    ensures |p| == n
    ensures forall i :: 0 <= i < n ==> p[i] == '='
  {
    seq(n, _ => '=')
  }

  /**
    Standard base64 encoding (RFC 4648 section 4): the input bits, zero-filled
    to a multiple of six, spelled with the alphabet, then '=' up to a multiple
    of four characters.
  */
  function Encode(x: seq<byte>): string
  {
    var body := Symbols(PaddedBits(x));
    body + Padding(Fill(|body|, 4))
  }

  /** Decoding inverts standard encoding: the padding stops the decoder after the last whole byte. */
  lemma DecodeEncode(x: seq<byte>)
    ensures Decoding(Encode(x)) == x
  {
    var padded := PaddedBits(x);
    var body := Symbols(padded);
    SymbolsSpell(padded);
    var s := Encode(x);
    assert s[..|body|] == body;
    if |body| < |s| {
      assert s[|body|] == '=';
    }
    SymbolPrefixEndsAt(s, |body|);
    var r := Decoding(s);
    assert r == Octets(padded);
    forall i | 0 <= i < |x|
      ensures r[i] == x[i]
    {
      DecodedByte(x, i);
    }
  }

  lemma DecodedByte(x: seq<byte>, i: nat)
    requires i < |x|
    ensures Octets(PaddedBits(x))[i] == x[i]
  {
    var padded := PaddedBits(x);
    OctetsAt(padded, i);
    assert padded[8 * i..8 * i + 8] == ByteBits(x)[8 * i..8 * i + 8];
    ByteBitsAt(x, i);
    assert Pow2(8) == 256;
    ToNatFromNat(x[i], 8);
  }
}
