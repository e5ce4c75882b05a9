/**
  Big-endian bit strings and their numeric value. The base64 decoder packs
  6-bit symbol values into a single integer accumulator and reads bytes back
  out of it; these definitions let us talk about that accumulator as a
  sequence of bits.
*/
module BitString {

  function Pow2(n: nat): (p: nat)
    ensures p >= 1
  {
    if n == 0 then 1 else 2 * Pow2(n - 1)
  }

  /** The value of `b` read as a big-endian binary numeral. */
  function ToNat(b: seq<bool>): (v: nat)
    ensures v < Pow2(|b|)
  {
    if |b| == 0 then 0 else 2 * ToNat(b[..|b| - 1]) + (if b[|b| - 1] then 1 else 0)
  }

  /** The `n` low-order bits of `v`, most significant first. */
  function FromNat(v: nat, n: nat): (b: seq<bool>)
    ensures |b| == n
  {
    if n == 0 then [] else FromNat(v / 2, n - 1) + [v % 2 == 1]
  }

  function Zeros(n: nat): (b: seq<bool>)
    ensures |b| == n
    ensures ToNat(b) == 0
  {
    if n == 0 then [] else
      var z := Zeros(n - 1) + [false];
      assert z[..n - 1] == Zeros(n - 1);
      z
  }

  lemma {:induction false} ToNatFromNat(v: nat, n: nat)
    requires v < Pow2(n)
    ensures ToNat(FromNat(v, n)) == v
  {
    if n > 0 {
      var b := FromNat(v, n);
      assert b[..n - 1] == FromNat(v / 2, n - 1);
      assert v / 2 < Pow2(n - 1);
      ToNatFromNat(v / 2, n - 1);
      assert ToNat(b) == 2 * (v / 2) + v % 2;
    }
  }

  lemma {:induction false} FromNatToNat(b: seq<bool>)
    ensures FromNat(ToNat(b), |b|) == b
  {
    if |b| > 0 {
      var front := b[..|b| - 1];
      FromNatToNat(front);
      var v := ToNat(b);
      assert v / 2 == ToNat(front);
      assert (v % 2 == 1) == b[|b| - 1];
      assert b == front + [b[|b| - 1]];
    }
  }

  lemma {:induction false} ToNatAppend(x: seq<bool>, y: seq<bool>)
    ensures ToNat(x + y) == ToNat(x) * Pow2(|y|) + ToNat(y)
  {
    if |y| == 0 {
      assert x + y == x;
    } else {
      var y' := y[..|y| - 1];
      var last := if y[|y| - 1] then 1 else 0;
      assert (x + y)[..|x + y| - 1] == x + y';
      ToNatAppend(x, y');
      ShiftStep(ToNat(x), Pow2(|y'|), ToNat(y'), last);
    }
  }

  lemma ShiftStep(a: nat, p: nat, t: nat, last: nat)
    ensures 2 * (a * p + t) + last == a * (2 * p) + (2 * t + last)
  {
  }

  lemma MulAtLeast(x: int, d: nat)
    requires x >= 1
    ensures x * d >= d
  {
  }

  lemma DivModAdd(a: nat, d: nat, r: nat)
    requires r < d
    ensures (a * d + r) / d == a
    ensures (a * d + r) % d == r
  {
    var n := a * d + r;
    var q := n / d;
    var m := n % d;
    assert (q - a) * d == r - m;
    if q > a {
      MulAtLeast(q - a, d);
    } else if q < a {
      MulAtLeast(a - q, d);
    }
  }

  /**
    Shifting the value of `b` right by `e` bits and keeping the low 8 bits
    yields the 8-bit window that ends `e` bits before the end of `b`.
  */
  lemma ByteWindow(b: seq<bool>, e: nat)
    requires e + 8 <= |b|
    ensures (ToNat(b) / Pow2(e)) % 256 == ToNat(b[|b| - e - 8..|b| - e])
  {
    var front := b[..|b| - e];
    var w := front[|front| - 8..];
    assert w == b[|b| - e - 8..|b| - e];
    ToNatSplit(b, |b| - e);
    ToNatSplit(front, |front| - 8);
    assert Pow2(8) == 256;
    WindowArith(ToNat(b), ToNat(front), ToNat(front[..|front| - 8]), ToNat(w), ToNat(b[|b| - e..]), Pow2(e));
  }

  /** Splitting a bit string at `k` splits its value into a high and a low part. */
  lemma ToNatSplit(b: seq<bool>, k: nat)
    requires k <= |b|
    ensures ToNat(b) == ToNat(b[..k]) * Pow2(|b| - k) + ToNat(b[k..])
  {
    assert b == b[..k] + b[k..];
    ToNatAppend(b[..k], b[k..]);
  }

  lemma WindowArith(n: nat, f: nat, a: nat, w: nat, q: nat, p: nat)
    requires n == f * p + q && f == a * 256 + w
    requires w < 256 && q < p
    ensures (n / p) % 256 == w
  {
    DivModAdd(f, p, q);
    DivModAdd(a, 256, w);
  }
}
