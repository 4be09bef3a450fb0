/** Two's complement numbers of a given width as bit strings. */
module Numbers {
  import opened Bits

  /** A bit string read as a two's complement number. */
  function SignedValue(bits: seq<bool>): int {
    Value(bits) - (if bits != [] && bits[|bits| - 1] then Pow2(|bits|) else 0)
  }

  function Number(bits: seq<bool>, signed: bool): int {
    if signed then SignedValue(bits) else Value(bits)
  }

  /** The bits of x in a register of `width` bits. */
  function Image(x: int, width: nat): (bits: seq<bool>)
    ensures |bits| == width
  {
    ToBits(x % Pow2(width), width)
  }

  function Repeat(b: bool, n: nat): (bits: seq<bool>)
    ensures |bits| == n
  {
    seq(n, i => b)
  }

  lemma {:induction false} ValueOnes(n: nat)
    ensures Value(Repeat(true, n)) == Pow2(n) - 1
  {
    if n > 0 {
      ValueOnes(n - 1);
      assert Repeat(true, n)[1..] == Repeat(true, n - 1);
    }
  }

  /** Replicating the sign bit keeps the number. */
  lemma SignExtension(bits: seq<bool>, n: nat)
    requires bits != []
    ensures SignedValue(bits + Repeat(bits[|bits| - 1], n)) == SignedValue(bits)
  {
    var sign := bits[|bits| - 1];
    var wide := bits + Repeat(sign, n);
    assert wide[|wide| - 1] == sign;
    ValueConcat(bits, Repeat(sign, n));
    if sign {
      ValueOnes(n);
      Pow2Sum(|bits|, n);
      TimesMinusOne(Pow2(|bits|), Pow2(n), Value(Repeat(sign, n)));
    } else {
      assert Repeat(sign, n) == Zeros(n);
      ValueZeros(n);
    }
  }

  lemma TimesMinusOne(p: int, q: int, v: int)
    requires v == q - 1
    ensures p * v == p * q - p
  {
  }

  /** The top bit weighs half the range. */
  lemma TopBit(bits: seq<bool>)
    requires bits != []
    ensures bits[|bits| - 1] <==> Value(bits) >= Pow2(|bits| - 1)
  {
    var low, top := bits[..|bits| - 1], bits[|bits| - 1..];
    assert bits == low + top;
    ValueConcat(low, top);
    ValueBound(low);
    assert top[1..] == [];
    assert Value(top) == if bits[|bits| - 1] then 1 else 0;
  }

  /** What a number of the given signedness is: in the range of its width, and congruent to the unsigned value. */
  lemma {:induction false} NumberRange(bits: seq<bool>, signed: bool)
    requires bits != []
    ensures !signed ==> 0 <= Number(bits, signed) < Pow2(|bits|)
    ensures signed ==> -Number(bits, signed) <= Pow2(|bits| - 1) && Number(bits, signed) < Pow2(|bits| - 1)
    ensures Number(bits, signed) == Value(bits) || Number(bits, signed) == Value(bits) - Pow2(|bits|)
  {
    ValueBound(bits);
    TopBit(bits);
    assert Pow2(|bits|) == 2 * Pow2(|bits| - 1);
  }

  /** A signed field holds exactly the numbers of its width; any other comes back reduced. */
  lemma SignedRoundTrip(x: int, width: nat)
    requires width > 0
    ensures SignedValue(Image(x, width)) == x <==> -x <= Pow2(width - 1) && x < Pow2(width - 1)
    ensures (SignedValue(Image(x, width)) - x) % Pow2(width) == 0
  {
    var p, r := Pow2(width), x % Pow2(width);
    var bits := Image(x, width);
    ValueOfToBits(r, width);
    SmallMod(r, p);
    TopBit(bits);
    var q := x / p;
    assert x == p * q + r;
    var s := if r >= Pow2(width - 1) then 1 else 0;
    assert SignedValue(bits) == r - s * p;
    MultipleMod(p, -s - q, SignedValue(bits) - x);
    MulAtLeast(p, q + s);
    MulSum(p, q, s);
  }

  lemma SmallMod(r: int, p: int)
    requires 0 <= r < p
    ensures r % p == r
  {
    DivModUnique(r, p, 0, r);
  }

  lemma MulSum(p: int, q: int, s: int)
    ensures p * (q + s) == p * q + s * p
    ensures p * (-s - q) == -(p * q) - s * p
  {
  }

  lemma MultipleMod(p: int, k: int, d: int)
    requires p > 0
    ensures d == p * k ==> d % p == 0
  {
    if d == p * k {
      DivModUnique(d, p, k, 0);
    }
  }

  lemma UnsignedRoundTrip(x: int, width: nat)
    ensures Value(Image(x, width)) == x % Pow2(width)
    ensures Value(Image(x, width)) == x <==> 0 <= x < Pow2(width)
  {
    var p := Pow2(width);
    ValueOfToBits(x % p, width);
    SmallMod(x % p, p);
    if 0 <= x < p {
      SmallMod(x, p);
    }
  }

  /** A narrower image is the low end of a wider one. */
  lemma ImagePrefix(x: int, wide: nat, len: nat)
    requires len <= wide
    ensures Image(x, wide)[..len] == Image(x, len)
  {
    var p, q := Pow2(len), Pow2(wide - len);
    Pow2Sum(len, wide - len);
    ModMod(x, p, q);
    var bits := Image(x, wide);
    ValueSlice(bits, 0, len);
    assert bits[0..0 + len] == bits[..len];
    UnsignedRoundTrip(x, wide);
    UnsignedRoundTrip(x, len);
    assert Value(bits) / Pow2(0) == Value(bits);
    ValueInjective(bits[..len], Image(x, len));
  }

  lemma ModMod(x: int, p: int, q: int)
    requires p > 0 && q > 0
    ensures p * q > 0 && x % (p * q) % p == x % p
  {
    assert p * q > 0 by { MulAtLeast(p, q); }
    var r := x % (p * q);
    var a, b, c := x / (p * q), r / p, r % p;
    assert x == p * q * a + r && r == p * b + c;
    assert x == p * (q * a + b) + c by { ThreeFactors(p, q, a, b); }
    DivModUnique(x, p, q * a + b, c);
  }

  lemma ThreeFactors(p: int, q: int, a: int, b: int)
    ensures p * (q * a + b) == p * q * a + p * b
  {
  }

  lemma {:induction false} NoBits(width: nat)
    ensures ToBits(0, width) == Zeros(width)
  {
    if width > 0 {
      NoBits(width - 1);
    }
  }

  lemma ImageOfOne(len: nat)
    requires len > 0
    ensures Image(1, len) == [true] + Zeros(len - 1)
  {
    if len == 1 {
      assert Pow2(1) == 2;
    } else {
      Pow2AboveOne(len);
      assert 1 % Pow2(len) == 1;
    }
    NoBits(len - 1);
  }

  lemma Pow2AboveOne(len: nat)
    requires len > 0
    ensures Pow2(len) >= 2
  {
  }

  /** The lowest bit of a field's value tells whether its number is odd, signed or not. */
  lemma {:induction false} NumberParity(v: seq<bool>, signed: bool)
    requires v != []
    ensures Number(v, signed) % 2 == if v[0] then 1 else 0
  {
    var low: int, rest: int, p: int := if v[0] then 1 else 0, Value(v[1..]), Pow2(|v| - 1);
    assert Value(v) == low + 2 * rest && Pow2(|v|) == 2 * p;
    Odd(low, rest);
    Odd(low, rest - p);
  }

  lemma Odd(low: int, half: int)
    requires low == 0 || low == 1
    ensures (low + 2 * half) % 2 == low
  {
  }
}
