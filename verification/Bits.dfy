/** Bit strings, least significant bit first, and the natural numbers they denote. */
module Bits {
  function Pow2(n: nat): (r: nat)
    ensures r > 0
  {
    if n == 0 then 1 else 2 * Pow2(n - 1)
  }

  /** The number a bit string denotes: bit i weighs 2^i. */
  function Value(bits: seq<bool>): nat {
    if bits == [] then 0 else (if bits[0] then 1 else 0) + 2 * Value(bits[1..])
  }

  /** The low `width` binary digits of v. */
  function ToBits(v: nat, width: nat): (bits: seq<bool>)
    ensures |bits| == width
  {
    if width == 0 then [] else [v % 2 == 1] + ToBits(v / 2, width - 1)
  }

  function Zeros(n: nat): (bits: seq<bool>)
    ensures |bits| == n
    ensures forall i :: 0 <= i < n ==> !bits[i]
  {
    seq(n, i => false)
  }

  lemma {:induction false} Pow2Sum(a: nat, b: nat)
    ensures Pow2(a + b) == Pow2(a) * Pow2(b)
  {
    if a > 0 {
      Pow2Sum(a - 1, b);
      assert Pow2(a + b) == 2 * Pow2(a + b - 1);
    }
  }

  lemma {:induction false} ValueBound(bits: seq<bool>)
    ensures Value(bits) < Pow2(|bits|)
  {
    if bits != [] {
      ValueBound(bits[1..]);
    }
  }

  lemma {:induction false} ToBitsOfValue(bits: seq<bool>)
    ensures ToBits(Value(bits), |bits|) == bits
  {
    if bits != [] {
      ToBitsOfValue(bits[1..]);
      assert Value(bits) / 2 == Value(bits[1..]);
    }
  }

  /** Dropping the lowest binary digit commutes with cutting to a width. */
  lemma HalfMod(v: nat, w: nat)
    requires w > 0
    ensures v % Pow2(w) == v % 2 + 2 * ((v / 2) % Pow2(w - 1))
  {
    var p := Pow2(w - 1);
    var q, r := v / 2 / p, v / 2 % p;
    assert v == (2 * p) * q + (2 * r + v % 2) by {
      assert v / 2 == p * q + r;
    }
    DivModUnique(v, 2 * p, q, 2 * r + v % 2);
  }

  lemma DivModUnique(x: int, m: int, q: int, r: int)
    requires m > 0 && 0 <= r < m && x == m * q + r
    ensures x / m == q && x % m == r
  {
    var d := x / m - q;
    assert m * d == r - x % m by {
      assert x == m * (x / m) + x % m;
      assert m * (x / m - q) == m * (x / m) - m * q;
    }
    MulAtLeast(m, d);
  }

  lemma {:induction false} MulAtLeast(m: int, d: int)
    requires m > 0
    ensures d > 0 ==> m * d >= m
    ensures d < 0 ==> m * d <= -m
    decreases if d < 0 then -d else d
  {
    if d > 1 {
      MulAtLeast(m, d - 1);
    } else if d < -1 {
      MulAtLeast(m, d + 1);
    }
  }

  lemma {:induction false} ValueOfToBits(v: nat, width: nat)
    ensures Value(ToBits(v, width)) == v % Pow2(width)
  {
    if width > 0 {
      ValueOfToBits(v / 2, width - 1);
      HalfMod(v, width);
      assert ToBits(v, width)[1..] == ToBits(v / 2, width - 1);
    }
  }

  lemma {:induction false} ValueConcat(a: seq<bool>, b: seq<bool>)
    ensures Value(a + b) == Value(a) + Pow2(|a|) * Value(b)
  {
    if a == [] {
      assert a + b == b;
    } else {
      ValueConcat(a[1..], b);
      assert (a + b)[1..] == a[1..] + b;
      assert Pow2(|a|) * Value(b) == 2 * (Pow2(|a| - 1) * Value(b));
    }
  }

  /** Bit strings of one length denote different numbers. */
  lemma {:induction false} ValueInjective(a: seq<bool>, b: seq<bool>)
    requires |a| == |b| && Value(a) == Value(b)
    ensures a == b
  {
    ToBitsOfValue(a);
    ToBitsOfValue(b);
  }

  lemma {:induction false} ValueZeros(n: nat)
    ensures Value(Zeros(n)) == 0
  {
    if n > 0 {
      ValueZeros(n - 1);
      assert Zeros(n)[1..] == Zeros(n - 1);
    }
  }

  lemma ValuePadded(bits: seq<bool>, n: nat)
    ensures Value(bits + Zeros(n)) == Value(bits)
  {
    ValueConcat(bits, Zeros(n));
    ValueZeros(n);
  }

  /** Bits [from, from+len) of a number are (v / 2^from) mod 2^len. */
  lemma ValueSlice(bits: seq<bool>, from: nat, len: nat)
    requires from + len <= |bits|
    ensures Value(bits[from..from + len]) == Value(bits) / Pow2(from) % Pow2(len)
  {
    var low, mid, high := bits[..from], bits[from..from + len], bits[from + len..];
    assert bits == low + (mid + high);
    ValueConcat(low, mid + high);
    ValueConcat(mid, high);
    ValueBound(low);
    ValueBound(mid);
    DivModUnique(Value(bits), Pow2(from), Value(mid + high), Value(low));
    DivModUnique(Value(mid + high), Pow2(len), Value(high), Value(mid));
  }

  /** Replacing bits in the middle changes the number by their change, times their weight p. */
  lemma ValueReplace(low: seq<bool>, mid: seq<bool>, field: seq<bool>, high: seq<bool>, p: nat, was: nat, next: nat)
    requires |mid| == |field| && p == Pow2(|low|) && was == Value(mid) && next == Value(field)
    ensures Value(low + (field + high)) == Value(low + (mid + high)) + p * (next - was)
  {
    hide Value, Pow2;
    ValueConcat(low, mid + high);
    ValueConcat(low, field + high);
    ReplaceLow(mid, field, high);
    TimesDifference(p, Value(field + high), Value(mid + high), next - was);
  }

  lemma ReplaceLow(mid: seq<bool>, field: seq<bool>, high: seq<bool>)
    requires |mid| == |field|
    ensures Value(field + high) == Value(mid + high) + (Value(field) - Value(mid))
  {
    ValueConcat(mid, high);
    ValueConcat(field, high);
  }

  lemma TimesDifference(p: int, x: int, y: int, d: int)
    requires x == y + d
    ensures p * x == p * y + p * d
  {
  }
}
