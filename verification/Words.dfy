/**
 64-bit words and byte buffers of a little-endian host. A word is its 64 bits, least
 significant first, so that byte k of its memory image is bits [8k, 8k+8).
 */
module Words {
  import opened Bits

  type uint8 = b: int | 0 <= b < 256
  type Word = w: seq<bool> | |w| == 64 witness Zeros(64)

  const ALL_ONES: Word := seq(64, i => true)

  /** `w << n`; a shift by the full width is undefined in the source language. */
  function Shl(w: Word, n: nat): (r: Word)
    requires n < 64
    ensures forall i :: 0 <= i < 64 ==> r[i] == (n <= i && w[i - n])
  {
    Zeros(n) + w[..64 - n]
  }

  /** `w >> n` */
  function Shr(w: Word, n: nat): (r: Word)
    requires n < 64
    ensures forall i :: 0 <= i < 64 ==> r[i] == (i + n < 64 && w[i + n])
  {
    w[n..] + Zeros(n)
  }

  function And(a: Word, b: Word): (r: Word)
    ensures forall i :: 0 <= i < 64 ==> r[i] == (a[i] && b[i])
  {
    seq(64, i requires 0 <= i < 64 => a[i] && b[i])
  }

  function Or(a: Word, b: Word): (r: Word)
    ensures forall i :: 0 <= i < 64 ==> r[i] == (a[i] || b[i])
  {
    seq(64, i requires 0 <= i < 64 => a[i] || b[i])
  }

  function Not(a: Word): (r: Word)
    ensures forall i :: 0 <= i < 64 ==> r[i] == !a[i]
  {
    seq(64, i requires 0 <= i < 64 => !a[i])
  }

  /** The n lowest bits of a word, the others cleared. */
  function Low(w: Word, n: nat): (r: Word)
    ensures forall i :: 0 <= i < 64 ==> r[i] == (i < n && w[i])
  {
    seq(64, i requires 0 <= i < 64 => i < n && w[i])
  }

  /** `((uint8_t*)&w)[0] >>= n` */
  function ShrLowByte(w: Word, n: nat): (r: Word)
    requires n < 8
    ensures forall i :: 0 <= i < 8 ==> r[i] == (i + n < 8 && w[i + n])
    ensures forall i :: 8 <= i < 64 ==> r[i] == w[i]
  {
    w[n..8] + Zeros(n) + w[8..]
  }

  /** `((uint8_t*)&w)[0] <<= n` */
  function ShlLowByte(w: Word, n: nat): (r: Word)
    requires n < 8
    ensures forall i :: 0 <= i < 8 ==> r[i] == (n <= i && w[i - n])
    ensures forall i :: 8 <= i < 64 ==> r[i] == w[i]
  {
    Zeros(n) + w[..8 - n] + w[8..]
  }

  /** `swapEndianess` on the low `bytes` bytes of a word. */
  function SwapLowBytes(w: Word, bytes: nat): (r: Word)
    requires bytes <= 8
    ensures forall i :: 0 <= i < 8 * bytes ==> r[i] == w[8 * (bytes - 1 - i / 8) + i % 8]
    ensures forall i :: 8 * bytes <= i < 64 ==> r[i] == w[i]
  {
    seq(64, i requires 0 <= i < 64 => if i < 8 * bytes then w[8 * (bytes - 1 - i / 8) + i % 8] else w[i])
  }

  /** The bits of a byte buffer: bit i is bit i%8 of byte i/8. */
  function BufferBits(s: seq<uint8>): (bits: seq<bool>)
    ensures |bits| == 8 * |s|
    ensures forall i :: 0 <= i < 8 * |s| ==> bits[i] == ToBits(s[i / 8], 8)[i % 8]
  {
    seq(8 * |s|, i requires 0 <= i < 8 * |s| => ToBits(s[i / 8], 8)[i % 8])
  }

  /** The buffer read as one number, byte 0 least significant. */
  function BufferValue(s: seq<uint8>): nat {
    if s == [] then 0 else s[0] + 256 * BufferValue(s[1..])
  }

  lemma ByteOfBits(b: uint8)
    ensures Value(ToBits(b, 8)) == b
  {
    ValueOfToBits(b, 8);
    PowOfByte();
  }

  lemma PowOfByte()
    ensures Pow2(8) == 256
  {
    Pow2Sum(4, 4);
  }

  lemma ByteConcat(b: uint8, rest: seq<bool>)
    ensures Value(ToBits(b, 8) + rest) == b + 256 * Value(rest)
  {
    ValueConcat(ToBits(b, 8), rest);
    ByteOfBits(b);
    PowOfByte();
    SameFactor(Pow2(8), 256, Value(rest));
  }

  lemma SameFactor(p: int, q: int, x: int)
    requires p == q
    ensures p * x == q * x
  {
  }

  lemma BufferBitsCons(s: seq<uint8>)
    requires s != []
    ensures BufferBits(s) == ToBits(s[0], 8) + BufferBits(s[1..])
  {
    forall i | 8 <= i < 8 * |s|
      ensures BufferBits(s)[i] == BufferBits(s[1..])[i - 8]
    {
      assert (i - 8) / 8 == i / 8 - 1 && (i - 8) % 8 == i % 8;
    }
  }

  lemma {:induction false} BufferValueIsBits(s: seq<uint8>)
    ensures BufferValue(s) == Value(BufferBits(s))
  {
    if s != [] {
      BufferValueIsBits(s[1..]);
      BufferBitsCons(s);
      ByteConcat(s[0], BufferBits(s[1..]));
    }
  }

  lemma BufferBitsSlice(s: seq<uint8>, from: nat, to: nat)
    requires from <= to <= |s|
    ensures BufferBits(s[from..to]) == BufferBits(s)[8 * from..8 * to]
  {
    hide ToBits, BufferBits;
    forall i | 0 <= i < 8 * (to - from)
      ensures BufferBits(s[from..to])[i] == BufferBits(s)[8 * from + i]
    {
      assert (8 * from + i) / 8 == from + i / 8 && (8 * from + i) % 8 == i % 8;
    }
  }

  /** Buffers of one length with the same bits are the same buffer. */
  lemma BufferBitsInjective(s: seq<uint8>, t: seq<uint8>)
    requires BufferBits(s) == BufferBits(t)
    ensures s == t
  {
    forall k | 0 <= k < |s|
      ensures s[k] == t[k]
    {
      forall i | 0 <= i < 8
        ensures ToBits(s[k], 8)[i] == ToBits(t[k], 8)[i]
      {
        assert BufferBits(s)[8 * k + i] == BufferBits(t)[8 * k + i];
        assert (8 * k + i) / 8 == k && (8 * k + i) % 8 == i;
      }
      assert ToBits(s[k], 8) == ToBits(t[k], 8);
      ByteOfBits(s[k]);
      ByteOfBits(t[k]);
    }
  }

  /** Byte k of a word's memory image. */
  function ByteOf(w: Word, k: nat): (b: uint8)
    requires k < 8
    ensures ToBits(b, 8) == w[8 * k..8 * k + 8]
  {
    var bits := w[8 * k..8 * k + 8];
    ValueBound(bits);
    ToBitsOfValue(bits);
    PowOfByte();
    Value(bits)
  }

  /** memcpy of `count` bytes of the buffer into a zeroed word. */
  method LoadBytes(buffer: array<uint8>, from: nat, count: nat) returns (w: Word)
    requires count <= 8 && from + count <= buffer.Length
    ensures forall i :: 0 <= i < 64 ==> w[i] == (i < 8 * count && BufferBits(buffer[..])[8 * from + i])
  {
    w := BufferBits(buffer[from..from + count]) + Zeros(64 - 8 * count);
    BufferBitsSlice(buffer[..], from, from + count);
    assert buffer[..][from..from + count] == buffer[from..from + count];
  }

  /** memcpy of the low `count` bytes of a word into the buffer. */
  method StoreBytes(buffer: array<uint8>, from: nat, count: nat, w: Word)
    requires count <= 8 && from + count <= buffer.Length
    modifies buffer
    ensures forall i :: 0 <= i < 8 * buffer.Length ==>
      BufferBits(buffer[..])[i]
        == if 8 * from <= i < 8 * (from + count) then w[i - 8 * from] else old(BufferBits(buffer[..]))[i]
  {
    var k := 0;
    while k < count
      invariant 0 <= k <= count
      invariant forall j :: 0 <= j < buffer.Length && !(from <= j < from + k) ==> buffer[j] == old(buffer[j])
      invariant forall j :: 0 <= j < k ==> buffer[from + j] == ByteOf(w, j)
    {
      buffer[from + k] := ByteOf(w, k);
      k := k + 1;
    }
    ghost var was, now := old(BufferBits(buffer[..])), BufferBits(buffer[..]);
    forall i | 0 <= i < |now|
      ensures now[i] == if 8 * from <= i < 8 * (from + count) then w[i - 8 * from] else was[i]
    {
      var j := i / 8;
      if from <= j < from + count {
        assert buffer[..][j] == ByteOf(w, j - from);
        assert (i - 8 * from) == 8 * (j - from) + i % 8;
      }
    }
  }
}
