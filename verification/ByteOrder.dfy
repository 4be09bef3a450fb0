/**
 What a big-endian bit field is, independent of how the serializer moves bits: the field's
 bytes come most significant first, and when the length is no multiple of 8 the first,
 most significant byte is the partial one.
 */
module ByteOrder {
  datatype Endianess = BitLittleEndian | BitBigEndian

  /** Bits in the most significant byte of a field of `len` bits. */
  function LeadingBits(len: nat): (p: nat)
    requires len > 0
    ensures 1 <= p <= 8 && p <= len && (len - p) % 8 == 0
  {
    if len % 8 == 0 then 8 else len % 8
  }

  /** The buffer bits, in buffer order, of a big-endian field that holds the value bits v. */
  function ToBigEndian(v: seq<bool>): (raw: seq<bool>)
    ensures |raw| == |v|
    decreases |v|
  {
    if |v| <= 8 then v
    else
      var low := |v| - LeadingBits(|v|);
      v[low..] + ToBigEndian(v[..low])
  }

  /** The value bits of a big-endian field whose bits, in buffer order, are raw. */
  function FromBigEndian(raw: seq<bool>): (v: seq<bool>)
    ensures |v| == |raw|
    decreases |raw|
  {
    if |raw| <= 8 then raw
    else
      var p := LeadingBits(|raw|);
      FromBigEndian(raw[p..]) + raw[..p]
  }

  lemma {:induction false} FromToBigEndian(v: seq<bool>)
    ensures FromBigEndian(ToBigEndian(v)) == v
    decreases |v|
  {
    if |v| > 8 {
      var p := LeadingBits(|v|);
      var low := |v| - p;
      FromToBigEndian(v[..low]);
      assert ToBigEndian(v)[p..] == ToBigEndian(v[..low]) && ToBigEndian(v)[..p] == v[low..];
    }
  }

  lemma {:induction false} ToFromBigEndian(raw: seq<bool>)
    ensures ToBigEndian(FromBigEndian(raw)) == raw
    decreases |raw|
  {
    if |raw| > 8 {
      var p := LeadingBits(|raw|);
      var low := |raw| - p;
      ToFromBigEndian(raw[p..]);
      var v := FromBigEndian(raw);
      assert v[..low] == FromBigEndian(raw[p..]) && v[low..] == raw[..p];
    }
  }

  /** Where value bit t of a big-endian field of `len` bits lies among its buffer bits. */
  function RawIndex(len: nat, t: nat): (k: nat)
    requires t < len
    ensures k < len
  {
    var p := LeadingBits(len);
    if t >= len - p then t - (len - p) else len - 8 * (t / 8 + 1) + t % 8
  }

  lemma LeadingShape(m: nat, p: nat)
    requires 1 <= p <= 8
    ensures LeadingBits(8 * m + p) == p
  {
  }

  /** Bit b of the highest, partial byte of the value. */
  lemma {:induction false} ValueLastByteAt(raw: seq<bool>, m: nat, p: nat, b: nat)
    requires 1 <= p <= 8 && |raw| == 8 * m + p && b < p
    ensures FromBigEndian(raw)[8 * m + b] == raw[b]
  {
    hide LeadingBits;
    LeadingShape(m, p);
  }

  /** Bit b of byte a of the value, below the highest. */
  lemma {:induction false} ValueByteAt(raw: seq<bool>, m: nat, p: nat, a: nat, b: nat)
    requires 1 <= p <= 8 && |raw| == 8 * m + p && a < m && b < 8
    ensures FromBigEndian(raw)[8 * a + b] == raw[p + 8 * (m - 1 - a) + b]
    decreases m
  {
    hide LeadingBits;
    LeadingShape(m, p);
    assert FromBigEndian(raw) == FromBigEndian(raw[p..]) + raw[..p];
    if a == m - 1 {
      ValueLastByteAt(raw[p..], m - 1, 8, b);
    } else {
      ValueByteAt(raw[p..], m - 1, 8, a, b);
    }
  }

  lemma RawIndexAt(m: nat, p: nat, a: nat, b: nat)
    requires 1 <= p <= 8 && a <= m && b < 8 && (a == m ==> b < p)
    ensures RawIndex(8 * m + p, 8 * a + b) == if a == m then b else p + 8 * (m - 1 - a) + b
  {
    LeadingShape(m, p);
  }

  lemma FromBigEndianAt(raw: seq<bool>, t: nat)
    requires t < |raw|
    ensures FromBigEndian(raw)[t] == raw[RawIndex(|raw|, t)]
  {
    hide FromBigEndian, RawIndex;
    var p := LeadingBits(|raw|);
    var m, a, b := (|raw| - p) / 8, t / 8, t % 8;
    ByteBounds(m, p, a, b);
    ValueBitAt(raw, m, p, a, b);
  }

  lemma ByteBounds(m: nat, p: nat, a: nat, b: nat)
    requires 1 <= p <= 8 && b < 8 && 8 * a + b < 8 * m + p
    ensures a <= m && (a == m ==> b < p)
  {
  }

  lemma ValueBitAt(raw: seq<bool>, m: nat, p: nat, a: nat, b: nat)
    requires 1 <= p <= 8 && |raw| == 8 * m + p && a <= m && b < 8 && (a == m ==> b < p)
    ensures FromBigEndian(raw)[8 * a + b] == raw[RawIndex(|raw|, 8 * a + b)]
  {
    hide FromBigEndian, RawIndex;
    RawIndexAt(m, p, a, b);
    if a == m {
      ValueLastByteAt(raw, m, p, b);
    } else {
      ValueByteAt(raw, m, p, a, b);
    }
  }

  /** Which value bit lies at buffer bit k of a big-endian field of `len` bits. */
  function ValueIndex(len: nat, k: nat): (t: nat)
    requires k < len
    ensures t < len
  {
    var p := LeadingBits(len);
    if k < p then len - p + k else len - p - 8 * ((k - p) / 8 + 1) + (k - p) % 8
  }

  lemma {:induction false} RawFirstByteAt(v: seq<bool>, m: nat, p: nat, b: nat)
    requires 1 <= p <= 8 && |v| == 8 * m + p && b < p
    ensures ToBigEndian(v)[b] == v[8 * m + b]
  {
    hide LeadingBits;
    LeadingShape(m, p);
  }

  /** Bit b of the byte that follows a others behind the leading, partial one. */
  lemma {:induction false} RawByteAt(v: seq<bool>, m: nat, p: nat, a: nat, b: nat)
    requires 1 <= p <= 8 && |v| == 8 * m + p && a < m && b < 8
    ensures ToBigEndian(v)[p + 8 * a + b] == v[8 * (m - 1 - a) + b]
    decreases m
  {
    LeadingShape(m, p);
    assert ToBigEndian(v) == v[8 * m..] + ToBigEndian(v[..8 * m]);
    if a == 0 {
      RawFirstByteAt(v[..8 * m], m - 1, 8, b);
    } else {
      RawByteAt(v[..8 * m], m - 1, 8, a - 1, b);
    }
  }

  lemma ValueIndexAt(m: nat, p: nat, a: nat, b: nat)
    requires 1 <= p <= 8 && a < m && b < 8
    ensures ValueIndex(8 * m + p, p + 8 * a + b) == 8 * (m - 1 - a) + b
  {
    LeadingShape(m, p);
    assert (8 * a + b) / 8 == a && (8 * a + b) % 8 == b;
  }

  lemma ToBigEndianAt(v: seq<bool>, k: nat)
    requires k < |v|
    ensures ToBigEndian(v)[k] == v[ValueIndex(|v|, k)]
  {
    hide ToBigEndian;
    var p := LeadingBits(|v|);
    var m := (|v| - p) / 8;
    if k < p {
      RawFirstByteAt(v, m, p, k);
    } else {
      RawByteAt(v, m, p, (k - p) / 8, (k - p) % 8);
      ValueIndexAt(m, p, (k - p) / 8, (k - p) % 8);
    }
  }

  /** Bytes a field of `len` bits occupies when it is aligned. */
  function ByteCount(len: nat): (n: nat)
    ensures 8 * n >= len > 8 * n - 8
  {
    (len + 7) / 8
  }

  lemma ByteShape(len: nat)
    requires len > 0
    ensures len == 8 * (ByteCount(len) - 1) + LeadingBits(len)
  {
  }

  /** A big-endian field in bytes: byte a of the value is byte n-1-a of the buffer. */
  lemma RawIndexShape(len: nat, n: nat, t: nat)
    requires t < len && n == ByteCount(len)
    ensures t / 8 == n - 1 ==> RawIndex(len, t) == t % 8 < LeadingBits(len)
    ensures t / 8 < n - 1 ==> RawIndex(len, t) == 8 * (n - 1 - t / 8) + t % 8 - (8 * n - len)
    ensures t / 8 < n
  {
    ByteShape(len);
  }

  lemma ValueIndexShape(len: nat, n: nat, i: nat)
    requires len > 0 && n == ByteCount(len) && 8 * n - len <= i < 8 * n
    ensures i < 8 ==> ValueIndex(len, i - (8 * n - len)) == 8 * (n - 1) + i - (8 * n - len)
    ensures 8 <= i ==> ValueIndex(len, i - (8 * n - len)) == 8 * (n - 1 - i / 8) + i % 8
  {
    ByteShape(len);
    var p := LeadingBits(len);
    if 8 <= i {
      ValueIndexAt(n - 1, p, i / 8 - 1, i % 8);
      assert p + 8 * (i / 8 - 1) + i % 8 == i - (8 * n - len);
    }
  }
}
