/**
 Bit fields as independent variables of one buffer: what writing and reading them means,
 for one write, for any run of writes, and as numbers.
 */
module BitFields {
  import opened Bits
  import opened ByteOrder
  import opened Numbers
  import opened Signals
  import W = Words

  datatype Field = Field(start: nat, len: nat, order: Endianess) {
    ghost predicate Within(bits: seq<bool>) {
      0 < len <= 64 && start + len <= |bits|
    }

    /**
     Whether every write to the field is exact. A big-endian field that needs a ninth byte
     is stored wrongly unless it has all 64 bits.
     */
    predicate Exact() {
      order.BitLittleEndian? || start % 8 + len <= 64 || len == 64
    }

    predicate Disjoint(other: Field) {
      start + len <= other.start || other.start + other.len <= start
    }
  }

  /** The value bits a read of the field returns. */
  function Get(bits: seq<bool>, f: Field): (v: seq<bool>)
    requires f.Within(bits)
  {
    Decode(bits[f.start..f.start + f.len], f.order)
  }

  /** The buffer after a write of the value bits v to the field. */
  function Put(bits: seq<bool>, f: Field, v: seq<bool>): (r: seq<bool>)
    requires f.Within(bits) && |v| == f.len
    ensures |r| == |bits|
  {
    Stored(bits, f.start, Encode(v, f.order), Gap(f.len, f.order))
  }

  lemma DecodeEncode(v: seq<bool>, order: Endianess)
    ensures Decode(Encode(v, order), order) == v
  {
    FromToBigEndian(v);
  }

  /** The offsets of a field in its first byte. */
  lemma FieldOffset(start: nat, base: nat, offset: nat)
    requires base == 8 * (start / 8) && offset == start % 8
    ensures base + offset == start && offset < 8
  {
  }

  /** Writes to an exact field replace the field's bits and nothing else. */
  lemma PutIsOverwrite(bits: seq<bool>, f: Field, v: seq<bool>)
    requires f.Within(bits) && |v| == f.len && f.Exact()
    ensures Put(bits, f, v) == Overwrite(bits, f.start, Encode(v, f.order))
  {
    var raw := Encode(v, f.order);
    var base, offset := 8 * (f.start / 8), f.start % 8;
    FieldOffset(f.start, base, offset);
    forall i | 0 <= i < |bits|
      ensures StoredBit(bits, base, offset, raw, Gap(f.len, f.order), i) == Overwrite(bits, f.start, raw)[i]
    {
      if f.order.BitBigEndian? && f.len == 64 {
        assert Gap(f.len, f.order) == 0;
      }
    }
  }

  /** Round trip and frame of one write. */
  lemma RoundTrip(bits: seq<bool>, f: Field, v: seq<bool>)
    requires f.Within(bits) && |v| == f.len && f.Exact()
    ensures Get(Put(bits, f, v), f) == v
    ensures forall i :: 0 <= i < |bits| && !(f.start <= i < f.start + f.len) ==> Put(bits, f, v)[i] == bits[i]
  {
    PutIsOverwrite(bits, f, v);
    var raw := Encode(v, f.order);
    assert Overwrite(bits, f.start, raw)[f.start..f.start + f.len] == raw;
    DecodeEncode(v, f.order);
  }

  ghost predicate AlwaysRoundTrips(f: Field) {
    forall bits: seq<bool>, v: seq<bool> :: f.Within(bits) && |v| == f.len ==> Get(Put(bits, f, v), f) == v
  }

  ghost predicate AlwaysFramed(f: Field) {
    forall bits: seq<bool>, v: seq<bool>, i |
      f.Within(bits) && |v| == f.len && 0 <= i < |bits| && !(f.start <= i < f.start + f.len) ::
      Put(bits, f, v)[i] == bits[i]
  }

  /** The value 128 as field bits. */
  function Only7(len: nat): (v: seq<bool>)
    requires len > 7
    ensures |v| == len
  {
    Zeros(7) + [true] + Zeros(len - 8)
  }

  /** The smallest whole number of bytes that holds the field, all zero. */
  function ZeroBuffer(f: Field): (bits: seq<bool>)
    ensures |bits| % 8 == 0 && f.start + f.len <= |bits| < f.start + f.len + 8
  {
    Zeros(8 * ((f.start + f.len + 7) / 8))
  }

  /** In an inexact field the value's bit 7 is the field's last bit in the buffer. */
  lemma InexactShape(f: Field)
    requires 0 < f.len <= 64 && !f.Exact()
    ensures 58 <= f.len < 64 && Gap(f.len, f.order) == 64 - f.len
    ensures ValueIndex(f.len, f.len - 1) == 7 && RawIndex(f.len, 7) == f.len - 1
    ensures ValueIndex(f.len, f.len - 1 - (64 - f.len)) == 7 - (64 - f.len)
    ensures f.start + 63 < |ZeroBuffer(f)| && f.start + f.len - 1 >= f.start - f.start % 8 + 64
  {
  }

  /** What goes wrong: writing 128 to an all-zero buffer sets a bit above the field. */
  lemma InexactSpills(f: Field)
    requires 0 < f.len <= 64 && !f.Exact()
    ensures f.Within(ZeroBuffer(f)) && 7 < f.len <= 63 && f.start + 63 < |ZeroBuffer(f)|
    ensures Put(ZeroBuffer(f), f, Only7(f.len))[f.start + 63]
  {
    InexactShape(f);
    var bits, v := ZeroBuffer(f), Only7(f.len);
    ToBigEndianAt(v, f.len - 1);
    var raw := ToBigEndian(v);
    assert raw[f.len - 1];
    assert StoredBit(bits, 8 * (f.start / 8), f.start % 8, raw, 64 - f.len, f.start + 63);
  }

  /** ... and reads back as a value without bit 7. */
  lemma InexactLoses(f: Field)
    requires 0 < f.len <= 64 && !f.Exact()
    ensures f.Within(ZeroBuffer(f)) && 7 < f.len
    ensures !Get(Put(ZeroBuffer(f), f, Only7(f.len)), f)[7]
  {
    hide ToBigEndian, FromBigEndian;
    InexactShape(f);
    var bits, v, k := ZeroBuffer(f), Only7(f.len), f.len - 1;
    var raw, gap := ToBigEndian(v), 64 - f.len;
    ToBigEndianAt(v, k - gap);
    assert !raw[k - gap];
    assert !StoredBit(bits, 8 * (f.start / 8), f.start % 8, raw, gap, f.start + k);
    FromBigEndianAt(Put(bits, f, v)[f.start..f.start + f.len], 7);
  }

  /** The value 128 has bit 7 and no other. */
  lemma ImageOf128(len: nat)
    requires len > 7
    ensures Image(128, len) == Only7(len)
  {
    hide Value;
    var v := Only7(len);
    assert v == Zeros(7) + ([true] + Zeros(len - 8));
    ValueConcat(Zeros(7), [true] + Zeros(len - 8));
    ValueZeros(7);
    ValueOfTopOne(len - 8);
    UnsignedRoundTrip(128, len);
    ValueBound(v);
    ValueInjective(v, Image(128, len));
  }

  lemma ValueOfTopOne(n: nat)
    ensures Value([true] + Zeros(n)) == 1 && Pow2(7) == 128
  {
    ValueZeros(n);
    assert ([true] + Zeros(n))[1..] == Zeros(n);
    Pow2Sum(3, 4);
    assert Pow2(3) == 8 && Pow2(4) == 16;
  }

  /** In an all-zero buffer some write to the field can be seen. */
  lemma SomeWriteShows(f: Field) returns (value: int)
    requires 0 < f.len <= 64
    ensures f.Within(ZeroBuffer(f)) && Put(ZeroBuffer(f), f, Image(value, f.len)) != ZeroBuffer(f)
  {
    var bits := ZeroBuffer(f);
    if f.Exact() {
      value := 1;
      ImageOfOne(f.len);
      RoundTrip(bits, f, Image(1, f.len));
      if f.order.BitBigEndian? {
        FromBigEndianAt(bits[f.start..f.start + f.len], 0);
      }
      assert !Get(bits, f)[0] && Image(1, f.len)[0];
    } else {
      value := 128;
      InexactSpills(f);
      ImageOf128(f.len);
      assert !bits[f.start + 63];
    }
  }

  /** Exact fields are exactly those on which every write round-trips. */
  lemma ExactIffRoundTrips(f: Field)
    requires 0 < f.len <= 64
    ensures f.Exact() <==> AlwaysRoundTrips(f)
  {
    if f.Exact() {
      forall bits: seq<bool>, v: seq<bool> | f.Within(bits) && |v| == f.len
        ensures Get(Put(bits, f, v), f) == v
      {
        RoundTrip(bits, f, v);
      }
    } else {
      InexactLoses(f);
      assert Only7(f.len)[7];
    }
  }

  /** Exact fields are exactly those whose writes leave every other bit alone. */
  lemma ExactIffFramed(f: Field)
    requires 0 < f.len <= 64
    ensures f.Exact() <==> AlwaysFramed(f)
  {
    if f.Exact() {
      forall bits: seq<bool>, v: seq<bool>, i |
        f.Within(bits) && |v| == f.len && 0 <= i < |bits| && !(f.start <= i < f.start + f.len)
        ensures Put(bits, f, v)[i] == bits[i]
      {
        RoundTrip(bits, f, v);
      }
    } else {
      InexactSpills(f);
      assert !ZeroBuffer(f)[f.start + 63];
    }
  }

  /** Reading another, disjoint field does not see a write. */
  lemma DisjointUnaffected(bits: seq<bool>, f: Field, v: seq<bool>, g: Field)
    requires f.Within(bits) && |v| == f.len && f.Exact() && g.Within(bits) && f.Disjoint(g)
    ensures Get(Put(bits, f, v), g) == Get(bits, g)
  {
    RoundTrip(bits, f, v);
    assert Put(bits, f, v)[g.start..g.start + g.len] == bits[g.start..g.start + g.len];
  }

  lemma WritesCommute(bits: seq<bool>, f: Field, v: seq<bool>, g: Field, w: seq<bool>)
    requires f.Within(bits) && |v| == f.len && f.Exact()
    requires g.Within(bits) && |w| == g.len && g.Exact() && f.Disjoint(g)
    ensures Put(Put(bits, f, v), g, w) == Put(Put(bits, g, w), f, v)
  {
    var x, y := Encode(v, f.order), Encode(w, g.order);
    PutIsOverwrite(bits, f, v);
    PutIsOverwrite(Overwrite(bits, f.start, x), g, w);
    PutIsOverwrite(bits, g, w);
    PutIsOverwrite(Overwrite(bits, g.start, y), f, v);
    OverwritesCommute(bits, f.start, x, g.start, y);
  }

  lemma OverwritesCommute(bits: seq<bool>, i: nat, x: seq<bool>, j: nat, y: seq<bool>)
    requires i + |x| <= |bits| && j + |y| <= |bits| && (i + |x| <= j || j + |y| <= i)
    ensures Overwrite(Overwrite(bits, i, x), j, y) == Overwrite(Overwrite(bits, j, y), i, x)
  {
  }

  datatype Write = Write(field: nat, value: seq<bool>)

  /** A layout: exact fields inside the buffer that do not overlap. */
  ghost predicate Layout(bits: seq<bool>, fields: seq<Field>) {
    && (forall i :: 0 <= i < |fields| ==> fields[i].Within(bits) && fields[i].Exact())
    && (forall i, j :: 0 <= i < j < |fields| ==> fields[i].Disjoint(fields[j]))
  }

  ghost predicate WellFormed(fields: seq<Field>, writes: seq<Write>) {
    forall k :: 0 <= k < |writes| ==>
      writes[k].field < |fields| && |writes[k].value| == fields[writes[k].field].len
  }

  /** The buffer after a run of writes, in order. */
  ghost function Run(bits: seq<bool>, fields: seq<Field>, writes: seq<Write>): (r: seq<bool>)
    requires Layout(bits, fields) && WellFormed(fields, writes)
    ensures |r| == |bits|
  {
    if writes == [] then bits
    else
      var w := writes[|writes| - 1];
      Put(Run(bits, fields, writes[..|writes| - 1]), fields[w.field], w.value)
  }

  /** The value of the last write to field j, or its initial value. */
  ghost function LastWritten(writes: seq<Write>, j: nat, initial: seq<bool>): seq<bool> {
    if writes == [] then initial
    else
      var w := writes[|writes| - 1];
      if w.field == j then w.value else LastWritten(writes[..|writes| - 1], j, initial)
  }

  /** Fields behave as independent variables, over any run of writes. */
  lemma {:induction false} IndependentVariables(bits: seq<bool>, fields: seq<Field>, writes: seq<Write>, j: nat)
    requires Layout(bits, fields) && WellFormed(fields, writes) && j < |fields|
    ensures Get(Run(bits, fields, writes), fields[j]) == LastWritten(writes, j, Get(bits, fields[j]))
  {
    if writes != [] {
      var before, w := Run(bits, fields, writes[..|writes| - 1]), writes[|writes| - 1];
      IndependentVariables(bits, fields, writes[..|writes| - 1], j);
      if w.field == j {
        RoundTrip(before, fields[j], w.value);
      } else {
        assert fields[w.field].Disjoint(fields[j]);
        DisjointUnaffected(before, fields[w.field], w.value, fields[j]);
      }
    }
  }

  /** Bits outside all fields survive any run of writes. */
  lemma {:induction false} RunFrame(bits: seq<bool>, fields: seq<Field>, writes: seq<Write>, i: nat)
    requires Layout(bits, fields) && WellFormed(fields, writes) && i < |bits|
    requires forall j :: 0 <= j < |fields| ==> !(fields[j].start <= i < fields[j].start + fields[j].len)
    ensures Run(bits, fields, writes)[i] == bits[i]
  {
    if writes != [] {
      var w := writes[|writes| - 1];
      RunFrame(bits, fields, writes[..|writes| - 1], i);
      RoundTrip(Run(bits, fields, writes[..|writes| - 1]), fields[w.field], w.value);
    }
  }

  /** A little-endian read is a quotient and remainder of the buffer seen as one number. */
  lemma GetAsNumber(s: seq<W.uint8>, f: Field)
    requires f.Within(W.BufferBits(s)) && f.order.BitLittleEndian?
    ensures Value(Get(W.BufferBits(s), f)) == W.BufferValue(s) / Pow2(f.start) % Pow2(f.len)
  {
    hide Value, Pow2, W.BufferValue;
    W.BufferValueIsBits(s);
    ValueSlice(W.BufferBits(s), f.start, f.len);
  }

  /** A little-endian write of x changes the buffer's number by the field's change, at its place. */
  lemma PutAsNumber(s: seq<W.uint8>, now: seq<W.uint8>, f: Field, x: int)
    requires f.Within(W.BufferBits(s)) && f.order.BitLittleEndian?
    requires W.BufferBits(now) == Put(W.BufferBits(s), f, Image(x, f.len))
    ensures W.BufferValue(now) == W.BufferValue(s) + Pow2(f.start) * (x % Pow2(f.len) - Value(Get(W.BufferBits(s), f)))
  {
    hide Value, Pow2, W.BufferValue, Put, Get, Image;
    assert Value(Image(x, f.len)) == x % Pow2(f.len) by { UnsignedRoundTrip(x, f.len); }
    W.BufferValueIsBits(s);
    W.BufferValueIsBits(now);
    var p, was := Pow2(f.start), Value(Get(W.BufferBits(s), f));
    PutValue(W.BufferBits(s), W.BufferBits(now), f, Image(x, f.len), p, x % Pow2(f.len), was);
  }

  lemma PutValue(bits: seq<bool>, now: seq<bool>, f: Field, v: seq<bool>, p: nat, next: nat, was: nat)
    requires f.Within(bits) && f.order.BitLittleEndian? && |v| == f.len && now == Put(bits, f, v)
    requires p == Pow2(f.start) && next == Value(v) && was == Value(Get(bits, f))
    ensures Value(now) == Value(bits) + p * (next - was)
  {
    hide Value, Pow2, Put;
    PutIsOverwrite(bits, f, v);
    var low, mid, high := bits[..f.start], bits[f.start..f.start + f.len], bits[f.start + f.len..];
    assert bits == low + (mid + high) && now == low + (v + high);
    ValueReplace(low, mid, v, high, p, was, next);
  }

  /** Bytes read most significant first. */
  function NetworkValue(s: seq<W.uint8>): nat {
    if s == [] then 0 else s[0] * Pow2(8 * (|s| - 1)) + NetworkValue(s[1..])
  }

  /** A big-endian field of whole bytes is its bytes read most significant first. */
  lemma {:induction false} WholeBytesAreNetworkOrder(s: seq<W.uint8>)
    requires s != []
    ensures Value(FromBigEndian(W.BufferBits(s))) == NetworkValue(s)
  {
    hide FromBigEndian, Value, ToBits, W.BufferBits;
    var first, rest := ToBits(s[0], 8), W.BufferBits(s[1..]);
    W.ByteOfBits(s[0]);
    W.BufferBitsCons(s);
    if |s| == 1 {
      OneByte(first);
      assert first + rest == first;
      assert NetworkValue(s[1..]) == 0 && Pow2(8 * (|s| - 1)) == 1;
    } else {
      WholeBytesAreNetworkOrder(s[1..]);
      FirstByteOnTop(first, rest, Pow2(8 * (|s| - 1)), s[0]);
    }
  }

  lemma OneByte(byte: seq<bool>)
    requires |byte| <= 8
    ensures FromBigEndian(byte) == byte && ToBigEndian(byte) == byte
  {
  }

  lemma {:induction false} FirstByteOnTop(byte: seq<bool>, rest: seq<bool>, p: int, b: int)
    requires 0 < |byte| <= 8 && |rest| > 0 && |rest| % 8 == 0 && p == Pow2(|rest|) && b == Value(byte)
    ensures Value(FromBigEndian(byte + rest)) == b * p + Value(FromBigEndian(rest))
  {
    hide LeadingBits, Value, Pow2;
    var raw := byte + rest;
    LeadingShape(|rest| / 8, |byte|);
    assert raw[|byte|..] == rest && raw[..|byte|] == byte;
    AppendByte(FromBigEndian(rest), byte, p, b);
  }

  /** A big-endian field of any length: its first, partial byte above its other bytes in network order. */
  lemma {:induction false} BigEndianAsNumber(first: seq<bool>, s: seq<W.uint8>, high: nat, weight: nat)
    requires 0 < |first| <= 8 && high == Value(first) && weight == Pow2(8 * |s|)
    ensures Value(FromBigEndian(first + W.BufferBits(s))) == high * weight + NetworkValue(s)
  {
    if s == [] {
      OneByte(first);
      assert first + W.BufferBits(s) == first && weight == 1;
    } else {
      hide FromBigEndian, Value, W.BufferBits, Pow2, NetworkValue;
      WholeBytesAreNetworkOrder(s);
      FirstByteOnTop(first, W.BufferBits(s), weight, high);
    }
  }

  lemma AppendByte(low: seq<bool>, byte: seq<bool>, p: int, b: int)
    requires p == Pow2(|low|) && b == Value(byte)
    ensures Value(low + byte) == b * p + Value(low)
  {
    ValueConcat(low, byte);
  }
}
