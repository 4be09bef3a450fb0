/**
 Direct access to a codec's leaf elements: the small leaf layout, the byte-wise fast path and
 the bit-wise slow path. Integer element types and bool; the target type is the element type.
 */
module LeafAccess {
  import opened Bits
  import opened BitFields
  import opened BitSerializers
  import opened ByteOrder
  import opened Numbers
  import opened Signals
  import opened Words

  datatype DataRepresentation = Deserialized | Serialized

  datatype ElementType = CetEmpty | CetSubCodec | CetUserType | CetLeaf(t: IntType)

  /** The parts of a codec's element layout that matter here. */
  datatype ElementLayout = ElementLayout(
    elementType: ElementType,
    byteOrder: Endianess,
    deserializedBitOffset: nat,
    deserializedTypeBitSize: nat,
    serializedBitOffset: nat,
    serializedTypeBitSize: nat,
    serializedTypeBitSizeUsed: nat)

  /** data_flags: bit 0 says serialized, bit 1 big-endian. */
  datatype Flags = Flags(serialized: bool, bigEndian: bool)

  datatype LeafLayout = LeafLayout(bytePos: nat, bitPos: nat, t: IntType, bitSize: nat, flags: Flags)

  const DESERIALIZED := Flags(false, false)
  const UINT32_RANGE := 0x1_0000_0000

  /** A value, or the exception the source throws. */
  datatype Outcome<T> = Value(value: T) | Thrown

  predicate CheckTypeSize(layout: ElementLayout, rep: DataRepresentation, size: nat) {
    var sizeToCheck := if rep.Serialized? then layout.serializedTypeBitSize / 8 else layout.deserializedTypeBitSize / 8;
    sizeToCheck == size
  }

  predicate CheckLeafLayout(layout: ElementLayout, rep: DataRepresentation) {
    match layout.elementType
    case CetLeaf(t) => CheckTypeSize(layout, rep, t.size)
    case _ => false
  }

  /** Fills the leaf layout the caller passes in; its flags may hold what an earlier call left. */
  method ConvertToLeafLayout(layout: ElementLayout, rep: DataRepresentation, given: LeafLayout)
      returns (ok: bool, leaf: LeafLayout)
    ensures ok <==>
      layout.elementType.CetLeaf?
      && (if rep.Serialized? then layout.serializedTypeBitSize else layout.deserializedTypeBitSize) / 8
         == layout.elementType.t.size
      && (if rep.Serialized? then layout.serializedTypeBitSizeUsed else layout.deserializedTypeBitSize) <= 255
    ensures ok ==> leaf == ConvertedLayout(layout, rep, given)
  {
    leaf := given;
    if !CheckLeafLayout(layout, rep) {
      return false, leaf;
    }
    leaf := leaf.(t := layout.elementType.t);
    if rep == Deserialized {
      leaf := leaf.(flags := DESERIALIZED, bytePos := layout.deserializedBitOffset / 8 % UINT32_RANGE);
      if layout.deserializedTypeBitSize > 255 {
        return false, leaf;
      }
      leaf := leaf.(bitSize := layout.deserializedTypeBitSize);
    } else {
      leaf := leaf.(flags := Flags(true, leaf.flags.bigEndian || layout.byteOrder.BitBigEndian?));
      leaf := leaf.(bitPos := layout.serializedBitOffset % 8);
      leaf := leaf.(bytePos := (layout.serializedBitOffset / 8 + (if leaf.bitPos == 0 then 0 else 1)) % UINT32_RANGE);
      if layout.serializedTypeBitSizeUsed > 255 {
        return false, leaf;
      }
      leaf := leaf.(bitSize := layout.serializedTypeBitSizeUsed);
      if FastPath(layout) {
        leaf := leaf.(flags := DESERIALIZED);
      }
    }
    ok := true;
  }

  /** Serialized and deserialized form of the leaf coincide, in host byte order. */
  predicate FastPath(layout: ElementLayout) {
    && layout.serializedTypeBitSizeUsed == layout.deserializedTypeBitSize
    && layout.serializedBitOffset % 8 == 0
    && layout.byteOrder.BitLittleEndian?
  }

  function ConvertedLayout(layout: ElementLayout, rep: DataRepresentation, given: LeafLayout): LeafLayout
    requires CheckLeafLayout(layout, rep)
  {
    if rep.Deserialized? then
      LeafLayout(layout.deserializedBitOffset / 8 % UINT32_RANGE, given.bitPos, layout.elementType.t,
                 layout.deserializedTypeBitSize, DESERIALIZED)
    else
      LeafLayout((layout.serializedBitOffset + 7) / 8 % UINT32_RANGE, layout.serializedBitOffset % 8,
                 layout.elementType.t, layout.serializedTypeBitSizeUsed,
                 if FastPath(layout) then DESERIALIZED
                 else Flags(true, given.flags.bigEndian || layout.byteOrder.BitBigEndian?))
  }

  /** memcpy out of the buffer. */
  method ReadBytes(t: IntType, data: array<uint8>, bytePos: nat) returns (r: Outcome<int>)
    requires t.Valid()
    ensures r == if bytePos + t.size > data.Length then Thrown
                 else Value(Number(BufferBits(data[bytePos..bytePos + t.size]), t.signed))
    ensures r.Value? ==> t.Holds(r.value)
  {
    if bytePos + t.size > data.Length {
      return Thrown;
    }
    FieldHolds(t, BufferBits(data[bytePos..bytePos + t.size]));
    r := Value(Number(BufferBits(data[bytePos..bytePos + t.size]), t.signed));
  }

  /** memcpy into the buffer. */
  method WriteBytes(t: IntType, data: array<uint8>, bytePos: nat, value: int) returns (ok: bool)
    requires t.Valid() && t.Holds(value)
    modifies data
    ensures ok <==> bytePos + t.size <= data.Length
    ensures ok ==>
      BufferBits(data[..]) == Overwrite(old(BufferBits(data[..])), 8 * bytePos, Image(value, 8 * t.size))
    ensures !ok ==> data[..] == old(data[..])
  {
    hide BufferBits, Image;
    if bytePos + t.size > data.Length {
      return false;
    }
    var image := Image(value, 8 * t.size);
    StoreBytes(data, bytePos, t.size, image + Zeros(64 - 8 * t.size));
    assert BufferBits(data[..]) == Overwrite(old(BufferBits(data[..])), 8 * bytePos, image);
    ok := true;
  }

  /** The serializer on the same buffer. */
  method ReadBits(t: IntType, data: array<uint8>, bitOffset: nat, bitSize: nat, byteOrder: Endianess)
      returns (r: Outcome<int>)
    requires t.Valid() && data.Length <= MAX_BUFFER_BYTES && bitOffset < SIZE_RANGE && bitSize < SIZE_RANGE
    ensures r == if 1 <= bitSize <= 8 * t.size && bitOffset + bitSize <= 8 * data.Length
                 then Value(Number(Get(BufferBits(data[..]), Field(bitOffset, bitSize, byteOrder)), t.signed))
                 else Thrown
    ensures r.Value? ==> t.Holds(r.value)
  {
    var reader := new BitSerializer(data);
    var res, value := reader.Read(t, bitOffset, bitSize, byteOrder, 0);
    if res == Success {
      return Value(value);
    }
    return Thrown;
  }

  method WriteBits(t: IntType, data: array<uint8>, bitOffset: nat, bitSize: nat, byteOrder: Endianess, value: int,
                   following: seq<bool>)
      returns (ok: bool)
    requires t.Valid() && t.Holds(value) && |following| == 64 - 8 * t.size
    requires data.Length <= MAX_BUFFER_BYTES && bitOffset < SIZE_RANGE && bitSize < SIZE_RANGE
    modifies data
    ensures ok <==> 1 <= bitSize <= 8 * t.size && bitOffset + bitSize <= 8 * data.Length
    ensures ok ==>
      BufferBits(data[..]) == Put(old(BufferBits(data[..])), Field(bitOffset, bitSize, byteOrder), Image(value, bitSize))
    ensures !ok ==> data[..] == old(data[..])
  {
    var writer := new BitSerializer(data);
    var res := writer.Write(t, bitOffset, bitSize, value, byteOrder, following);
    ok := res == Success;
  }

  /** Bit position of the slow path: 32-bit arithmetic on the stored byte position. */
  function SlowPathBitPos(leaf: LeafLayout): nat {
    (leaf.bytePos * 8 + leaf.bitPos) % UINT32_RANGE
  }

  method GetValue(data: array<uint8>, leaf: LeafLayout) returns (r: Outcome<int>)
    requires leaf.t.Valid() && data.Length <= MAX_BUFFER_BYTES && leaf.bitSize < SIZE_RANGE
    ensures r == ValueAt(data[..], leaf)
    ensures r.Value? ==> leaf.t.Holds(r.value)
  {
    if leaf.flags.serialized {
      r := ReadBits(leaf.t, data, SlowPathBitPos(leaf), leaf.bitSize,
                    if leaf.flags.bigEndian then BitBigEndian else BitLittleEndian);
    } else {
      r := ReadBytes(leaf.t, data, leaf.bytePos);
      assert data[..][..] == data[..];
      if leaf.bytePos + leaf.t.size <= data.Length {
        assert data[..][leaf.bytePos..leaf.bytePos + leaf.t.size] == data[leaf.bytePos..leaf.bytePos + leaf.t.size];
      }
    }
  }

  method SetValue(data: array<uint8>, leaf: LeafLayout, value: int, following: seq<bool>) returns (ok: bool)
    requires leaf.t.Valid() && leaf.t.Holds(value) && |following| == 64 - 8 * leaf.t.size
    requires data.Length <= MAX_BUFFER_BYTES && leaf.bitSize < SIZE_RANGE
    modifies data
    ensures BufferBits(data[..]) == BitsAfterSet(old(data[..]), leaf, value)
    ensures ok <==> ValueAt(old(data[..]), leaf).Value?
  {
    if leaf.flags.serialized {
      ok := WriteBits(leaf.t, data, SlowPathBitPos(leaf), leaf.bitSize,
                      if leaf.flags.bigEndian then BitBigEndian else BitLittleEndian, value, following);
    } else {
      ok := WriteBytes(leaf.t, data, leaf.bytePos, value);
    }
  }

  /** What reading field `f` as type t gives, or the exception. */
  function FieldValue(bytes: seq<uint8>, t: IntType, f: Field): Outcome<int> {
    if 1 <= f.len <= 8 * t.size && t.size <= 8 && f.start + f.len <= 8 * |bytes|
    then Value(Number(Get(BufferBits(bytes), f), t.signed))
    else Thrown
  }

  /** The buffer's bits after field `f` of type t is set, or unchanged on an exception. */
  function FieldSet(bytes: seq<uint8>, t: IntType, f: Field, value: int): seq<bool> {
    if 1 <= f.len <= 8 * t.size && t.size <= 8 && f.start + f.len <= 8 * |bytes|
    then Put(BufferBits(bytes), f, Image(value, f.len))
    else BufferBits(bytes)
  }

  function SlowPathField(leaf: LeafLayout): Field {
    Field(SlowPathBitPos(leaf), leaf.bitSize, if leaf.flags.bigEndian then BitBigEndian else BitLittleEndian)
  }

  function ValueAt(bytes: seq<uint8>, leaf: LeafLayout): Outcome<int>
    requires leaf.t.Valid()
  {
    if leaf.flags.serialized then FieldValue(bytes, leaf.t, SlowPathField(leaf))
    else if leaf.bytePos + leaf.t.size > |bytes| then Thrown
    else Value(Number(BufferBits(bytes[leaf.bytePos..leaf.bytePos + leaf.t.size]), leaf.t.signed))
  }

  function BitsAfterSet(bytes: seq<uint8>, leaf: LeafLayout, value: int): seq<bool>
    requires leaf.t.Valid()
  {
    if leaf.flags.serialized then FieldSet(bytes, leaf.t, SlowPathField(leaf), value)
    else if leaf.bytePos + leaf.t.size > |bytes| then BufferBits(bytes)
    else Overwrite(BufferBits(bytes), 8 * leaf.bytePos, Image(value, 8 * leaf.t.size))
  }

  /** The element as the codec describes it: where it is, how long, in which byte order. */
  function CodecField(layout: ElementLayout): Field {
    Field(layout.serializedBitOffset, layout.serializedTypeBitSizeUsed, layout.byteOrder)
  }

  /** A converted leaf of a standard type in the serialized representation; `given` is the layout that was filled. */
  ghost predicate Converted(layout: ElementLayout, given: LeafLayout, leaf: LeafLayout) {
    && CheckLeafLayout(layout, Serialized)
    && layout.elementType.t.Valid()
    && layout.deserializedTypeBitSize == 8 * layout.elementType.t.size
    && leaf == ConvertedLayout(layout, Serialized, given)
  }

  /** Whether getting through the leaf layout gives field f, whatever the buffer. */
  ghost predicate ReadsField(leaf: LeafLayout, f: Field)
    requires leaf.t.Valid()
  {
    forall bytes: seq<uint8> :: ValueAt(bytes, leaf) == FieldValue(bytes, leaf.t, f)
  }

  /** Whether setting through the leaf layout sets field f, whatever the buffer and the value. */
  ghost predicate WritesField(leaf: LeafLayout, f: Field)
    requires leaf.t.Valid()
  {
    forall bytes: seq<uint8>, value: int ::
      BitsAfterSet(bytes, leaf, value) == FieldSet(bytes, leaf.t, f, value)
  }

  // ---------- bytes, for the deserialized representation and the fast path ----------

  /** The leaf's bytes as a field in host order. */
  function ByteField(leaf: LeafLayout): Field {
    Field(8 * leaf.bytePos, 8 * leaf.t.size, BitLittleEndian)
  }

  /** The byte form reads and writes exactly the leaf's bytes, in host order. */
  lemma BytesRefine(leaf: LeafLayout, bytes: seq<uint8>, value: int)
    requires leaf.t.Valid() && !leaf.flags.serialized
    ensures ValueAt(bytes, leaf) == FieldValue(bytes, leaf.t, ByteField(leaf))
    ensures BitsAfterSet(bytes, leaf, value) == FieldSet(bytes, leaf.t, ByteField(leaf), value)
  {
    hide BufferBits, Image, Put, Number;
    var f, pos, size := ByteField(leaf), leaf.bytePos, leaf.t.size;
    if pos + size <= |bytes| {
      BufferBitsSlice(bytes, pos, pos + size);
      assert Get(BufferBits(bytes), f) == BufferBits(bytes[pos..pos + size]);
      PutIsOverwrite(BufferBits(bytes), f, Image(value, f.len));
    }
  }

  /** A field that lies behind the bytes, or is longer than they are, is read and written otherwise. */
  lemma BytesDiffer(leaf: LeafLayout, f: Field)
    requires leaf.t.Valid() && !leaf.flags.serialized
    requires f.start + f.len > 8 * (leaf.bytePos + leaf.t.size)
    ensures !ReadsField(leaf, f) && !WritesField(leaf, f)
  {
    hide BufferBits, Image, Put, Number, Get;
    var own := ByteField(leaf);
    var bytes := UpTo(own);
    BytesRefine(leaf, bytes, 0);
    assert FieldValue(bytes, leaf.t, f).Thrown? && FieldValue(bytes, leaf.t, own).Value?;
    assert ValueAt(bytes, leaf) != FieldValue(bytes, leaf.t, f);
    var value := SomeWriteShows(own);
    BitsUpTo(own);
    BytesRefine(leaf, bytes, value);
    assert BitsAfterSet(bytes, leaf, value) != FieldSet(bytes, leaf.t, f, value);
  }

  /** The element in the deserialized representation: in host order, at its own offset. */
  function HostField(layout: ElementLayout): Field {
    Field(layout.deserializedBitOffset, layout.deserializedTypeBitSize, BitLittleEndian)
  }

  /**
   * In the deserialized representation, whatever the layout held before, a converted leaf reads and
   * writes the element exactly when that has whole bytes, is byte-aligned, and starts below byte 2^32.
   */
  lemma DeserializedExactly(layout: ElementLayout, given: LeafLayout, leaf: LeafLayout)
    requires CheckLeafLayout(layout, Deserialized) && layout.elementType.t.Valid()
    requires leaf == ConvertedLayout(layout, Deserialized, given)
    ensures ReadsField(leaf, HostField(layout)) <==> WholeBytes(layout)
    ensures WritesField(leaf, HostField(layout)) <==> WholeBytes(layout)
  {
    if WholeBytes(layout) {
      assert HostField(layout) == ByteField(leaf);
      forall bytes: seq<uint8>
        ensures ValueAt(bytes, leaf) == FieldValue(bytes, leaf.t, ByteField(leaf))
      {
        BytesRefine(leaf, bytes, 0);
      }
      forall bytes: seq<uint8>, value: int
        ensures BitsAfterSet(bytes, leaf, value) == FieldSet(bytes, leaf.t, ByteField(leaf), value)
      {
        BytesRefine(leaf, bytes, value);
      }
    } else {
      BytesDiffer(leaf, HostField(layout));
    }
  }

  predicate WholeBytes(layout: ElementLayout) {
    && layout.deserializedTypeBitSize % 8 == 0
    && layout.deserializedBitOffset % 8 == 0
    && layout.deserializedBitOffset < 8 * UINT32_RANGE
  }

  /** The fast path reads and writes what the serializer does at the codec's own field. */
  lemma FastPathRefines(layout: ElementLayout, given: LeafLayout, leaf: LeafLayout, bytes: seq<uint8>, value: int)
    requires Converted(layout, given, leaf) && FastPath(layout)
    requires layout.serializedBitOffset < 8 * UINT32_RANGE
    ensures ValueAt(bytes, leaf) == FieldValue(bytes, leaf.t, CodecField(layout))
    ensures BitsAfterSet(bytes, leaf, value) == FieldSet(bytes, leaf.t, CodecField(layout), value)
  {
    assert CodecField(layout) == ByteField(leaf);
    BytesRefine(leaf, bytes, value);
  }

  /** The fast path reads and writes the codec's field exactly when that starts below byte 2^32. */
  lemma FastPathExactly(layout: ElementLayout, given: LeafLayout, leaf: LeafLayout)
    requires Converted(layout, given, leaf) && FastPath(layout)
    ensures ReadsField(leaf, CodecField(layout)) <==> layout.serializedBitOffset < 8 * UINT32_RANGE
    ensures WritesField(leaf, CodecField(layout)) <==> layout.serializedBitOffset < 8 * UINT32_RANGE
  {
    hide FieldValue, FieldSet;
    if layout.serializedBitOffset < 8 * UINT32_RANGE {
      forall bytes: seq<uint8>
        ensures ValueAt(bytes, leaf) == FieldValue(bytes, leaf.t, CodecField(layout))
      {
        FastPathRefines(layout, given, leaf, bytes, 0);
      }
      forall bytes: seq<uint8>, value: int
        ensures BitsAfterSet(bytes, leaf, value) == FieldSet(bytes, leaf.t, CodecField(layout), value)
      {
        FastPathRefines(layout, given, leaf, bytes, value);
      }
    } else {
      BytesDiffer(leaf, CodecField(layout));
    }
  }

  // ---------- the slow path ----------

  /** The field is byte-aligned and starts below bit 2^32. */
  predicate Reachable(layout: ElementLayout) {
    layout.serializedBitOffset % 8 == 0 && layout.serializedBitOffset < UINT32_RANGE
  }

  /** The field's length is one that its type can hold. */
  predicate Fits(layout: ElementLayout)
    requires layout.elementType.CetLeaf?
  {
    1 <= layout.serializedTypeBitSizeUsed <= 8 * layout.elementType.t.size
  }

  /** No big-endian flag is left over from an earlier conversion, or it makes no difference. */
  predicate OrderKept(layout: ElementLayout, given: LeafLayout) {
    layout.byteOrder.BitBigEndian? || !given.flags.bigEndian || layout.serializedTypeBitSizeUsed <= 8
  }

  /** Rounding up and adding the bit position again meets the codec's position exactly there. */
  lemma SlowPathPosition(layout: ElementLayout, given: LeafLayout, leaf: LeafLayout)
    requires Converted(layout, given, leaf) && !FastPath(layout)
    ensures SlowPathField(leaf).start == layout.serializedBitOffset <==> Reachable(layout)
    ensures !Reachable(layout) ==>
      var at, wanted := SlowPathField(leaf), CodecField(layout);
      at.start + 8 <= wanted.start || wanted.start + 8 <= at.start
  {
  }

  /** In a field of one byte the byte order makes no difference. */
  lemma OneByteHasNoOrder(bytes: seq<uint8>, t: IntType, f: Field, g: Field, value: int)
    requires t.Valid() && f.start == g.start && f.len == g.len <= 8
    ensures FieldValue(bytes, t, f) == FieldValue(bytes, t, g)
    ensures FieldSet(bytes, t, f, value) == FieldSet(bytes, t, g, value)
  {
    if 1 <= f.len <= 8 * t.size && f.start + f.len <= 8 * |bytes| {
      hide BufferBits, Image, Put, Number, FromBigEndian, ToBigEndian;
      var bits, v := BufferBits(bytes), Image(value, f.len);
      OneByte(v);
      OneByte(bits[f.start..f.start + f.len]);
      PutIsOverwrite(bits, f, v);
      PutIsOverwrite(bits, g, v);
      assert Put(bits, f, v) == Put(bits, g, v) && Get(bits, f) == Get(bits, g);
    }
  }

  /** Where the field is reachable and its order kept, both directions agree with the codec. */
  lemma SlowPathRefines(layout: ElementLayout, given: LeafLayout, leaf: LeafLayout, bytes: seq<uint8>, value: int)
    requires Converted(layout, given, leaf) && !FastPath(layout) && Reachable(layout) && OrderKept(layout, given)
    ensures ValueAt(bytes, leaf) == FieldValue(bytes, leaf.t, CodecField(layout))
    ensures BitsAfterSet(bytes, leaf, value) == FieldSet(bytes, leaf.t, CodecField(layout), value)
  {
    hide FieldValue, FieldSet;
    SlowPathPosition(layout, given, leaf);
    if layout.serializedTypeBitSizeUsed <= 8 {
      OneByteHasNoOrder(bytes, leaf.t, SlowPathField(leaf), CodecField(layout), value);
    } else {
      assert SlowPathField(leaf) == CodecField(layout);
    }
  }

  /** The shortest all-zero buffer that holds the field. */
  function UpTo(f: Field): (bytes: seq<uint8>)
    ensures f.start + f.len <= 8 * |bytes| < f.start + f.len + 8
  {
    seq((f.start + f.len + 7) / 8, i => 0)
  }

  lemma BitsUpTo(f: Field)
    ensures BufferBits(UpTo(f)) == ZeroBuffer(f)
  {
    NoBits(8);
  }

  /** At a wrong place one of the two is behind the end of some buffer, and the other is not. */
  lemma WrongPlaceShows(t: IntType, at: Field, wanted: Field)
    requires t.Valid() && 1 <= at.len == wanted.len <= 8 * t.size
    requires at.start + 8 <= wanted.start || wanted.start + 8 <= at.start
    ensures exists bytes: seq<uint8> :: FieldValue(bytes, t, at) != FieldValue(bytes, t, wanted)
    ensures exists bytes: seq<uint8>, value: int :: FieldSet(bytes, t, at, value) != FieldSet(bytes, t, wanted, value)
  {
    hide BufferBits, Get, Put, Number, Image;
    var earlier, later := if at.start < wanted.start then at else wanted, if at.start < wanted.start then wanted else at;
    var bytes := UpTo(earlier);
    assert FieldValue(bytes, t, earlier).Value? && FieldValue(bytes, t, later).Thrown?;
    assert FieldValue(bytes, t, at) != FieldValue(bytes, t, wanted);
    var value := SomeWriteShows(earlier);
    BitsUpTo(earlier);
    assert FieldSet(bytes, t, earlier, value) != BufferBits(bytes) && FieldSet(bytes, t, later, value) == BufferBits(bytes);
    assert FieldSet(bytes, t, at, value) != FieldSet(bytes, t, wanted, value);
  }

  /** In a longer field the wrong order reads 1 as an even number and writes it elsewhere. */
  lemma WrongOrderShows(t: IntType, f: Field)
    requires t.Valid() && 8 < f.len <= 8 * t.size && f.start % 8 == 0 && f.order.BitLittleEndian?
    ensures exists bytes: seq<uint8> :: FieldValue(bytes, t, f.(order := BitBigEndian)) != FieldValue(bytes, t, f)
    ensures exists bytes: seq<uint8>, value: int ::
      FieldSet(bytes, t, f.(order := BitBigEndian), value) != FieldSet(bytes, t, f, value)
  {
    hide Number, Image, Put;
    var g, zeros, one := f.(order := BitBigEndian), UpTo(f), Image(1, f.len);
    var bits := BufferBits(zeros);
    BitsUpTo(f);
    ImageOfOne(f.len);
    PutIsOverwrite(bits, f, one);
    PutIsOverwrite(bits, g, one);
    ToBigEndianAt(one, 0);
    assert Put(bits, f, one)[f.start] && !Put(bits, g, one)[f.start];
    assert FieldSet(zeros, t, g, 1) != FieldSet(zeros, t, f, 1);
    OneReadsDifferently(f, g, t);
  }

  /** The buffer that has 1 in the field's first byte and 0 in all others. */
  function OneAt(f: Field): (bytes: seq<uint8>)
    ensures |bytes| == (f.start + f.len + 7) / 8
  {
    seq((f.start + f.len + 7) / 8, i => if i == f.start / 8 then 1 else 0)
  }

  lemma BitsOfOneAt(f: Field, i: nat)
    requires f.start % 8 == 0 && i < f.len
    ensures BufferBits(OneAt(f))[f.start + i] <==> i == 0
  {
    NoBits(8);
    NoBits(7);
    assert ToBits(1, 8) == [true] + Zeros(7);
    assert (f.start + i) / 8 == f.start / 8 + i / 8 && (f.start + i) % 8 == i % 8;
  }

  lemma FirstValueBit(len: nat)
    requires len > 8
    ensures RawIndex(len, 0) == len - 8
  {
  }

  lemma FirstBits(bits: seq<bool>, f: Field, g: Field)
    requires f.Within(bits) && f.order.BitLittleEndian? && g == f.(order := BitBigEndian)
    ensures Get(bits, f)[0] == bits[f.start] && Get(bits, g)[0] == bits[f.start + RawIndex(f.len, 0)]
  {
    hide FromBigEndian, RawIndex;
    FromBigEndianAt(bits[f.start..f.start + f.len], 0);
  }

  /** A 1 in little-endian order is even in big-endian order. */
  lemma OneReadsDifferently(f: Field, g: Field, t: IntType)
    requires t.Valid() && 8 < f.len <= 8 * t.size && f.start % 8 == 0 && f.order.BitLittleEndian?
    requires g == f.(order := BitBigEndian)
    ensures FieldValue(OneAt(f), t, g) != FieldValue(OneAt(f), t, f)
  {
    hide Number, BufferBits, RawIndex, Decode, OneAt;
    var bits := BufferBits(OneAt(f));
    FirstValueBit(f.len);
    BitsOfOneAt(f, 0);
    BitsOfOneAt(f, RawIndex(f.len, 0));
    FirstBits(bits, f, g);
    NumberParity(Get(bits, f), t.signed);
    NumberParity(Get(bits, g), t.signed);
  }

  lemma NotCodecField(layout: ElementLayout, leaf: LeafLayout)
    requires leaf.t.Valid() && leaf.flags.serialized
    requires exists bytes: seq<uint8> ::
      FieldValue(bytes, leaf.t, SlowPathField(leaf)) != FieldValue(bytes, leaf.t, CodecField(layout))
    requires exists bytes: seq<uint8>, value: int ::
      FieldSet(bytes, leaf.t, SlowPathField(leaf), value) != FieldSet(bytes, leaf.t, CodecField(layout), value)
    ensures !ReadsField(leaf, CodecField(layout)) && !WritesField(leaf, CodecField(layout))
  {
    hide FieldValue, FieldSet;
    var read: seq<uint8> :|
      FieldValue(read, leaf.t, SlowPathField(leaf)) != FieldValue(read, leaf.t, CodecField(layout));
    assert ValueAt(read, leaf) != FieldValue(read, leaf.t, CodecField(layout));
    var bytes: seq<uint8>, value: int :|
      FieldSet(bytes, leaf.t, SlowPathField(leaf), value) != FieldSet(bytes, leaf.t, CodecField(layout), value);
    assert BitsAfterSet(bytes, leaf, value) != FieldSet(bytes, leaf.t, CodecField(layout), value);
  }

  /**
   * Getting and setting through a leaf layout on the slow path is getting and setting the codec's
   * field exactly when the field is byte-aligned, starts below bit 2^32, and is not a longer
   * little-endian field whose layout still has the big-endian flag of an earlier conversion. A
   * field that does not fit its type is refused by both.
   */
  lemma SlowPathExactly(layout: ElementLayout, given: LeafLayout, leaf: LeafLayout)
    requires Converted(layout, given, leaf) && !FastPath(layout)
    ensures ReadsField(leaf, CodecField(layout)) <==> !Fits(layout) || (Reachable(layout) && OrderKept(layout, given))
    ensures WritesField(leaf, CodecField(layout)) <==> !Fits(layout) || (Reachable(layout) && OrderKept(layout, given))
  {
    if Fits(layout) {
      FittingExactly(layout, given, leaf);
    }
  }

  lemma FittingExactly(layout: ElementLayout, given: LeafLayout, leaf: LeafLayout)
    requires Converted(layout, given, leaf) && !FastPath(layout) && Fits(layout)
    ensures ReadsField(leaf, CodecField(layout)) <==> Reachable(layout) && OrderKept(layout, given)
    ensures WritesField(leaf, CodecField(layout)) <==> Reachable(layout) && OrderKept(layout, given)
  {
    hide FieldValue, FieldSet;
    SlowPathPosition(layout, given, leaf);
    var at, wanted := SlowPathField(leaf), CodecField(layout);
    if Reachable(layout) && OrderKept(layout, given) {
      forall bytes: seq<uint8>
        ensures ValueAt(bytes, leaf) == FieldValue(bytes, leaf.t, wanted)
      {
        SlowPathRefines(layout, given, leaf, bytes, 0);
      }
      forall bytes: seq<uint8>, value: int
        ensures BitsAfterSet(bytes, leaf, value) == FieldSet(bytes, leaf.t, wanted, value)
      {
        SlowPathRefines(layout, given, leaf, bytes, value);
      }
    } else if !Reachable(layout) {
      WrongPlaceShows(leaf.t, at, wanted);
      NotCodecField(layout, leaf);
    } else {
      assert at == wanted.(order := BitBigEndian);
      WrongOrderShows(leaf.t, wanted);
      NotCodecField(layout, leaf);
    }
  }

  /** Under the same condition an element is read and written as the codec describes it, on either path. */
  lemma LeafIsCodecField(layout: ElementLayout, given: LeafLayout, leaf: LeafLayout, bytes: seq<uint8>, value: int)
    requires Converted(layout, given, leaf) && Reachable(layout) && OrderKept(layout, given)
    ensures ValueAt(bytes, leaf) == FieldValue(bytes, leaf.t, CodecField(layout))
    ensures BitsAfterSet(bytes, leaf, value) == FieldSet(bytes, leaf.t, CodecField(layout), value)
  {
    if FastPath(layout) {
      FastPathRefines(layout, given, leaf, bytes, value);
    } else {
      SlowPathRefines(layout, given, leaf, bytes, value);
    }
  }
}
