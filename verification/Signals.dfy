/**
 readSignal and writeSignal on a little-endian host, step by step on 64-bit words, proved
 against bit fields of the buffer.
 */
module Signals {
  import opened Bits
  import opened Words
  import opened ByteOrder

  /** The value bits of a field, given its bits in buffer order. */
  function Decode(raw: seq<bool>, endianess: Endianess): (v: seq<bool>)
    ensures |v| == |raw|
  {
    if endianess.BitBigEndian? then FromBigEndian(raw) else raw
  }

  /** The bits in buffer order of a field that holds the value bits v. */
  function Encode(v: seq<bool>, endianess: Endianess): (raw: seq<bool>)
    ensures |raw| == |v|
  {
    if endianess.BitBigEndian? then ToBigEndian(v) else v
  }

  /** Keeps the `bitLength` lowest bits of a word. */
  method CutLeadingBits(value: Word, bitLength: nat) returns (r: Word)
    requires bitLength > 0
    ensures r == Low(value, bitLength)
  {
    r := value;
    if bitLength < 64 {
      var mask := ALL_ONES;
      mask := Shr(mask, 64 - bitLength);
      r := And(r, mask);
    }
  }

  /** Aligning a short signal at the top of a register and swapping all of that swaps just its bytes. */
  lemma SwapAligned(signal: Word, n: nat, register: nat)
    requires 0 < n <= register <= 8
    requires forall i :: 8 * n <= i < 64 ==> !signal[i]
    ensures SwapLowBytes(Shl(signal, 8 * (register - n)), register) == SwapLowBytes(signal, n)
  {
    var aligned := Shl(signal, 8 * (register - n));
    forall i | 0 <= i < 64
      ensures SwapLowBytes(aligned, register)[i] == SwapLowBytes(signal, n)[i]
    {
      var a, b := i / 8, i % 8;
      var from := 8 * (register - 1 - a) + b;
      if a < n {
        assert aligned[from] == signal[from - 8 * (register - n)];
        assert from - 8 * (register - n) == 8 * (n - 1 - a) + b;
      } else if a < register {
        assert 0 <= from < 8 * (register - n);
        assert !aligned[from];
      } else {
        assert aligned[i] == signal[i - 8 * (register - n)] && !signal[i];
      }
    }
  }

  lemma RegisterShift(bitLength: nat, register: nat)
    requires 0 < bitLength <= 8 * register
    ensures (8 * register - bitLength) / 8 * 8 == 8 * (register - ByteCount(bitLength))
  {
  }

  /** Swaps all of a register after aligning the signal at its top. */
  method SwapInRegister(signal: Word, bitLength: nat, register: nat) returns (r: Word)
    requires 0 < bitLength <= 8 * register <= 64
    requires forall i :: 8 * ByteCount(bitLength) <= i < 64 ==> !signal[i]
    ensures r == SwapLowBytes(signal, ByteCount(bitLength))
  {
    RegisterShift(bitLength, register);
    r := Shl(signal, (8 * register - bitLength) / 8 * 8);
    r := SwapLowBytes(r, register);
    SwapAligned(signal, ByteCount(bitLength), register);
  }

  /** Swaps the byte order of a signal that has no bits above its own bytes. */
  method ConvertSignalEndianess(signal: Word, endianess: Endianess, bitLength: nat) returns (r: Word)
    requires 0 < bitLength <= 64
    requires forall i :: 8 * ByteCount(bitLength) <= i < 64 ==> !signal[i]
    ensures endianess.BitBigEndian? ==> r == SwapLowBytes(signal, ByteCount(bitLength))
    ensures endianess.BitLittleEndian? ==> r == signal
  {
    r := signal;
    ShortCounts(bitLength);
    if bitLength > 8 {
      if endianess != BitLittleEndian {
        if bitLength > 32 {
          r := SwapInRegister(signal, bitLength, 8);
        } else if bitLength > 16 {
          r := SwapInRegister(signal, bitLength, 4);
        } else {
          r := SwapLowBytes(r, 2);
        }
      }
    } else {
      SwapOneByte(signal);
    }
  }

  lemma ShortCounts(bitLength: nat)
    requires bitLength > 0
    ensures bitLength <= 8 ==> ByteCount(bitLength) == 1
    ensures 8 < bitLength <= 16 ==> ByteCount(bitLength) == 2
  {
  }

  lemma SwapOneByte(signal: Word)
    ensures SwapLowBytes(signal, 1) == signal
  {
  }

  /** Rounding a number of bits up to whole bytes as the source does it. */
  lemma RoundedUp(bits: nat, rounded: nat)
    requires rounded == if bits % 8 > 0 then bits + (8 - bits % 8) else bits
    ensures rounded / 8 == ByteCount(bits)
  {
  }

  /** Bits behind a field in its last byte. */
  function OffsetEnd(startBit: nat, bitLength: nat): (n: nat)
    ensures n < 8
  {
    (8 - (startBit + bitLength) % 8) % 8
  }

  lemma BitsToByteEnd(bits: nat)
    ensures (8 - bits % 8) % 8 == 8 * ByteCount(bits) - bits
  {
  }

  lemma OffsetEndShape(startBit: nat, bitLength: nat, offsetStart: nat, whole: nat)
    requires offsetStart == startBit % 8 && whole == 8 * ByteCount(offsetStart + bitLength)
    ensures OffsetEnd(startBit, bitLength) == whole - (offsetStart + bitLength)
  {
    assert (startBit + bitLength) % 8 == (offsetStart + bitLength) % 8;
    BitsToByteEnd(offsetStart + bitLength);
  }

  /** The two offsets add up to the gap of a field's partial byte. */
  lemma OffsetsAreGap(startBit: nat, bitLength: nat, offsetStart: nat)
    requires bitLength > 0 && offsetStart == startBit % 8
    ensures (OffsetEnd(startBit, bitLength) + offsetStart) % 8 == 8 * ByteCount(bitLength) - bitLength
  {
    OffsetEndShape(startBit, bitLength, offsetStart, 8 * ByteCount(offsetStart + bitLength));
    var gap := 8 * ByteCount(bitLength) - bitLength;
    var blocks := ByteCount(offsetStart + bitLength) - ByteCount(bitLength);
    assert OffsetEnd(startBit, bitLength) + offsetStart == gap + 8 * blocks;
  }

  /** Copies the bytes that hold the field into a word, and a ninth byte if there is one. */
  method CopyBytesFromBuffer(buffer: array<uint8>, startBit: nat, bitLength: nat)
      returns (value: Word, ninthByte: Word, bytesToRead: nat)
    requires 0 < bitLength <= 64 && startBit + bitLength <= 8 * buffer.Length
    ensures bytesToRead == ByteCount(startBit % 8 + bitLength) && startBit / 8 + bytesToRead <= buffer.Length
    ensures bytesToRead < 9 ==> ninthByte == Zeros(64)
    ensures Copied(BufferBits(buffer[..]), 8 * (startBit / 8), 8 * bytesToRead, value, ninthByte)
  {
    var startByte := startBit / 8;
    var bitsToRead := bitLength + startBit % 8;
    if bitsToRead % 8 > 0 {
      bitsToRead := bitsToRead + (8 - bitsToRead % 8);
    }
    RoundedUp(bitLength + startBit % 8, bitsToRead);
    bytesToRead := bitsToRead / 8;
    BytesFit(startBit, startByte, bitLength, bytesToRead, buffer.Length);
    value, ninthByte := CopyWords(buffer, startByte, bytesToRead);
  }

  /** The copies themselves: at most eight bytes, and the ninth. */
  method CopyWords(buffer: array<uint8>, startByte: nat, bytesToRead: nat) returns (value: Word, ninthByte: Word)
    requires bytesToRead <= 9 && startByte + bytesToRead <= buffer.Length
    ensures bytesToRead < 9 ==> ninthByte == Zeros(64)
    ensures Copied(BufferBits(buffer[..]), 8 * startByte, 8 * bytesToRead, value, ninthByte)
  {
    if bytesToRead > 8 {
      value := LoadBytes(buffer, startByte, 8);
    } else {
      value := LoadBytes(buffer, startByte, bytesToRead);
    }
    ninthByte := Zeros(64);
    if bytesToRead > 8 {
      ninthByte := LoadBytes(buffer, startByte + 8, 1);
      assert 8 * (startByte + 8) == 8 * startByte + 64;
    }
  }

  lemma BytesFit(startBit: nat, startByte: nat, bitLength: nat, bytes: nat, length: nat)
    requires 0 < bitLength <= 64 && startBit + bitLength <= 8 * length
    requires startByte == startBit / 8 && bytes == ByteCount(startBit % 8 + bitLength)
    ensures startByte + bytes <= length && bytes <= 9
  {
  }

  lemma FieldPlace(startBit: nat, bitLength: nat, base: nat, offset: nat, whole: nat)
    requires 0 < bitLength <= 64 && base == 8 * (startBit / 8) && offset == startBit % 8
    requires whole == 8 * ByteCount(offset + bitLength)
    ensures base + offset == startBit && offset + bitLength <= whole < offset + bitLength + 8
    ensures whole <= 64 || whole == 72
  {
  }

  /** The two words hold the `whole` bits of the buffer from `base` on. */
  ghost predicate Copied(bits: seq<bool>, base: nat, whole: nat, copy: Word, ninthByte: Word) {
    && base + whole <= |bits|
    && (whole <= 64 || whole == 72)
    && (forall i :: 0 <= i < 64 ==> copy[i] == (i < whole && bits[base + i]))
    && (forall i :: 0 <= i < 64 ==> ninthByte[i] == (whole == 72 && i < 8 && bits[base + 64 + i]))
  }

  /** Step 2 of readSignal on the two copied words: trim, align, and join the bits of the ninth byte. */
  function Join(copy: Word, ninthByte: Word, offsetStart: nat, offsetEnd: nat, bitLength: nat): Word
    requires offsetStart < 8 && offsetEnd < 8 && (offsetStart == 0 ==> ninthByte == Zeros(64))
  {
    var aligned := Shr(Low(copy, bitLength + offsetStart), offsetStart);
    if ninthByte == Zeros(64) then aligned
    else Or(aligned, Shl(Low(ninthByte, 8 - offsetEnd), 64 - offsetStart))
  }

  /** Where a field of bitLength bits lies, with its offsets, in the `whole` bits of its bytes. */
  predicate Placed(offsetStart: nat, offsetEnd: nat, bitLength: nat, whole: nat) {
    0 < bitLength <= 64 && offsetStart < 8 && offsetEnd < 8 && offsetStart + bitLength + offsetEnd == whole
  }

  lemma JoinedBit(bits: seq<bool>, base: nat, whole: nat, offsetStart: nat, offsetEnd: nat, bitLength: nat,
                  copy: Word, ninthByte: Word, i: nat)
    requires Copied(bits, base, whole, copy, ninthByte) && Placed(offsetStart, offsetEnd, bitLength, whole)
    requires (offsetStart == 0 ==> ninthByte == Zeros(64)) && i < 64
    ensures Join(copy, ninthByte, offsetStart, offsetEnd, bitLength)[i] == (i < bitLength && bits[base + offsetStart + i])
  {
    var aligned := Shr(Low(copy, bitLength + offsetStart), offsetStart);
    assert aligned[i] == (i + offsetStart < 64 && i < bitLength && copy[i + offsetStart]);
    var k := i + offsetStart - 64;
    if k >= 0 {
      assert ninthByte[k] == (whole == 72 && k < 8 && bits[base + 64 + k]);
      if ninthByte != Zeros(64) {
        assert Shl(Low(ninthByte, 8 - offsetEnd), 64 - offsetStart)[i] == (k < 8 - offsetEnd && ninthByte[k]);
      }
    } else {
      assert copy[i + offsetStart] == (i + offsetStart < whole && bits[base + (i + offsetStart)]);
    }
  }

  lemma JoinedField(bits: seq<bool>, base: nat, whole: nat, offsetStart: nat, offsetEnd: nat, bitLength: nat,
                    copy: Word, ninthByte: Word)
    requires Copied(bits, base, whole, copy, ninthByte) && Placed(offsetStart, offsetEnd, bitLength, whole)
    requires offsetStart == 0 ==> ninthByte == Zeros(64)
    ensures Join(copy, ninthByte, offsetStart, offsetEnd, bitLength)
         == bits[base + offsetStart..base + offsetStart + bitLength] + Zeros(64 - bitLength)
  {
    forall i | 0 <= i < 64
      ensures Join(copy, ninthByte, offsetStart, offsetEnd, bitLength)[i] == (i < bitLength && bits[base + offsetStart + i])
    {
      JoinedBit(bits, base, whole, offsetStart, offsetEnd, bitLength, copy, ninthByte, i);
    }
  }

  lemma JoinedAt(bits: seq<bool>, startBit: nat, base: nat, offsetStart: nat, bitLength: nat, copy: Word, ninthByte: Word)
    requires 0 < bitLength <= 64 && offsetStart == startBit % 8 && base + offsetStart == startBit
    requires startBit + bitLength <= |bits|
    requires Copied(bits, base, 8 * ByteCount(offsetStart + bitLength), copy, ninthByte)
    requires offsetStart == 0 ==> ninthByte == Zeros(64)
    ensures Join(copy, ninthByte, offsetStart, OffsetEnd(startBit, bitLength), bitLength)
         == bits[startBit..startBit + bitLength] + Zeros(64 - bitLength)
  {
    var whole := 8 * ByteCount(offsetStart + bitLength);
    OffsetEndShape(startBit, bitLength, offsetStart, whole);
    JoinedField(bits, base, whole, offsetStart, OffsetEnd(startBit, bitLength), bitLength, copy, ninthByte);
  }

  /**
   * Step 2 of readSignal, shared by both byte orders: from the words copied out of `bits` it makes
   * the field's bits in buffer order, and nothing else.
   */
  method TrimAndShift(copy: Word, ninth: Word, startBit: nat, bitLength: nat, ghost bits: seq<bool>)
      returns (result: Word)
    requires 0 < bitLength <= 64 && startBit + bitLength <= |bits|
    requires Copied(bits, 8 * (startBit / 8), 8 * ByteCount(startBit % 8 + bitLength), copy, ninth)
    ensures result == bits[startBit..startBit + bitLength] + Zeros(64 - bitLength)
  {
    var ninthByte := ninth;
    var offsetStart := startBit % 8;
    var offsetEnd := OffsetEnd(startBit, bitLength);
    NinthNeedsOffset(bits, 8 * (startBit / 8), offsetStart, bitLength, copy, ninth);
    JoinedAt(bits, startBit, 8 * (startBit / 8), offsetStart, bitLength, copy, ninth);
    result := CutLeadingBits(copy, bitLength + offsetStart);
    result := Shr(result, offsetStart);
    if ninthByte != Zeros(64) {
      ninthByte := CutLeadingBits(ninthByte, 8 - offsetEnd);
      ninthByte := Shl(ninthByte, 64 - offsetStart);
      result := Or(result, ninthByte);
    }
  }

  /** An aligned field has no ninth byte. */
  lemma NinthNeedsOffset(bits: seq<bool>, base: nat, offsetStart: nat, bitLength: nat, copy: Word, ninthByte: Word)
    requires bitLength <= 64 && Copied(bits, base, 8 * ByteCount(offsetStart + bitLength), copy, ninthByte)
    ensures offsetStart == 0 ==> ninthByte == Zeros(64)
  {
  }

  /** The word readSignal swaps for a big-endian field: the partial byte first, then whole bytes. */
  ghost predicate SplitField(raw: seq<bool>, n: nat, r: Word) {
    && 0 < |raw| <= 64
    && n == ByteCount(|raw|)
    && (forall i :: 0 <= i < 8 ==> r[i] == (i < LeadingBits(|raw|) && raw[i]))
    && (forall i :: 8 <= i < 64 ==> r[i] == (8 * n - |raw| <= i < 8 * n && raw[i - (8 * n - |raw|)]))
  }

  lemma SwappedBit(raw: seq<bool>, v: seq<bool>, n: nat, r: Word, t: nat)
    requires SplitField(raw, n, r) && |v| == |raw| && t < 64
    requires t < |v| ==> v[t] == raw[RawIndex(|raw|, t)]
    ensures SwapLowBytes(r, n)[t] == (t < |v| && v[t])
  {
    hide RawIndex;
    ByteShape(|raw|);
    if t < |raw| {
      RawIndexShape(|raw|, n, t);
    }
  }

  lemma SwappedWord(raw: seq<bool>, v: seq<bool>, n: nat, r: Word)
    requires SplitField(raw, n, r) && |v| == |raw|
    requires forall t :: 0 <= t < |v| ==> v[t] == raw[RawIndex(|raw|, t)]
    ensures SwapLowBytes(r, n) == v + Zeros(64 - |v|)
  {
    forall t | 0 <= t < 64
      ensures SwapLowBytes(r, n)[t] == (t < |v| && v[t])
    {
      SwappedBit(raw, v, n, r, t);
    }
  }

  lemma SwappedField(raw: seq<bool>, n: nat, r: Word)
    requires SplitField(raw, n, r)
    ensures SwapLowBytes(r, n) == FromBigEndian(raw) + Zeros(64 - |raw|)
  {
    forall t | 0 <= t < |raw|
      ensures FromBigEndian(raw)[t] == raw[RawIndex(|raw|, t)]
    {
      FromBigEndianAt(raw, t);
    }
    SwappedWord(raw, FromBigEndian(raw), n, r);
  }

  /** Moving the partial byte of a field to the low end of its byte. */
  lemma SplitPartialByte(raw: seq<bool>, n: nat, gap: nat, field: Word)
    requires 0 < |raw| <= 64 && n == ByteCount(|raw|) && gap == 8 * n - |raw|
    requires field == raw + Zeros(64 - |raw|)
    ensures SplitField(raw, n, ShrLowByte(Shl(field, gap), gap))
  {
    ByteShape(|raw|);
  }

  lemma NoGap(field: Word)
    ensures ShrLowByte(Shl(field, 0), 0) == field
  {
  }

  /** The last part of readSignal for a big-endian signal: close the gap of a partial byte, swap bytes. */
  method SwapReadSignal(field: Word, startBit: nat, bitLength: nat, ghost raw: seq<bool>) returns (result: Word)
    requires 0 < bitLength <= 64 && |raw| == bitLength && field == raw + Zeros(64 - bitLength)
    ensures result == FromBigEndian(raw) + Zeros(64 - bitLength)
  {
    hide FromBigEndian, Shl, ShrLowByte, SwapLowBytes;
    result := field;
    var offsetStart := startBit % 8;
    var offsetEnd := OffsetEnd(startBit, bitLength);
    ghost var n := ByteCount(bitLength);
    ghost var gap := 8 * n - bitLength;
    OffsetsAreGap(startBit, bitLength, offsetStart);
    if bitLength % 8 != 0 {
      var shift := (offsetEnd + offsetStart) % 8;
      result := Shl(result, shift);
      result := ShrLowByte(result, shift);
    } else {
      assert gap == 0;
      NoGap(result);
    }
    assert result == ShrLowByte(Shl(field, gap), gap);
    SplitPartialByte(raw, n, gap, field);
    SwappedField(raw, n, result);
    result := ConvertSignalEndianess(result, BitBigEndian, bitLength);
  }

  /** Steps 1 and 2 of readSignal: the bits of the field in buffer order. */
  method ReadField(buffer: array<uint8>, startBit: nat, bitLength: nat) returns (field: Word)
    requires 0 < bitLength <= 64 && startBit + bitLength <= 8 * buffer.Length
    ensures field == BufferBits(buffer[..])[startBit..startBit + bitLength] + Zeros(64 - bitLength)
  {
    var copy, ninthByte, bytesToRead := CopyBytesFromBuffer(buffer, startBit, bitLength);
    field := TrimAndShift(copy, ninthByte, startBit, bitLength, BufferBits(buffer[..]));
  }

  method ReadSignal(buffer: array<uint8>, startBit: nat, bitLength: nat, endianess: Endianess) returns (result: Word)
    requires 0 < bitLength <= 64 && startBit + bitLength <= 8 * buffer.Length
    ensures result == Decode(BufferBits(buffer[..])[startBit..startBit + bitLength], endianess) + Zeros(64 - bitLength)
  {
    result := ReadField(buffer, startBit, bitLength);
    if endianess == BitBigEndian {
      result := SwapReadSignal(result, startBit, bitLength, BufferBits(buffer[..])[startBit..startBit + bitLength]);
    }
  }

  /** The word writeSignal stores for a big-endian signal: its bits in buffer order, above a gap. */
  ghost predicate Packed(v: seq<bool>, raw: seq<bool>, n: nat, r: Word) {
    && 0 < |raw| == |v| <= 64
    && n == ByteCount(|v|)
    && (forall k :: 0 <= k < |v| ==> raw[k] == v[ValueIndex(|v|, k)])
    && r == ShlLowByte(SwapLowBytes(v + Zeros(64 - |v|), n), 8 * n - |v|)
  }

  lemma PackedFirstByte(v: seq<bool>, raw: seq<bool>, n: nat, r: Word, i: nat)
    requires Packed(v, raw, n, r) && i < 8
    ensures r[i] == (8 * n - |v| <= i && raw[i - (8 * n - |v|)])
  {
    var gap := 8 * n - |v|;
    if i >= gap {
      ValueIndexShape(|v|, n, i);
      var w, b := v + Zeros(64 - |v|), i - gap;
      assert SwapLowBytes(w, n)[b] == w[8 * (n - 1 - b / 8) + b % 8];
      assert b / 8 == 0 && b % 8 == b;
    }
  }

  lemma PackedByte(v: seq<bool>, raw: seq<bool>, n: nat, r: Word, i: nat)
    requires Packed(v, raw, n, r) && 8 <= i < 64
    ensures r[i] == (i < 8 * n && raw[i - (8 * n - |v|)])
  {
    var w := v + Zeros(64 - |v|);
    var swapped := SwapLowBytes(w, n);
    if i < 8 * n {
      ValueIndexShape(|v|, n, i);
      assert r[i] == swapped[i] == w[8 * (n - 1 - i / 8) + i % 8];
    } else {
      assert r[i] == swapped[i] == w[i];
    }
  }

  lemma PackedBit(v: seq<bool>, raw: seq<bool>, n: nat, r: Word, i: nat)
    requires Packed(v, raw, n, r) && i < 64
    ensures r[i] == (8 * n - |v| <= i < 8 * n && raw[i - (8 * n - |v|)])
  {
    hide ValueIndex, SwapLowBytes, ShlLowByte;
    if i < 8 {
      PackedFirstByte(v, raw, n, r, i);
    } else {
      PackedByte(v, raw, n, r, i);
    }
  }

  lemma PackedWord(v: seq<bool>, raw: seq<bool>, n: nat, r: Word)
    requires Packed(v, raw, n, r)
    ensures r == Zeros(8 * n - |v|) + raw + Zeros(64 - 8 * n)
  {
    forall i | 0 <= i < 64
      ensures r[i] == (8 * n - |v| <= i < 8 * n && raw[i - (8 * n - |v|)])
    {
      PackedBit(v, raw, n, r, i);
    }
  }

  lemma PackedField(v: seq<bool>, n: nat, gap: nat, r: Word)
    requires 0 < |v| <= 64 && n == ByteCount(|v|) && gap == 8 * n - |v|
    requires r == ShlLowByte(SwapLowBytes(v + Zeros(64 - |v|), n), gap)
    ensures r == Zeros(gap) + ToBigEndian(v) + Zeros(64 - 8 * n)
  {
    forall k | 0 <= k < |v|
      ensures ToBigEndian(v)[k] == v[ValueIndex(|v|, k)]
    {
      ToBigEndianAt(v, k);
    }
    PackedWord(v, ToBigEndian(v), n, r);
  }

  /** Unused low bits of the first byte of a field as writeSignal packs it. */
  function Gap(len: nat, endianess: Endianess): (gap: nat)
    ensures gap < 8 && len + gap <= 8 * ByteCount(len)
  {
    if endianess.BitBigEndian? then 8 * ByteCount(len) - len else 0
  }

  /** writeSignal for a big-endian signal: swap bytes and close the gap of a partial byte. */
  method PackBigEndian(cut: Word, bitLength: nat, ghost v: seq<bool>) returns (signal: Word, msShift: nat)
    requires 0 < bitLength <= 64 && |v| == bitLength && cut == v + Zeros(64 - bitLength)
    ensures msShift == 8 * ByteCount(bitLength) - bitLength < 8
    ensures signal == Zeros(msShift) + ToBigEndian(v) + Zeros(64 - bitLength - msShift)
  {
    signal := ConvertSignalEndianess(cut, BitBigEndian, bitLength);
    msShift := (8 - bitLength % 8) % 8;
    BitsToByteEnd(bitLength);
    signal := ShlLowByte(signal, msShift);
    PackedField(v, ByteCount(bitLength), msShift, signal);
  }

  /** Steps 4 and 5 of writeSignal: cut the value to the field, and put it in buffer order. */
  method PackSignal(value: Word, bitLength: nat, endianess: Endianess) returns (signal: Word, shiftAmount: int)
    requires 0 < bitLength <= 64
    ensures shiftAmount + Gap(bitLength, endianess) == 0
    ensures signal == Zeros(-shiftAmount) + Encode(value[..bitLength], endianess) + Zeros(64 - bitLength + shiftAmount)
  {
    ghost var v := value[..bitLength];
    signal := CutLeadingBits(value, bitLength);
    assert signal == v + Zeros(64 - bitLength);
    shiftAmount := 0;
    if endianess == BitBigEndian {
      var msShift;
      signal, msShift := PackBigEndian(signal, bitLength, v);
      shiftAmount := shiftAmount - msShift;
    }
  }

  /** Step 2 of writeSignal: clear the field in the copy of the buffer. */
  method EraseField(copy: Word, offsetStart: nat, bitLength: nat) returns (r: Word)
    requires offsetStart < 8
    ensures forall i :: 0 <= i < 64 ==> r[i] == (copy[i] && !(offsetStart <= i < offsetStart + bitLength))
  {
    var maskLeft := ALL_ONES;
    if bitLength + offsetStart >= 64 {
      maskLeft := Zeros(64);
    } else {
      maskLeft := Shl(maskLeft, bitLength + offsetStart);
    }
    var mask := ALL_ONES;
    mask := Shl(mask, offsetStart);
    mask := Not(mask);
    mask := Or(mask, maskLeft);
    r := And(copy, mask);
  }

  /** The ninth byte writeSignal computes from the signal before the shift drops its top bits. */
  method FillNinthByte(ninth: Word, signal: Word, offsetStart: nat, offsetEnd: nat) returns (r: Word)
    requires 0 < offsetStart < 8 && offsetEnd < 8
    ensures forall j :: 0 <= j < 8 ==>
      r[j] == ((8 - offsetEnd <= j && ninth[j]) || (j < offsetStart && signal[64 - offsetStart + j]))
  {
    var signalForNinthByte := signal;
    signalForNinthByte := Shr(signalForNinthByte, 56);
    signalForNinthByte := Shr(signalForNinthByte, 8 - offsetStart);
    var maskToSet := ALL_ONES;
    maskToSet := Shl(maskToSet, 8 - offsetEnd);
    r := And(ninth, maskToSet);
    r := Or(r, signalForNinthByte);
  }

  /**
   * Bit i of the buffer after writeSignal has stored the field bits raw, packed above a gap. The
   * field starts `offset` bits into the byte at bit `base`.
   */
  function StoredBit(bits: seq<bool>, base: nat, offset: nat, raw: seq<bool>, gap: nat, i: nat): bool
    requires base + offset + |raw| <= |bits| && i < |bits|
    requires offset < 8 && gap < 8
  {
    if i < base + offset || i >= base + 72 then bits[i]
    else if i < base + 64 then if i < base + offset + |raw| then raw[i - base - offset] else bits[i]
    else if offset + |raw| <= 64 then bits[i]
    else
      var spilled := i - base - offset;
      (i >= base + offset + |raw| && bits[i]) || (gap <= spilled < gap + |raw| && spilled < 64 && raw[spilled - gap])
  }

  /** The whole buffer after writeSignal. */
  function Stored(bits: seq<bool>, startBit: nat, raw: seq<bool>, gap: nat): (r: seq<bool>)
    requires startBit + |raw| <= |bits| && gap < 8
    ensures |r| == |bits|
  {
    seq(|bits|, i requires 0 <= i < |bits| => StoredBit(bits, 8 * (startBit / 8), startBit % 8, raw, gap, i))
  }

  /** Replacing a field and nothing else. */
  function Overwrite(bits: seq<bool>, startBit: nat, raw: seq<bool>): (r: seq<bool>)
    requires startBit + |raw| <= |bits|
    ensures |r| == |bits|
  {
    bits[..startBit] + raw + bits[startBit + |raw|..]
  }

  /** What both merging steps start from: the copied words, and the signal packed above its gap. */
  ghost predicate Merging(bits: seq<bool>, base: nat, offset: nat, raw: seq<bool>, gap: nat, whole: nat, signal: Word) {
    && base + offset + |raw| <= |bits| && offset < 8 && 0 < |raw| <= 64 && gap < 8 && |raw| + gap <= 64
    && offset + |raw| <= whole < offset + |raw| + 8 && base + whole <= |bits| && (whole <= 64 || whole == 72)
    && signal == Zeros(gap) + raw + Zeros(64 - |raw| - gap)
  }

  /** The integrated first eight bytes. */
  lemma MergedBit(bits: seq<bool>, base: nat, offset: nat, raw: seq<bool>, gap: nat, whole: nat,
                  erased: Word, signal: Word, shifted: Word, i: nat)
    requires Merging(bits, base, offset, raw, gap, whole, signal) && i < 64 && i < whole
    requires shifted == if gap <= offset then Shl(signal, offset - gap) else Shr(signal, gap - offset)
    requires erased[i] == (bits[base + i] && !(offset <= i < offset + |raw|))
    ensures (erased[i] || shifted[i]) == StoredBit(bits, base, offset, raw, gap, base + i)
  {
    assert shifted[i] == (offset <= i < offset + |raw| && raw[i - offset]);
  }

  lemma NinthBit(bits: seq<bool>, base: nat, offset: nat, raw: seq<bool>, gap: nat, ninth: Word, signal: Word,
                 filled: Word, j: nat)
    requires Merging(bits, base, offset, raw, gap, 72, signal) && offset + |raw| > 64 && j < 8
    requires ninth[j] == bits[base + 64 + j]
    requires filled[j] == ((offset + |raw| - 64 <= j && ninth[j]) || (j < offset && signal[64 - offset + j]))
    ensures filled[j] == StoredBit(bits, base, offset, raw, gap, base + 64 + j)
  {
  }

  ghost predicate WordStored(bits: seq<bool>, base: nat, offset: nat, raw: seq<bool>, gap: nat, whole: nat, merged: Word) {
    && base + offset + |raw| <= |bits| && base + whole <= |bits| && offset < 8 && gap < 8
    && (forall i :: 0 <= i < 64 && i < whole ==> merged[i] == StoredBit(bits, base, offset, raw, gap, base + i))
  }

  ghost predicate NinthStored(bits: seq<bool>, base: nat, offset: nat, raw: seq<bool>, gap: nat, whole: nat, ninthByte: Word) {
    && base + offset + |raw| <= |bits| && base + whole <= |bits| && offset < 8 && gap < 8
    && (whole == 72 ==> forall j :: 0 <= j < 8 ==>
          ninthByte[j] == StoredBit(bits, base, offset, raw, gap, base + 64 + j))
  }

  /** Steps 2, 5 and 7 of writeSignal: the signal in place of the field, in the first eight bytes. */
  method MergeSignal(copy: Word, signal: Word, offsetStart: nat, bitLength: nat, shift: int,
                     ghost bits: seq<bool>, ghost base: nat, ghost raw: seq<bool>, ghost gap: nat, ghost whole: nat)
      returns (merged: Word)
    requires Merging(bits, base, offsetStart, raw, gap, whole, signal) && |raw| == bitLength && shift + gap == offsetStart
    requires forall i :: 0 <= i < 64 ==> copy[i] == (i < whole && bits[base + i])
    ensures WordStored(bits, base, offsetStart, raw, gap, whole, merged)
  {
    var erased := EraseField(copy, offsetStart, bitLength);
    var shifted;
    if shift < 0 {
      shifted := Shr(signal, -shift);
    } else {
      shifted := Shl(signal, shift);
    }
    merged := Or(erased, shifted);
    forall i | 0 <= i < 64 && i < whole
      ensures merged[i] == StoredBit(bits, base, offsetStart, raw, gap, base + i)
    {
      MergedBit(bits, base, offsetStart, raw, gap, whole, erased, signal, shifted, i);
    }
  }

  /** writeSignal's ninth byte. */
  method MergeNinthByte(ninth: Word, signal: Word, offsetStart: nat, offsetEnd: nat, bitLength: nat,
                        ghost bits: seq<bool>, ghost base: nat, ghost raw: seq<bool>, ghost gap: nat, ghost whole: nat)
      returns (ninthByte: Word)
    requires Merging(bits, base, offsetStart, raw, gap, whole, signal) && |raw| == bitLength
    requires offsetEnd == whole - (offsetStart + bitLength)
    requires forall i :: 0 <= i < 64 ==> ninth[i] == (whole == 72 && i < 8 && bits[base + 64 + i])
    ensures NinthStored(bits, base, offsetStart, raw, gap, whole, ninthByte)
  {
    ninthByte := ninth;
    if offsetStart + bitLength > 64 {
      ninthByte := FillNinthByte(ninthByte, signal, offsetStart, offsetEnd);
      forall j | 0 <= j < 8
        ensures ninthByte[j] == StoredBit(bits, base, offsetStart, raw, gap, base + 64 + j)
      {
        NinthBit(bits, base, offsetStart, raw, gap, ninth, signal, ninthByte, j);
      }
    }
  }

  /** Bit i of the buffer once the words are copied back to it. */
  function PlacedBit(bits: seq<bool>, base: nat, whole: nat, merged: Word, ninthByte: Word, i: nat): bool
    requires i < |bits|
  {
    if base <= i < base + 64 && i < base + whole then merged[i - base]
    else if whole == 72 && base + 64 <= i < base + 72 then ninthByte[i - base - 64]
    else bits[i]
  }

  /** Where the stored words land, bit by bit. */
  lemma StoredAt(bits: seq<bool>, now: seq<bool>, base: nat, offset: nat, raw: seq<bool>, gap: nat, whole: nat,
                    merged: Word, ninthByte: Word, i: nat)
    requires WordStored(bits, base, offset, raw, gap, whole, merged)
    requires NinthStored(bits, base, offset, raw, gap, whole, ninthByte)
    requires offset + |raw| <= whole < offset + |raw| + 8 && (whole <= 64 || whole == 72)
    requires i < |bits| == |now| && now[i] == PlacedBit(bits, base, whole, merged, ninthByte, i)
    ensures now[i] == StoredBit(bits, base, offset, raw, gap, i)
  {
    var k := i - base;
    if 0 <= k < 64 && k < whole {
      assert merged[k] == StoredBit(bits, base, offset, raw, gap, base + k);
    } else if whole == 72 && 64 <= k < 72 {
      assert ninthByte[k - 64] == StoredBit(bits, base, offset, raw, gap, base + 64 + (k - 64));
    }
  }

  lemma StoredWhole(bits: seq<bool>, now: seq<bool>, base: nat, offset: nat, raw: seq<bool>, gap: nat, whole: nat,
                    merged: Word, ninthByte: Word)
    requires WordStored(bits, base, offset, raw, gap, whole, merged)
    requires NinthStored(bits, base, offset, raw, gap, whole, ninthByte)
    requires offset + |raw| <= whole < offset + |raw| + 8 && (whole <= 64 || whole == 72) && |now| == |bits|
    requires forall i :: 0 <= i < |bits| ==> now[i] == PlacedBit(bits, base, whole, merged, ninthByte, i)
    ensures forall i :: 0 <= i < |bits| ==> now[i] == StoredBit(bits, base, offset, raw, gap, i)
  {
    forall i | 0 <= i < |bits|
      ensures now[i] == StoredBit(bits, base, offset, raw, gap, i)
    {
      StoredAt(bits, now, base, offset, raw, gap, whole, merged, ninthByte, i);
    }
  }

  /** The copies back to the buffer at the end of writeSignal. */
  method CopyBytesToBuffer(buffer: array<uint8>, startByte: nat, bytesToRead: nat, merged: Word, ninthByte: Word)
    requires bytesToRead <= 9 && startByte + bytesToRead <= buffer.Length
    modifies buffer
    ensures forall i :: 0 <= i < 8 * buffer.Length ==>
      BufferBits(buffer[..])[i]
        == PlacedBit(old(BufferBits(buffer[..])), 8 * startByte, 8 * bytesToRead, merged, ninthByte, i)
  {
    var sz := if bytesToRead < 8 then bytesToRead else 8;
    ghost var bits := BufferBits(buffer[..]);
    StoreBytes(buffer, startByte, sz, merged);
    ghost var first := BufferBits(buffer[..]);
    if bytesToRead > 8 {
      StoreBytes(buffer, startByte + 8, 1, ninthByte);
    }
    ghost var now := BufferBits(buffer[..]);
    forall i | 0 <= i < 8 * buffer.Length
      ensures now[i] == PlacedBit(bits, 8 * startByte, 8 * bytesToRead, merged, ninthByte, i)
    {
      PlacedAt(bits, first[i], now[i], startByte, bytesToRead, sz, merged, ninthByte, i);
    }
  }

  /** Bit i after the first copy, and after the copy of the ninth byte. */
  lemma PlacedAt(bits: seq<bool>, first: bool, now: bool, startByte: nat, bytes: nat, sz: nat,
                 merged: Word, ninthByte: Word, i: nat)
    requires i < |bits| && bytes <= 9 && sz == (if bytes < 8 then bytes else 8)
    requires first == if 8 * startByte <= i < 8 * (startByte + sz) then merged[i - 8 * startByte] else bits[i]
    requires now == if bytes > 8 && 8 * (startByte + 8) <= i < 8 * (startByte + 8 + 1)
                    then ninthByte[i - 8 * (startByte + 8)] else first
    ensures now == PlacedBit(bits, 8 * startByte, 8 * bytes, merged, ninthByte, i)
  {
  }

  /** The words of writeSignal, computed from the copies; what they are to hold is the ghost part. */
  method MergeWords(bufferCopy: Word, ninth: Word, value: Word, startBit: nat, bitLength: nat, endianess: Endianess,
                    ghost bits: seq<bool>, ghost base: nat, ghost whole: nat)
      returns (merged: Word, ninthByte: Word)
    requires 0 < bitLength <= 64 && startBit + bitLength <= |bits| && base + startBit % 8 == startBit
    requires whole == 8 * ByteCount(startBit % 8 + bitLength) && Copied(bits, base, whole, bufferCopy, ninth)
    ensures WordStored(bits, base, startBit % 8, Encode(value[..bitLength], endianess), Gap(bitLength, endianess), whole, merged)
    ensures NinthStored(bits, base, startBit % 8, Encode(value[..bitLength], endianess), Gap(bitLength, endianess), whole, ninthByte)
  {
    ghost var raw, gap := Encode(value[..bitLength], endianess), Gap(bitLength, endianess);
    var offsetStart := startBit % 8;
    var offsetEnd := OffsetEnd(startBit, bitLength);
    OffsetEndShape(startBit, bitLength, offsetStart, whole);
    var signal, shiftAmount := PackSignal(value, bitLength, endianess);
    shiftAmount := shiftAmount + offsetStart;
    ninthByte := MergeNinthByte(ninth, signal, offsetStart, offsetEnd, bitLength, bits, base, raw, gap, whole);
    merged := MergeSignal(bufferCopy, signal, offsetStart, bitLength, shiftAmount, bits, base, raw, gap, whole);
  }

  method WriteSignal(buffer: array<uint8>, startBit: nat, bitLength: nat, value: Word, endianess: Endianess)
    requires 0 < bitLength <= 64 && startBit + bitLength <= 8 * buffer.Length
    modifies buffer
    ensures BufferBits(buffer[..])
         == Stored(old(BufferBits(buffer[..])), startBit, Encode(value[..bitLength], endianess), Gap(bitLength, endianess))
  {
    hide Encode, Gap, StoredBit, PlacedBit, Copied, WordStored, NinthStored;
    ghost var bits, raw, gap := BufferBits(buffer[..]), Encode(value[..bitLength], endianess), Gap(bitLength, endianess);
    ghost var base, offset := 8 * (startBit / 8), startBit % 8;
    var bufferCopy, ninthByte, bytesToRead := CopyBytesFromBuffer(buffer, startBit, bitLength);
    ghost var whole := 8 * bytesToRead;
    FieldPlace(startBit, bitLength, base, offset, whole);
    bufferCopy, ninthByte := MergeWords(bufferCopy, ninthByte, value, startBit, bitLength, endianess, bits, base, whole);
    CopyBytesToBuffer(buffer, startBit / 8, bytesToRead, bufferCopy, ninthByte);
    StoredWhole(bits, BufferBits(buffer[..]), base, offset, raw, gap, whole, bufferCopy, ninthByte);
  }
}
