/** The BitSerializer class: argument checks, and typed reads and writes of one field. */
module BitSerializers {
  import opened Bits
  import opened BitFields
  import opened ByteOrder
  import opened Numbers
  import opened Signals
  import opened Words

  datatype Result = Success | ErrPointer | ErrInvalidArg

  /** An integer type of the host: `size` bytes, signed or not. */
  datatype IntType = IntType(size: nat, signed: bool) {
    predicate Valid() { size in {1, 2, 4, 8} }

    /** What a variable of the type can hold. */
    predicate Holds(value: int)
      requires Valid()
    {
      if signed then -value <= Pow2(8 * size - 1) && value < Pow2(8 * size - 1) else 0 <= value < Pow2(8 * size)
    }
  }

  /** Number of values of `size_t`. */
  const SIZE_RANGE := 0x1_0000_0000_0000_0000

  /** Largest buffer whose bit positions plus a field length still fit in `size_t`. */
  const MAX_BUFFER_BYTES := 0x2000_0000_0000_0000 - 8

  class BitSerializer {
    const buffer: array?<uint8>
    const bufferBytes: nat
    const bufferBits: nat

    ghost predicate Valid() {
      && bufferBytes == (if buffer == null then 0 else buffer.Length)
      && bufferBits == bufferBytes * 8
      && bufferBytes <= MAX_BUFFER_BYTES
    }

    constructor (data: array<uint8>)
      requires data.Length <= MAX_BUFFER_BYTES
      ensures Valid() && buffer == data
    {
      buffer := data;
      bufferBytes := data.Length;
      bufferBits := data.Length * 8;
    }

    constructor Empty()
      ensures Valid() && buffer == null
    {
      buffer := null;
      bufferBytes := 0;
      bufferBits := 0;
    }

    /** Positions and lengths are `size_t`; their sum wraps around. */
    method CheckForInvalidArguments(startBit: nat, bitLength: nat, sizeVariable: nat) returns (r: Result)
      requires Valid() && startBit < SIZE_RANGE && bitLength < SIZE_RANGE && sizeVariable <= 8
      ensures r == ErrPointer <==> buffer == null
      ensures r == Success <==>
        buffer != null && 1 <= bitLength <= 8 * sizeVariable && startBit + bitLength <= 8 * buffer.Length
    {
      if buffer == null {
        return ErrPointer;
      }
      if startBit >= bufferBits {
        return ErrInvalidArg;
      }
      if bitLength < 1 || bufferBits < (startBit + bitLength) % SIZE_RANGE {
        return ErrInvalidArg;
      }
      if sizeVariable * 8 < bitLength {
        return ErrInvalidArg;
      }
      return Success;
    }

    /**
     A read that succeeds returns the field's value bits as a number of the requested
     signedness; one that fails leaves the caller's variable as it was.
     */
    method Read(t: IntType, startBit: nat, bitLength: nat, endianess: Endianess, before: int)
        returns (r: Result, value: int)
      requires Valid() && t.Valid() && startBit < SIZE_RANGE && bitLength < SIZE_RANGE
      ensures r == Success <==>
        buffer != null && 1 <= bitLength <= 8 * t.size && startBit + bitLength <= 8 * buffer.Length
      ensures r == ErrPointer <==> buffer == null
      ensures r == Success ==>
        value == Number(Get(BufferBits(buffer[..]), Field(startBit, bitLength, endianess)), t.signed)
      ensures r == Success ==> t.Holds(value)
      ensures r == Success && !t.signed ==> 0 <= value < Pow2(bitLength)
      ensures r == Success && t.signed ==> -value <= Pow2(bitLength - 1) && value < Pow2(bitLength - 1)
      ensures r != Success ==> value == before
    {
      value := before;
      r := CheckForInvalidArguments(startBit, bitLength, t.size);
      if r == Success {
        var signal := ReadSignal(buffer, startBit, bitLength, endianess);
        ghost var v := Get(BufferBits(buffer[..]), Field(startBit, bitLength, endianess));
        value := Convert(t, signal, bitLength, v);
        NumberRange(v, t.signed);
        FieldHolds(t, v);
      }
    }

    /**
     A write that succeeds stores the low bits of the value in the field, whatever bytes
     follow the value in memory; one that fails changes nothing.
     */
    method Write(t: IntType, startBit: nat, bitLength: nat, value: int, endianess: Endianess, following: seq<bool>)
        returns (r: Result)
      requires Valid() && t.Valid() && t.Holds(value) && startBit < SIZE_RANGE && bitLength < SIZE_RANGE
      requires |following| == 64 - 8 * t.size
      modifies if buffer == null then {} else {buffer}
      ensures r == Success <==>
        buffer != null && 1 <= bitLength <= 8 * t.size && startBit + bitLength <= 8 * buffer.Length
      ensures r == ErrPointer <==> buffer == null
      ensures r == Success ==>
        BufferBits(buffer[..])
          == Put(old(BufferBits(buffer[..])), Field(startBit, bitLength, endianess), Image(value, bitLength))
      ensures r != Success && buffer != null ==> buffer[..] == old(buffer[..])
    {
      r := CheckForInvalidArguments(startBit, bitLength, t.size);
      if r == Success {
        var memory := Image(value, 8 * t.size) + following;
        ImagePrefix(value, 8 * t.size, bitLength);
        assert memory[..bitLength] == Image(value, bitLength);
        WriteSignal(buffer, startBit, bitLength, memory, endianess);
      }
    }
  }

  /** The low bytes of the signal as a variable of the type, its sign bit replicated if it is signed. */
  method Convert(t: IntType, signal: Word, bitLength: nat, ghost v: seq<bool>) returns (value: int)
    requires t.Valid() && 0 < bitLength <= 8 * t.size && |v| == bitLength && signal == v + Zeros(64 - bitLength)
    ensures value == Number(v, t.signed)
    ensures if t.signed then -value <= Pow2(bitLength - 1) && value < Pow2(bitLength - 1)
            else 0 <= value < Pow2(bitLength)
  {
    NumberRange(v, t.signed);
    var register := signal[..8 * t.size];
    assert register == v + Zeros(8 * t.size - bitLength);
    if t.signed {
      register := ReplicateSign(register, bitLength);
      SignExtension(v, 8 * t.size - bitLength);
      assert register == v + Repeat(v[bitLength - 1], 8 * t.size - bitLength);
      value := SignedValue(register);
    } else {
      ValuePadded(v, 8 * t.size - bitLength);
      value := Value(register);
    }
  }

  /** `v <<= W - len; v >>= W - len` on a signed register of W bits: the shift right is arithmetic. */
  method ReplicateSign(register: seq<bool>, bitLength: nat) returns (r: seq<bool>)
    requires 0 < bitLength <= |register|
    ensures r == register[..bitLength] + Repeat(register[bitLength - 1], |register| - bitLength)
  {
    var k := |register| - bitLength;
    r := Zeros(k) + register[..bitLength];
    r := r[k..] + Repeat(r[|r| - 1], k);
  }

  /** A field no wider than the type gives a number that the type holds. */
  lemma FieldHolds(t: IntType, v: seq<bool>)
    requires t.Valid() && 0 < |v| <= 8 * t.size
    ensures t.Holds(Number(v, t.signed))
  {
    NumberRange(v, t.signed);
    Pow2Grows(|v|, 8 * t.size);
    Pow2Grows(|v| - 1, 8 * t.size - 1);
  }

  lemma {:induction false} Pow2Grows(a: nat, b: nat)
    requires a <= b
    ensures Pow2(a) <= Pow2(b)
  {
    if a < b {
      Pow2Grows(a, b - 1);
    }
  }

  /**
   * What a write of x to a field and a typed read of it give back: unsigned x mod 2^len; signed x
   * itself exactly when it is in the field's range, and otherwise a number congruent to it.
   */
  lemma TypedRoundTrip(bits: seq<bool>, f: Field, x: int)
    requires f.Within(bits) && f.Exact()
    ensures var back := Get(Put(bits, f, Image(x, f.len)), f);
            && Number(back, false) == x % Pow2(f.len)
            && (Number(back, false) == x <==> 0 <= x < Pow2(f.len))
            && (Number(back, true) == x <==> -x <= Pow2(f.len - 1) && x < Pow2(f.len - 1))
            && (Number(back, true) - x) % Pow2(f.len) == 0
  {
    RoundTrip(bits, f, Image(x, f.len));
    SignedRoundTrip(x, f.len);
    UnsignedRoundTrip(x, f.len);
  }
}
