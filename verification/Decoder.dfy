/** Register and byte decoding (src/reader/decoder.rs), on exact integers and bit patterns. */
module Decoder {
  import opened Wrappers
  import opened Domain

  /** Both counts are registers for `Decode` and bytes for `DecodeBytes`. */
  datatype DecodeError = InsufficientRegisters(expected: nat, got: nat)

  function RegistersNeeded(dt: DataType): nat {
    match dt
    case U8 | U16 | I16 | Bool => 1
    case U32 | I32 | F32 => 2
    case U64 | I64 | F64 => 4
  }

  function ByteCount(dt: DataType): nat {
    match dt
    case Bool | U8 => 1
    case U16 | I16 => 2
    case U32 | I32 | F32 => 4
    case U64 | I64 | F64 => 8
  }

  // ----- integers as byte strings -----

  function FromBigEndian(b: seq<u8>): nat {
    if b == [] then 0 else FromBigEndian(b[..|b| - 1]) * 256 + b[|b| - 1]
  }

  function Reversed(b: seq<u8>): (r: seq<u8>) {
    seq(|b|, i requires 0 <= i < |b| => b[|b| - 1 - i])
  }

  function FromLittleEndian(b: seq<u8>): nat {
    FromBigEndian(Reversed(b))
  }

  function ToBigEndian(v: nat, n: nat): (b: seq<u8>)
    ensures |b| == n
  {
    if n == 0 then [] else ToBigEndian(v / 256, n - 1) + [v % 256]
  }

  function Pow256(n: nat): nat {
    if n == 0 then 1 else 256 * Pow256(n - 1)
  }

  lemma {:induction false} FromToBigEndian(v: nat, n: nat)
    requires v < Pow256(n)
    ensures FromBigEndian(ToBigEndian(v, n)) == v
  {
    if n > 0 {
      FromToBigEndian(v / 256, n - 1);
      assert ToBigEndian(v, n)[..n - 1] == ToBigEndian(v / 256, n - 1);
    }
  }

  lemma {:induction false} ToFromBigEndian(b: seq<u8>)
    ensures FromBigEndian(b) < Pow256(|b|)
    ensures ToBigEndian(FromBigEndian(b), |b|) == b
  {
    if b != [] {
      ToFromBigEndian(b[..|b| - 1]);
      assert b == b[..|b| - 1] + [b[|b| - 1]];
    }
  }

  lemma {:induction false} WordSizes()
    ensures Pow256(0) == 1 && Pow256(1) == 0x100 && Pow256(2) == 0x1_0000
    ensures Pow256(3) == 0x100_0000 && Pow256(4) == 0x1_0000_0000
    ensures Pow256(7) == 0x100_0000_0000_0000
    ensures Pow256(8) == 0x1_0000_0000_0000_0000
  {
    assert Pow256(3) == 0x100_0000;
    assert Pow256(5) == 0x100_0000_0000;
    assert Pow256(6) == 0x1_0000_0000_0000;
    assert Pow256(7) == 0x100_0000_0000_0000;
  }

  /** The two's complement reading of an unsigned word of the given modulus. */
  function Signed(v: nat, modulus: nat): int {
    if v >= modulus / 2 then v - modulus else v
  }

  // ----- registers -----

  function RegisterBytes(r: u16): (b: seq<u8>)
    ensures |b| == 2
  {
    [r / 256, r % 256]
  }

  function RegisterOf(hi: u8, lo: u8): u16 {
    hi * 256 + lo
  }

  function SwapBytes(r: u16): u16 {
    RegisterOf(r % 256, r / 256)
  }

  function Reorder32(regs: seq<u16>, order: ByteOrder): (b: seq<u8>)
    requires |regs| >= 2
    ensures |b| == 4
  {
    var r0, r1 := RegisterBytes(regs[0]), RegisterBytes(regs[1]);
    match order
    case BigEndian => [r0[0], r0[1], r1[0], r1[1]]
    case LittleEndian => [r1[1], r1[0], r0[1], r0[0]]
    case MidBigEndian => [r1[0], r1[1], r0[0], r0[1]]
    case MidLittleEndian => [r0[1], r0[0], r1[1], r1[0]]
  }

  function Reorder64(regs: seq<u16>, order: ByteOrder): (b: seq<u8>)
    requires |regs| >= 4
    ensures |b| == 8
  {
    var r0, r1 := RegisterBytes(regs[0]), RegisterBytes(regs[1]);
    var r2, r3 := RegisterBytes(regs[2]), RegisterBytes(regs[3]);
    match order
    case BigEndian => [r0[0], r0[1], r1[0], r1[1], r2[0], r2[1], r3[0], r3[1]]
    case LittleEndian => [r3[1], r3[0], r2[1], r2[0], r1[1], r1[0], r0[1], r0[0]]
    case MidBigEndian => [r2[0], r2[1], r3[0], r3[1], r0[0], r0[1], r1[0], r1[1]]
    case MidLittleEndian => [r0[1], r0[0], r1[1], r1[0], r2[1], r2[0], r3[1], r3[0]]
  }

  function RawOf(regs: seq<u16>, dt: DataType, order: ByteOrder): Number
    requires |regs| >= RegistersNeeded(dt)
  {
    match dt
    case Bool => Whole(if regs[0] != 0 then 1 else 0)
    case U8 => Whole(regs[0] % 256)
    case U16 => Whole(regs[0])
    case I16 => Whole(Signed(regs[0], 0x1_0000))
    case U32 => Whole(FromBigEndian(Reorder32(regs, order)))
    case I32 => Whole(Signed(FromBigEndian(Reorder32(regs, order)), 0x1_0000_0000))
    case F32 => Float32(FromBigEndian(Reorder32(regs, order)))
    case U64 => Whole(FromBigEndian(Reorder64(regs, order)))
    case I64 => Whole(Signed(FromBigEndian(Reorder64(regs, order)), 0x1_0000_0000_0000_0000))
    case F64 => Float64(FromBigEndian(Reorder64(regs, order)))
  }

  function Decode(regs: seq<u16>, dt: DataType, order: ByteOrder, scale: Number, offset: Number)
    : Result<Reading, DecodeError>
  {
    if |regs| < RegistersNeeded(dt) then
      Err(InsufficientRegisters(RegistersNeeded(dt), |regs|))
    else
      Ok(Scaled(RawOf(regs, dt, order), scale, offset))
  }

  // ----- raw I2C, SPI and I3C bytes -----

  /** The mid-endian orders fall together with the plain ones on raw bytes. */
  function WordFromBytes(b: seq<u8>, order: ByteOrder): nat {
    match order
    case BigEndian | MidBigEndian => FromBigEndian(b)
    case LittleEndian | MidLittleEndian => FromLittleEndian(b)
  }

  function RawOfBytes(b: seq<u8>, dt: DataType, order: ByteOrder): Number
    requires |b| >= ByteCount(dt)
  {
    match dt
    case Bool => Whole(if b[0] % 2 != 0 then 1 else 0)
    case U8 => Whole(b[0])
    case U16 => Whole(WordFromBytes(b[..2], order))
    case I16 => Whole(Signed(WordFromBytes(b[..2], order), 0x1_0000))
    case U32 => Whole(WordFromBytes(b[..4], order))
    case I32 => Whole(Signed(WordFromBytes(b[..4], order), 0x1_0000_0000))
    case F32 => Float32(WordFromBytes(b[..4], order))
    case U64 => Whole(WordFromBytes(b[..8], order))
    case I64 => Whole(Signed(WordFromBytes(b[..8], order), 0x1_0000_0000_0000_0000))
    case F64 => Float64(WordFromBytes(b[..8], order))
  }

  function DecodeBytes(b: seq<u8>, dt: DataType, order: ByteOrder, scale: Number, offset: Number)
    : Result<Reading, DecodeError>
  {
    if |b| < ByteCount(dt) then
      Err(InsufficientRegisters(ByteCount(dt), |b|))
    else
      Ok(Scaled(RawOfBytes(b, dt, order), scale, offset))
  }

  // ----- encoders (the reference encoders of src/reader/decoder_tests.rs) -----

  function Encode32(b: seq<u8>, order: ByteOrder): (regs: seq<u16>)
    requires |b| == 4
    ensures |regs| == 2
  {
    var r0, r1 := RegisterOf(b[0], b[1]), RegisterOf(b[2], b[3]);
    match order
    case BigEndian => [r0, r1]
    case LittleEndian => [SwapBytes(r1), SwapBytes(r0)]
    case MidBigEndian => [r1, r0]
    case MidLittleEndian => [SwapBytes(r0), SwapBytes(r1)]
  }

  function Encode64(b: seq<u8>, order: ByteOrder): (regs: seq<u16>)
    requires |b| == 8
    ensures |regs| == 4
  {
    var r0, r1 := RegisterOf(b[0], b[1]), RegisterOf(b[2], b[3]);
    var r2, r3 := RegisterOf(b[4], b[5]), RegisterOf(b[6], b[7]);
    match order
    case BigEndian => [r0, r1, r2, r3]
    case LittleEndian => [SwapBytes(r3), SwapBytes(r2), SwapBytes(r1), SwapBytes(r0)]
    case MidBigEndian => [r2, r3, r0, r1]
    case MidLittleEndian => [SwapBytes(r0), SwapBytes(r1), SwapBytes(r2), SwapBytes(r3)]
  }

  /** The unsigned word that carries `n`, the inverse of `Signed`. */
  function Unsigned(n: int, modulus: nat): nat
    requires n < 0 ==> 0 <= n + modulus
  {
    if n < 0 then n + modulus else n
  }

  /** The raw values a data type can carry. */
  ghost predicate Carries(dt: DataType, raw: Number) {
    match dt
    case Bool => raw == Whole(0) || raw == Whole(1)
    case U8 => raw.Whole? && 0 <= raw.n < 0x100
    case U16 => raw.Whole? && 0 <= raw.n < 0x1_0000
    case I16 => raw.Whole? && -0x8000 <= raw.n < 0x8000
    case U32 => raw.Whole? && 0 <= raw.n < 0x1_0000_0000
    case I32 => raw.Whole? && -0x8000_0000 <= raw.n < 0x8000_0000
    case F32 => raw.Float32? && raw.bits < 0x1_0000_0000
    case U64 => raw.Whole? && 0 <= raw.n < 0x1_0000_0000_0000_0000
    case I64 => raw.Whole? && -0x8000_0000_0000_0000 <= raw.n < 0x8000_0000_0000_0000
    case F64 => raw.Float64? && raw.bits < 0x1_0000_0000_0000_0000
  }

  function Encode(raw: Number, dt: DataType, order: ByteOrder): (regs: seq<u16>)
    requires Carries(dt, raw)
    ensures |regs| == RegistersNeeded(dt)
  {
    match dt
    case Bool | U8 | U16 => [raw.n]
    case I16 => [Unsigned(raw.n, 0x1_0000)]
    case U32 => Encode32(ToBigEndian(raw.n, 4), order)
    case I32 => Encode32(ToBigEndian(Unsigned(raw.n, 0x1_0000_0000), 4), order)
    case F32 => Encode32(ToBigEndian(raw.bits, 4), order)
    case U64 => Encode64(ToBigEndian(raw.n, 8), order)
    case I64 => Encode64(ToBigEndian(Unsigned(raw.n, 0x1_0000_0000_0000_0000), 8), order)
    case F64 => Encode64(ToBigEndian(raw.bits, 8), order)
  }

  // ----- decoding and encoding are inverse -----

  lemma {:induction false} DivMod256(x: int, q: int, r: int)
    requires x == 256 * q + r && 0 <= r < 256
    ensures x / 256 == q && x % 256 == r
  {
    assert 256 * (x / 256 - q) == r - x % 256;
  }

  lemma {:induction false} RegisterLaws(hi: u8, lo: u8)
    ensures RegisterBytes(RegisterOf(hi, lo)) == [hi, lo]
    ensures SwapBytes(RegisterOf(hi, lo)) == RegisterOf(lo, hi)
  {
    DivMod256(hi * 256 + lo, hi, lo);
  }

  lemma {:induction false} ReorderUndoesEncode32(b: seq<u8>, order: ByteOrder, rest: seq<u16>)
    requires |b| == 4
    ensures Reorder32(Encode32(b, order) + rest, order) == b
  {
    hide RegisterBytes, RegisterOf;
    RegisterLaws(b[0], b[1]);
    RegisterLaws(b[2], b[3]);
    RegisterLaws(b[1], b[0]);
    RegisterLaws(b[3], b[2]);
  }

  lemma {:induction false} ReorderUndoesEncode64(b: seq<u8>, order: ByteOrder, rest: seq<u16>)
    requires |b| == 8
    ensures Reorder64(Encode64(b, order) + rest, order) == b
  {
    hide RegisterBytes, RegisterOf;
    RegisterLaws(b[0], b[1]);
    RegisterLaws(b[2], b[3]);
    RegisterLaws(b[4], b[5]);
    RegisterLaws(b[6], b[7]);
    RegisterLaws(b[1], b[0]);
    RegisterLaws(b[3], b[2]);
    RegisterLaws(b[5], b[4]);
    RegisterLaws(b[7], b[6]);
  }

  lemma {:induction false} DecodeUndoesEncode32(raw: Number, dt: DataType, order: ByteOrder, rest: seq<u16>)
    requires Carries(dt, raw) && RegistersNeeded(dt) == 2
    ensures RawOf(Encode(raw, dt, order) + rest, dt, order) == raw
  {
    var v := if dt == F32 then raw.bits else Unsigned(raw.n, 0x1_0000_0000);
    ReorderUndoesEncode32(ToBigEndian(v, 4), order, rest);
    WordSizes();
    FromToBigEndian(v, 4);
  }

  lemma {:induction false} DecodeUndoesEncode64(raw: Number, dt: DataType, order: ByteOrder, rest: seq<u16>)
    requires Carries(dt, raw) && RegistersNeeded(dt) == 4
    ensures RawOf(Encode(raw, dt, order) + rest, dt, order) == raw
  {
    var v := if dt == F64 then raw.bits else Unsigned(raw.n, 0x1_0000_0000_0000_0000);
    ReorderUndoesEncode64(ToBigEndian(v, 8), order, rest);
    WordSizes();
    FromToBigEndian(v, 8);
  }

  /**
   Decoding the registers that a value was encoded into returns that value, in every
   data type and byte order, whatever registers follow.
   */
  lemma {:induction false} DecodeUndoesEncode(raw: Number, dt: DataType, order: ByteOrder, rest: seq<u16>, scale: Number, offset: Number)
    requires Carries(dt, raw)
    ensures Decode(Encode(raw, dt, order) + rest, dt, order, scale, offset)
         == Ok(Reading(raw, Affine(raw, scale, offset)))
  {
    match RegistersNeeded(dt)
    case 2 =>
      hide RawOf, Encode, Carries;
      DecodeUndoesEncode32(raw, dt, order, rest);
    case 4 =>
      hide RawOf, Encode, Carries;
      DecodeUndoesEncode64(raw, dt, order, rest);
    case _ =>
  }

  lemma {:induction false} RegisterOfBytes(r: u16)
    ensures RegisterOf(r / 256, r % 256) == r
    ensures SwapBytes(RegisterOf(r % 256, r / 256)) == r
  {
    RegisterLaws(r % 256, r / 256);
  }

  lemma {:induction false} EncodeUndoesReorder32(regs: seq<u16>, order: ByteOrder)
    requires |regs| == 2
    ensures Encode32(Reorder32(regs, order), order) == regs
  {
    RegisterOfBytes(regs[0]);
    RegisterOfBytes(regs[1]);
  }

  lemma {:induction false} EncodeUndoesReorder64(regs: seq<u16>, order: ByteOrder)
    requires |regs| == 4
    ensures Encode64(Reorder64(regs, order), order) == regs
  {
    RegisterOfBytes(regs[0]);
    RegisterOfBytes(regs[1]);
    RegisterOfBytes(regs[2]);
    RegisterOfBytes(regs[3]);
  }

  lemma {:induction false} EncodeUndoesDecode32(regs: seq<u16>, dt: DataType, order: ByteOrder)
    requires |regs| == RegistersNeeded(dt) == 2
    ensures Carries(dt, RawOf(regs, dt, order)) && Encode(RawOf(regs, dt, order), dt, order) == regs
  {
    hide Reorder32, Encode32, FromBigEndian, ToBigEndian, Pow256;
    EncodeUndoesReorder32(regs, order);
    WordSizes();
    ToFromBigEndian(Reorder32(regs, order));
  }

  lemma {:induction false} EncodeUndoesDecode64(regs: seq<u16>, dt: DataType, order: ByteOrder)
    requires |regs| == RegistersNeeded(dt) == 4
    ensures Carries(dt, RawOf(regs, dt, order)) && Encode(RawOf(regs, dt, order), dt, order) == regs
  {
    hide Reorder64, Encode64, FromBigEndian, ToBigEndian, Pow256;
    EncodeUndoesReorder64(regs, order);
    WordSizes();
    ToFromBigEndian(Reorder64(regs, order));
  }

  /**
   Every register string of the right length is the encoding of the value it decodes to,
   except for the two types that drop register bits. So decoding loses nothing.
   */
  lemma {:induction false} EncodeUndoesDecode(regs: seq<u16>, dt: DataType, order: ByteOrder)
    requires |regs| == RegistersNeeded(dt)
    requires dt != U8 && dt != Bool
    ensures Carries(dt, RawOf(regs, dt, order))
    ensures Encode(RawOf(regs, dt, order), dt, order) == regs
  {
    match RegistersNeeded(dt)
    case 2 => EncodeUndoesDecode32(regs, dt, order);
    case 4 => EncodeUndoesDecode64(regs, dt, order);
    case _ =>
  }

  /** Only the first `RegistersNeeded` registers matter. */
  lemma {:induction false} DecodeReadsPrefix(regs: seq<u16>, dt: DataType, order: ByteOrder, scale: Number, offset: Number)
    requires |regs| >= RegistersNeeded(dt)
    ensures Decode(regs, dt, order, scale, offset)
         == Decode(regs[..RegistersNeeded(dt)], dt, order, scale, offset)
  {
  }

  /** On too few registers or bytes the error says how many were needed and how many there were. */
  lemma {:induction false} TooShort(regs: seq<u16>, b: seq<u8>, dt: DataType, order: ByteOrder, scale: Number, offset: Number)
    ensures |regs| < RegistersNeeded(dt) ==>
      Decode(regs, dt, order, scale, offset) == Err(InsufficientRegisters(RegistersNeeded(dt), |regs|))
    ensures |b| < ByteCount(dt) ==>
      DecodeBytes(b, dt, order, scale, offset) == Err(InsufficientRegisters(ByteCount(dt), |b|))
  {
  }

  /** The two types that use part of a register: a `u8` its low byte, a `bool` any of its bits. */
  lemma {:induction false} RegistersThatDropBits(r: u16, rest: seq<u16>, order: ByteOrder, scale: Number, offset: Number)
    ensures Decode([r] + rest, U8, order, scale, offset) == Ok(Reading(Whole(r % 256), Affine(Whole(r % 256), scale, offset)))
    ensures var truth := Whole(if r == 0 then 0 else 1);
      Decode([r] + rest, Bool, order, scale, offset) == Ok(Reading(truth, Affine(truth, scale, offset)))
  {
    assert ([r] + rest)[0] == r;
  }

  function RegistersOf(b: seq<u8>): seq<u16>
    requires |b| % 2 == 0
  {
    seq(|b| / 2, k requires 0 <= k < |b| / 2 => RegisterOf(b[2 * k], b[2 * k + 1]))
  }

  /** The encoders are the same reordering, applied to the bytes of the value. */
  lemma {:induction false} EncodeIsReorder32(b: seq<u8>, order: ByteOrder)
    requires |b| == 4
    ensures Encode32(b, order) == RegistersOf(Reorder32(RegistersOf(b), order))
  {
    hide RegisterBytes, RegisterOf, SwapBytes;
    RegisterLaws(b[0], b[1]);
    RegisterLaws(b[2], b[3]);
  }

  lemma {:induction false} EncodeIsReorder64(b: seq<u8>, order: ByteOrder)
    requires |b| == 8
    ensures Encode64(b, order) == RegistersOf(Reorder64(RegistersOf(b), order))
  {
    hide RegisterBytes, RegisterOf, SwapBytes;
    RegisterLaws(b[0], b[1]);
    RegisterLaws(b[2], b[3]);
    RegisterLaws(b[4], b[5]);
    RegisterLaws(b[6], b[7]);
  }

  /** Reordering is its own inverse on the bytes of the registers. */
  lemma {:induction false} ReorderIsInvolution(b: seq<u8>, order: ByteOrder)
    ensures |b| == 4 ==> Reorder32(RegistersOf(Reorder32(RegistersOf(b), order)), order) == b
    ensures |b| == 8 ==> Reorder64(RegistersOf(Reorder64(RegistersOf(b), order)), order) == b
  {
    if |b| == 4 {
      EncodeIsReorder32(b, order);
      ReorderUndoesEncode32(b, order, []);
      assert Encode32(b, order) + [] == Encode32(b, order);
    } else if |b| == 8 {
      EncodeIsReorder64(b, order);
      ReorderUndoesEncode64(b, order, []);
      assert Encode64(b, order) + [] == Encode64(b, order);
    }
  }

  // ----- raw bytes and back -----

  /** `n` bytes that carry a word, most or least significant byte first. */
  function EncodeWord(v: nat, n: nat, order: ByteOrder): (b: seq<u8>)
    ensures |b| == n
  {
    if order == BigEndian || order == MidBigEndian then ToBigEndian(v, n) else Reversed(ToBigEndian(v, n))
  }

  function EncodeBytes(raw: Number, dt: DataType, order: ByteOrder): (b: seq<u8>)
    requires Carries(dt, raw)
  {
    match dt
    case Bool | U8 => [raw.n]
    case U16 => EncodeWord(raw.n, 2, order)
    case I16 => EncodeWord(Unsigned(raw.n, 0x1_0000), 2, order)
    case U32 => EncodeWord(raw.n, 4, order)
    case I32 => EncodeWord(Unsigned(raw.n, 0x1_0000_0000), 4, order)
    case F32 => EncodeWord(raw.bits, 4, order)
    case U64 => EncodeWord(raw.n, 8, order)
    case I64 => EncodeWord(Unsigned(raw.n, 0x1_0000_0000_0000_0000), 8, order)
    case F64 => EncodeWord(raw.bits, 8, order)
  }

  lemma {:induction false} WordReadsBack(v: nat, n: nat, order: ByteOrder, rest: seq<u8>)
    requires v < Pow256(n)
    ensures |EncodeWord(v, n, order) + rest| >= n
    ensures WordFromBytes((EncodeWord(v, n, order) + rest)[..n], order) == v
  {
    hide FromBigEndian, ToBigEndian, Pow256;
    var b := EncodeWord(v, n, order);
    FromToBigEndian(v, n);
    assert (b + rest)[..n] == b;
    assert Reversed(Reversed(ToBigEndian(v, n))) == ToBigEndian(v, n);
  }

  lemma {:induction false} BytesReadBack16(raw: Number, dt: DataType, order: ByteOrder, rest: seq<u8>)
    requires Carries(dt, raw) && ByteCount(dt) == 2
    ensures |EncodeBytes(raw, dt, order)| == 2 && RawOfBytes(EncodeBytes(raw, dt, order) + rest, dt, order) == raw
  {
    hide WordFromBytes, EncodeWord, Pow256;
    WordSizes();
    WordReadsBack(Unsigned(raw.n, 0x1_0000), 2, order, rest);
  }

  lemma {:induction false} BytesReadBack32(raw: Number, dt: DataType, order: ByteOrder, rest: seq<u8>)
    requires Carries(dt, raw) && ByteCount(dt) == 4
    ensures |EncodeBytes(raw, dt, order)| == 4 && RawOfBytes(EncodeBytes(raw, dt, order) + rest, dt, order) == raw
  {
    hide WordFromBytes, EncodeWord, Pow256;
    WordSizes();
    WordReadsBack(if dt == F32 then raw.bits else Unsigned(raw.n, 0x1_0000_0000), 4, order, rest);
  }

  lemma {:induction false} BytesReadBack64(raw: Number, dt: DataType, order: ByteOrder, rest: seq<u8>)
    requires Carries(dt, raw) && ByteCount(dt) == 8
    ensures |EncodeBytes(raw, dt, order)| == 8 && RawOfBytes(EncodeBytes(raw, dt, order) + rest, dt, order) == raw
  {
    hide WordFromBytes, EncodeWord, Pow256;
    WordSizes();
    WordReadsBack(if dt == F64 then raw.bits else Unsigned(raw.n, 0x1_0000_0000_0000_0000), 8, order, rest);
  }

  /**
   Decoding the bytes that a value was encoded into returns that value, in every data type
   and byte order, whatever bytes follow.
   */
  lemma {:induction false} DecodeUndoesEncodeBytes(raw: Number, dt: DataType, order: ByteOrder, rest: seq<u8>,
      scale: Number, offset: Number)
    requires Carries(dt, raw)
    ensures DecodeBytes(EncodeBytes(raw, dt, order) + rest, dt, order, scale, offset)
         == Ok(Reading(raw, Affine(raw, scale, offset)))
  {
    match dt
    case Bool | U8 => SingleBytes(raw.n, rest, order, scale, offset);
    case U16 | I16 =>
      hide RawOfBytes, EncodeBytes, Carries;
      BytesReadBack16(raw, dt, order, rest);
    case U32 | I32 | F32 =>
      hide RawOfBytes, EncodeBytes, Carries;
      BytesReadBack32(raw, dt, order, rest);
    case U64 | I64 | F64 =>
      hide RawOfBytes, EncodeBytes, Carries;
      BytesReadBack64(raw, dt, order, rest);
  }

  /** A byte sensor: a `u8` is the byte itself, a `bool` its lowest bit. */
  lemma {:induction false} SingleBytes(b: u8, rest: seq<u8>, order: ByteOrder, scale: Number, offset: Number)
    ensures DecodeBytes([b] + rest, U8, order, scale, offset) == Ok(Reading(Whole(b), Affine(Whole(b), scale, offset)))
    ensures var lowest := Whole(if b % 2 == 1 then 1 else 0);
      DecodeBytes([b] + rest, Bool, order, scale, offset) == Ok(Reading(lowest, Affine(lowest, scale, offset)))
  {
    assert ([b] + rest)[0] == b;
  }

  // ----- where the two decoders agree -----

  /** The big-endian bytes in which Modbus carries registers on the wire. */
  function WireBytes(regs: seq<u16>): (b: seq<u8>)
    ensures |b| == 2 * |regs|
  {
    seq(2 * |regs|, k requires 0 <= k < 2 * |regs| => RegisterBytes(regs[k / 2])[k % 2])
  }

  /** The type and order pairs on which the decoders agree. */
  predicate SameOnWire(dt: DataType, order: ByteOrder) {
    match dt
    case Bool | U8 => false
    case U16 | I16 => order == BigEndian || order == MidBigEndian
    case _ => order == BigEndian || order == LittleEndian
  }

  /** The same reading, or a failure of both. */
  predicate SameOutcome(a: Result<Reading, DecodeError>, b: Result<Reading, DecodeError>) {
    if a.Ok? then b == a else b.Err?
  }

  ghost predicate DecodersAgreeOn(regs: seq<u16>, dt: DataType, order: ByteOrder) {
    forall scale, offset ::
      SameOutcome(Decode(regs, dt, order, scale, offset), DecodeBytes(WireBytes(regs), dt, order, scale, offset))
  }

  /** On too few registers both decoders fail. */
  lemma {:induction false} DecodersFailTogether(regs: seq<u16>, dt: DataType, order: ByteOrder, scale: Number, offset: Number)
    ensures Decode(regs, dt, order, scale, offset).Err?
       <==> DecodeBytes(WireBytes(regs), dt, order, scale, offset).Err?
  {
  }

  lemma {:induction false} WireWord32(regs: seq<u16>, order: ByteOrder)
    requires |regs| >= 2
    requires order == BigEndian || order == LittleEndian
    ensures WordFromBytes(WireBytes(regs)[..4], order) == FromBigEndian(Reorder32(regs, order))
  {
    var b := WireBytes(regs)[..4];
    assert b == Reorder32(regs, BigEndian);
    assert Reversed(b) == Reorder32(regs, LittleEndian);
  }

  lemma {:induction false} WireWord64(regs: seq<u16>, order: ByteOrder)
    requires |regs| >= 4
    requires order == BigEndian || order == LittleEndian
    ensures WordFromBytes(WireBytes(regs)[..8], order) == FromBigEndian(Reorder64(regs, order))
  {
    var b := WireBytes(regs)[..8];
    assert b == Reorder64(regs, BigEndian);
    assert Reversed(b) == Reorder64(regs, LittleEndian);
  }

  lemma {:induction false} FromTwoBytes(b: seq<u8>)
    requires |b| == 2
    ensures FromBigEndian(b) == RegisterOf(b[0], b[1])
    ensures FromLittleEndian(b) == RegisterOf(b[1], b[0])
  {
    assert FromBigEndian(b[..1]) == b[0] && FromBigEndian(Reversed(b)[..1]) == b[1];
  }

  lemma {:induction false} WireWord16(regs: seq<u16>)
    requires |regs| >= 1
    ensures FromBigEndian(WireBytes(regs)[..2]) == regs[0]
    ensures FromLittleEndian(WireBytes(regs)[..2]) == SwapBytes(regs[0])
  {
    FromTwoBytes(WireBytes(regs)[..2]);
    RegisterOfBytes(regs[0]);
  }

  lemma {:induction false} DecodersAgreeWhere(regs: seq<u16>, dt: DataType, order: ByteOrder)
    requires |regs| >= RegistersNeeded(dt) && SameOnWire(dt, order)
    ensures DecodersAgreeOn(regs, dt, order)
  {
    match RegistersNeeded(dt)
    case 2 => WireWord32(regs, order);
    case 4 => WireWord64(regs, order);
    case _ => WireWord16(regs);
  }

  /** The register string that holds 1 in its last register tells the decoders apart. */
  function Witness(dt: DataType): (regs: seq<u16>)
    ensures |regs| == RegistersNeeded(dt)
  {
    seq(RegistersNeeded(dt), i => if i == RegistersNeeded(dt) - 1 then 1 else 0)
  }

  lemma {:induction false} FromZeroPrefix(b: seq<u8>, n: nat)
    requires n <= |b| && forall i | 0 <= i < n :: b[i] == 0
    ensures FromBigEndian(b) == FromBigEndian(b[n..])
    decreases |b|
  {
    if n == |b| {
      if b != [] {
        FromZeroPrefix(b[..|b| - 1], n - 1);
        assert b[..|b| - 1][n - 1..] == [];
      }
      assert b[n..] == [];
    } else {
      FromZeroPrefix(b[..|b| - 1], n);
      assert b[n..][..|b| - n - 1] == b[..|b| - 1][n..];
    }
  }

  /** A word whose only nonzero byte, at position `at`, is 1. */
  lemma {:induction false} FromOneBit(b: seq<u8>, at: nat)
    requires at < |b| && b[at] == 1 && forall i | 0 <= i < |b| && i != at :: b[i] == 0
    ensures FromBigEndian(b) == Pow256(|b| - 1 - at)
  {
    if at == |b| - 1 {
      FromZeroPrefix(b, at);
      assert b[at..] == [1] && [1][..0] == [];
    } else {
      FromOneBit(b[..|b| - 1], at);
    }
  }

  lemma {:induction false} WitnessWords32(order: ByteOrder)
    requires order == MidBigEndian || order == MidLittleEndian
    ensures FromBigEndian(Reorder32([0, 1], order)) == Pow256(if order == MidBigEndian then 2 else 1)
    ensures WordFromBytes(WireBytes([0, 1])[..4], order) == Pow256(if order == MidBigEndian then 0 else 3)
  {
    var wire := WireBytes([0, 1])[..4];
    assert wire == [0, 0, 0, 1] && Reversed(wire) == [1, 0, 0, 0];
    if order == MidBigEndian {
      FromOneBit(wire, 3);
      FromOneBit(Reorder32([0, 1], order), 1);
    } else {
      FromOneBit(Reversed(wire), 0);
      FromOneBit(Reorder32([0, 1], order), 2);
    }
  }

  lemma {:induction false} WitnessWords64(order: ByteOrder)
    requires order == MidBigEndian || order == MidLittleEndian
    ensures FromBigEndian(Reorder64([0, 0, 0, 1], order)) == Pow256(if order == MidBigEndian then 4 else 1)
    ensures WordFromBytes(WireBytes([0, 0, 0, 1])[..8], order) == Pow256(if order == MidBigEndian then 0 else 7)
  {
    var wire := WireBytes([0, 0, 0, 1])[..8];
    assert wire == [0, 0, 0, 0, 0, 0, 0, 1] && Reversed(wire) == [1, 0, 0, 0, 0, 0, 0, 0];
    if order == MidBigEndian {
      FromOneBit(wire, 7);
      FromOneBit(Reorder64([0, 0, 0, 1], order), 3);
    } else {
      FromOneBit(Reversed(wire), 0);
      FromOneBit(Reorder64([0, 0, 0, 1], order), 6);
    }
  }

  lemma {:induction false} WitnessWord16(order: ByteOrder)
    ensures WireBytes([1])[0] == 0
    ensures order == LittleEndian || order == MidLittleEndian ==> WordFromBytes(WireBytes([1])[..2], order) == 0x100
  {
    WireWord16([1]);
  }

  lemma {:induction false} DecodersDifferAt(dt: DataType, order: ByteOrder)
    requires !SameOnWire(dt, order)
    ensures RawOf(Witness(dt), dt, order) != RawOfBytes(WireBytes(Witness(dt)), dt, order)
  {
    WordSizes();
    hide FromBigEndian, FromLittleEndian, Reorder32, Reorder64, WordFromBytes, Pow256;
    match RegistersNeeded(dt)
    case 2 =>
      assert Witness(dt) == [0, 1];
      WitnessWords32(order);
    case 4 =>
      assert Witness(dt) == [0, 0, 0, 1];
      WitnessWords64(order);
    case _ =>
      assert Witness(dt) == [1];
      WitnessWord16(order);
  }

  /**
   The register decoder and the byte decoder agree on every register string exactly for
   the 32- and 64-bit types in the plain byte orders, and for the 16-bit types in the two
   orders that leave a register as it is.
   */
  lemma {:induction false} DecodersAgreeExactly(dt: DataType, order: ByteOrder)
    ensures SameOnWire(dt, order) <==> forall regs: seq<u16> :: DecodersAgreeOn(regs, dt, order)
  {
    if SameOnWire(dt, order) {
      forall regs: seq<u16> ensures DecodersAgreeOn(regs, dt, order) {
        if |regs| >= RegistersNeeded(dt) {
          DecodersAgreeWhere(regs, dt, order);
        } else {
          forall scale, offset
            ensures SameOutcome(Decode(regs, dt, order, scale, offset), DecodeBytes(WireBytes(regs), dt, order, scale, offset))
          {
            DecodersFailTogether(regs, dt, order, scale, offset);
          }
        }
      }
    } else {
      DecodersDifferAt(dt, order);
      assert !DecodersAgreeOn(Witness(dt), dt, order) by {
        assert !SameOutcome(Decode(Witness(dt), dt, order, Whole(1), Whole(0)),
                            DecodeBytes(WireBytes(Witness(dt)), dt, order, Whole(1), Whole(0)));
      }
    }
  }
}
