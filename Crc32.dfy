/**
 * `Hash.CRC`: the CRC-32 of ISO/IEC 3309 / IEEE 802.3 (reflected polynomial 0xEDB88320, register
 * preset to all ones, result complemented), computed the way the source does it, through a
 * 256-entry table built once in nested loops. The reference definition works bit by bit.
 */
module Crc {
  import opened Binary

  const Poly: bv32 := 0xEDB8_8320

  /** One bit step of the reflected CRC register. */
  function Shift(c: bv32): bv32 {
    if c & 1 == 1 then (c >> 1) ^ Poly else c >> 1
  }

  /** `n` bit steps. */
  function ShiftN(c: bv32, n: nat): bv32 {
    if n == 0 then c else Shift(ShiftN(c, n - 1))
  }

  /** The register after feeding `bytes`, one byte (eight bit steps) at a time. */
  function Register(bytes: seq<byte>): bv32 {
    if bytes == [] then 0xFFFF_FFFF
    else ShiftN(Register(bytes[..|bytes| - 1]) ^ (bytes[|bytes| - 1] as bv32), 8)
  }

  /** The standard CRC-32 of `bytes`. */
  function Crc32(bytes: seq<byte>): bv32 {
    !Register(bytes)
  }

  /** Entry `i` of the table of class `Hash`: eight bit steps of `i`. */
  function TableEntry(i: byte): bv32 {
    ShiftN(i as bv32, 8)
  }

  // The bit-level facts below are chained through small predicates, so that each proof step
  // only sees the few bit-vector terms it is about.

  predicate XorOf(z: bv32, x: bv32, y: bv32) {
    z == x ^ y
  }

  predicate LowClear(v: bv32, mask: bv32) {
    v & mask == 0
  }

  predicate Halved(w: bv32, v: bv32) {
    w == v >> 1
  }

  lemma StepOnce(c: bv32, n: nat)
    ensures ShiftN(c, n + 1) == Shift(ShiftN(c, n))
  {
  }

  lemma XorBits(x: bv32, y: bv32)
    ensures (x ^ y) >> 1 == (x >> 1) ^ (y >> 1)
    ensures (x ^ y) & 1 == (x & 1) ^ (y & 1)
    ensures x & 1 == 0 || x & 1 == 1
  {
  }

  lemma XorCancel(a: bv32, b: bv32, p: bv32)
    ensures (a ^ p) ^ (b ^ p) == a ^ b
    ensures (a ^ p) ^ b == (a ^ b) ^ p
    ensures a ^ (b ^ p) == (a ^ b) ^ p
  {
  }

  /** A bit step is linear over GF(2). */
  lemma ShiftXor(x: bv32, y: bv32, z: bv32)
    requires XorOf(z, x, y)
    ensures XorOf(Shift(z), Shift(x), Shift(y))
  {
    XorBits(x, y);
    XorBits(y, x);
    XorCancel(x >> 1, y >> 1, Poly);
  }

  lemma ShiftNXorStep(x: bv32, y: bv32, z: bv32, n: nat)
    requires XorOf(ShiftN(z, n), ShiftN(x, n), ShiftN(y, n))
    ensures XorOf(ShiftN(z, n + 1), ShiftN(x, n + 1), ShiftN(y, n + 1))
  {
    ShiftXor(ShiftN(x, n), ShiftN(y, n), ShiftN(z, n));
  }

  /** So is a byte step. */
  lemma ByteStepXor(x: bv32, y: bv32, z: bv32)
    requires XorOf(z, x, y)
    ensures XorOf(ShiftN(z, 8), ShiftN(x, 8), ShiftN(y, 8))
  {
    ShiftNXorStep(x, y, z, 0);
    ShiftNXorStep(x, y, z, 1);
    ShiftNXorStep(x, y, z, 2);
    ShiftNXorStep(x, y, z, 3);
    ShiftNXorStep(x, y, z, 4);
    ShiftNXorStep(x, y, z, 5);
    ShiftNXorStep(x, y, z, 6);
    ShiftNXorStep(x, y, z, 7);
  }

  /** A bit step of a register whose low bits are clear is a plain shift; one low bit fewer stays clear. */
  lemma ShiftClear8(v: bv32)
    requires LowClear(v, 0xFF)
    ensures Halved(Shift(v), v) && LowClear(v >> 1, 0x7F)
  {
  }

  lemma ShiftClear7(v: bv32)
    requires LowClear(v, 0x7F)
    ensures Halved(Shift(v), v) && LowClear(v >> 1, 0x3F)
  {
  }

  lemma ShiftClear6(v: bv32)
    requires LowClear(v, 0x3F)
    ensures Halved(Shift(v), v) && LowClear(v >> 1, 0x1F)
  {
  }

  lemma ShiftClear5(v: bv32)
    requires LowClear(v, 0x1F)
    ensures Halved(Shift(v), v) && LowClear(v >> 1, 0xF)
  {
  }

  lemma ShiftClear4(v: bv32)
    requires LowClear(v, 0xF)
    ensures Halved(Shift(v), v) && LowClear(v >> 1, 0x7)
  {
  }

  lemma ShiftClear3(v: bv32)
    requires LowClear(v, 0x7)
    ensures Halved(Shift(v), v) && LowClear(v >> 1, 0x3)
  {
  }

  lemma ShiftClear2(v: bv32)
    requires LowClear(v, 0x3)
    ensures Halved(Shift(v), v) && LowClear(v >> 1, 0x1)
  {
  }

  lemma ShiftClear1(v: bv32)
    requires LowClear(v, 0x1)
    ensures Halved(Shift(v), v)
  {
  }

  lemma ShiftRight8(hi: bv32)
    ensures ((((((((hi >> 1) >> 1) >> 1) >> 1) >> 1) >> 1) >> 1) >> 1) == hi >> 8
  {
  }

  /** A register whose lowest byte is zero only shifts during a byte step. */
  lemma ByteStepHigh(hi: bv32)
    requires LowClear(hi, 0xFF)
    ensures ShiftN(hi, 8) == hi >> 8
  {
    var h1 := hi >> 1;
    ShiftClear8(hi);
    StepOnce(hi, 0);
    var h2 := h1 >> 1;
    ShiftClear7(h1);
    StepOnce(hi, 1);
    var h3 := h2 >> 1;
    ShiftClear6(h2);
    StepOnce(hi, 2);
    var h4 := h3 >> 1;
    ShiftClear5(h3);
    StepOnce(hi, 3);
    var h5 := h4 >> 1;
    ShiftClear4(h4);
    StepOnce(hi, 4);
    var h6 := h5 >> 1;
    ShiftClear3(h5);
    StepOnce(hi, 5);
    var h7 := h6 >> 1;
    ShiftClear2(h6);
    StepOnce(hi, 6);
    ShiftClear1(h7);
    StepOnce(hi, 7);
    ShiftRight8(hi);
  }

  lemma SplitLowByte(crc: bv32, b: byte, x: bv32, hi: bv32, lo: bv32)
    requires x == crc ^ (b as bv32) && hi == x & 0xFFFF_FF00 && lo == x & 0xFF
    ensures XorOf(x, hi, lo)
    ensures LowClear(hi, 0xFF)
    ensures hi >> 8 == crc >> 8
    ensures lo == (crc & 0xFF) ^ (b as bv32)
  {
  }

  /**
   * The table step of the source, `(crc >> 8) ^ table[(crc & 0xff) ^ b]`, is the byte step of
   * `crc ^ b`: bit steps are linear over GF(2), and the bits above the lowest byte only shift.
   */
  lemma TableStep(crc: bv32, b: byte)
    ensures XorOf(ShiftN(crc ^ (b as bv32), 8), crc >> 8, ShiftN((crc & 0xFF) ^ (b as bv32), 8))
  {
    var x := crc ^ (b as bv32);
    var hi, lo := x & 0xFFFF_FF00, x & 0xFF;
    SplitLowByte(crc, b, x, hi, lo);
    ByteStepXor(hi, lo, x);
    ByteStepHigh(hi);
  }

  /** `index` is the table index the source computes from the register `c` and the input byte `b`. */
  predicate TableIndex(index: byte, c: bv32, b: byte) {
    index as bv32 == (c & 0xFF) ^ (b as bv32)
  }

  lemma IndexByte(c: bv32, b: byte, index: byte)
    requires index == ((c & 0xFF) ^ (b as bv32)) as byte
    ensures TableIndex(index, c, b)
  {
  }

  /** Conversions between a byte and its numeric value. */
  lemma ByteValue(i: int)
    requires 0 <= i < 256
    ensures (i as byte) as bv32 == i as bv32
  {
  }

  lemma ByteRound(b: byte)
    ensures (b as int) as byte == b
  {
  }

  lemma RegisterSnoc(bytes: seq<byte>, i: nat)
    requires i < |bytes|
    ensures Register(bytes[..i + 1]) == ShiftN(Register(bytes[..i]) ^ (bytes[i] as bv32), 8)
  {
    assert bytes[..i + 1][..i] == bytes[..i];
  }

  /** One loop iteration of `Hash.CRC` feeds one byte to the register. */
  lemma RegisterStep(bytes: seq<byte>, i: nat, c: bv32, index: byte)
    requires i < |bytes| && c == Register(bytes[..i])
    requires TableIndex(index, c, bytes[i])
    ensures XorOf(Register(bytes[..i + 1]), c >> 8, TableEntry(index))
  {
    RegisterSnoc(bytes, i);
    TableStep(c, bytes[i]);
  }

  lemma Complemented(bytes: seq<byte>, c: bv32, crc: bv32)
    requires c == Register(bytes[..|bytes|]) && crc == !c
    ensures crc == Crc32(bytes)
  {
    assert bytes[..|bytes|] == bytes;
  }

  /** The ASCII digits "123456789", the input of the CRC-32 check value. */
  const Digits: seq<byte> := [0x31, 0x32, 0x33, 0x34, 0x35, 0x36, 0x37, 0x38, 0x39]

  /** The register after each prefix of `Digits`. */
  const DigitRegisters: seq<bv32> :=
    [0xffff_ffff, 0x7c23_1048, 0xb0ac_bb32, 0x77b7_9c2d, 0x641c_1f5c, 0x340a_c5e3,
     0xf68d_2c9e, 0xaffc_9660, 0x651f_2550, 0x340b_c6d9]

  lemma DigitSteps1()
    ensures ShiftN(0xffff_ffff ^ 0x31, 8) == 0x7c23_1048
    ensures ShiftN(0x7c23_1048 ^ 0x32, 8) == 0xb0ac_bb32
    ensures ShiftN(0xb0ac_bb32 ^ 0x33, 8) == 0x77b7_9c2d
  {
  }

  lemma DigitSteps2()
    ensures ShiftN(0x77b7_9c2d ^ 0x34, 8) == 0x641c_1f5c
    ensures ShiftN(0x641c_1f5c ^ 0x35, 8) == 0x340a_c5e3
    ensures ShiftN(0x340a_c5e3 ^ 0x36, 8) == 0xf68d_2c9e
  {
  }

  lemma DigitSteps3()
    ensures ShiftN(0xf68d_2c9e ^ 0x37, 8) == 0xaffc_9660
    ensures ShiftN(0xaffc_9660 ^ 0x38, 8) == 0x651f_2550
    ensures ShiftN(0x651f_2550 ^ 0x39, 8) == 0x340b_c6d9
  {
  }

  lemma DigitStep(k: nat)
    requires k < 9
    ensures ShiftN(DigitRegisters[k] ^ (Digits[k] as bv32), 8) == DigitRegisters[k + 1]
  {
    if k < 3 {
      DigitSteps1();
    } else if k < 6 {
      DigitSteps2();
    } else {
      DigitSteps3();
    }
  }

  /**
   * Reading off a CRC computed by hand: `regs` lists the register before the first byte and after
   * each byte of `s`, every entry being the byte step of the previous one.
   */
  lemma {:induction false} RegisterTrace(s: seq<byte>, regs: seq<bv32>, k: nat)
    requires |regs| == |s| + 1 && regs[0] == 0xFFFF_FFFF && k <= |s|
    requires forall j :: 0 <= j < |s| ==> ShiftN(regs[j] ^ (s[j] as bv32), 8) == regs[j + 1]
    ensures Register(s[..k]) == regs[k]
  {
    if k == 0 {
      assert s[..0] == [];
    } else {
      RegisterTrace(s, regs, k - 1);
      RegisterSnoc(s, k - 1);
    }
  }

  /** The check value of CRC-32: the CRC of the ASCII digits "123456789" is 0xCBF43926. */
  lemma CheckValue()
    ensures Crc32(Digits) == 0xCBF4_3926
  {
    forall j | 0 <= j < 9
      ensures ShiftN(DigitRegisters[j] ^ (Digits[j] as bv32), 8) == DigitRegisters[j + 1]
    {
      DigitStep(j);
    }
    RegisterTrace(Digits, DigitRegisters, 9);
    assert Digits[..9] == Digits;
  }

  /** The process-wide CRC table of class `Hash`. */
  class Hash {
    const table: array<bv32>

    ghost predicate Valid()
      reads this, table
    {
      table.Length == 256 && forall i :: 0 <= i < 256 ==> table[i] == TableEntry(i as byte)
    }

    /** The static constructor: fills the table with two nested loops. */
    constructor ()
      ensures Valid() && fresh(table)
    {
      var t := new bv32[256];
      var i := 0;
      while i < 256
        invariant 0 <= i <= 256
        invariant forall k :: 0 <= k < i ==> t[k] == TableEntry(k as byte)
      {
        var temp := i as bv32;
        var j := 8;
        while j > 0
          invariant 0 <= j <= 8
          invariant temp == ShiftN(i as bv32, 8 - j)
        {
          temp := if temp & 1 == 1 then (temp >> 1) ^ Poly else temp >> 1;
          j := j - 1;
        }
        ByteValue(i);
        t[i] := temp;
        i := i + 1;
      }
      table := t;
    }

    /** `Hash.CRC(byte[])`: the table-driven loop computes the standard CRC-32. */
    method Crc(bytes: seq<byte>) returns (crc: bv32)
      requires Valid()
      ensures crc == Crc32(bytes)
    {
      var c: bv32 := 0xFFFF_FFFF;
      var i := 0;
      while i < |bytes|
        invariant 0 <= i <= |bytes|
        invariant c == Register(bytes[..i])
      {
        var index := ((c & 0xFF) ^ (bytes[i] as bv32)) as byte;
        IndexByte(c, bytes[i], index);
        RegisterStep(bytes, i, c, index);
        ByteRound(index);
        c := (c >> 8) ^ table[index];
        i := i + 1;
      }
      crc := !c;
      Complemented(bytes, c, crc);
    }
  }
}
