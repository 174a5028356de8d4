/**
 * Bit layouts of the instruction words emitted by the ARMv7 code builder
 * (pypy/jit/backend/arm/codebuilder.py).
 *
 * Every encoder of the builder ORs shifted, masked operand fields into one
 * 32-bit word. Here each word is a function of the operands, and decoders
 * read the fields back as the ARM Architecture Reference Manual ARMv7-A/R
 * (ARM DDI 0406) lays them out in section A5.2 "Data-processing and
 * miscellaneous instructions" and section A5.3 "Load/store word and
 * unsigned byte"; PUSH is read as its encoding A1, a store-multiple to SP
 * with writeback, from section A5.5 "Branch, branch with link, and block
 * data transfer".
 *
 * Operands are Python integers, so they are `int` here and may be negative
 * or too wide for their field; the source masks them (`x & 0xF`), which
 * `Mask` models. Decoded fields are `bv32` values.
 */
module ArmEncoding {

  /** A condition code: the 4-bit value of bits 31..28. */
  type Cond = c: int | 0 <= c < 16

  /** The "always" condition, the default of every encoder. */
  const AL: Cond := 0xE

  // Data-processing opcodes (bits 24..21) and the ASR shift type (bits 6..5).
  const OPC_SUB: bv32 := 0x2
  const OPC_ADD: bv32 := 0x4
  const OPC_ORR: bv32 := 0xC
  const OPC_MOV: bv32 := 0xD
  const SHIFT_ASR: bv32 := 0x2

  const ONE: bv32 := 1

  /** The load bit L (bit 20), set by LDR and clear in STR. */
  const LOAD_BIT: bv32 := 0x10_0000

  // ---------------------------------------------------------------------
  // Operand masking
  // ---------------------------------------------------------------------

  /**
   * `x & mask` for a Python integer `x` and one of the masks the encoders
   * use, all of the form 2^k - 1. Python's `&` works on the infinite two's
   * complement expansion, so the result is `x` modulo 2^k, taken
   * non-negative even for negative `x`, which is what Dafny's `%` gives.
   * No bit outside the mask survives.
   */
  function Mask(x: int, mask: bv32): (f: bv32)
    requires mask == 0x1 || mask == 0x3 || mask == 0xF || mask == 0x1F || mask == 0xFF || mask == 0xFFF
    ensures f & mask == f
  {
    (x % (mask as int + 1)) as bv32
  }

  // An operand that already fits its field passes the mask unchanged.

  lemma MaskBit(x: int)
    requires 0 <= x < 0x2
    ensures Mask(x, 0x1) == x as bv32
  {
  }

  lemma MaskShiftType(x: int)
    requires 0 <= x < 0x4
    ensures Mask(x, 0x3) == x as bv32
  {
  }

  lemma MaskRegister(x: int)
    requires 0 <= x < 0x10
    ensures Mask(x, 0xF) == x as bv32
    ensures Mask(x, 0xFF) == x as bv32
  {
  }

  lemma MaskImm5(x: int)
    requires 0 <= x < 0x20
    ensures Mask(x, 0x1F) == x as bv32
  {
  }

  lemma MaskImm12(x: int)
    requires 0 <= x < 0x1000
    ensures Mask(x, 0xFFF) == x as bv32
  {
  }

  // ---------------------------------------------------------------------
  // The immediate splitter
  // ---------------------------------------------------------------------

  /** The result of `_encode_imm`: the direction bit U and the magnitude. */
  datatype SplitImm = SplitImm(u: int, magnitude: int)

  /**
   * `_encode_imm`: a signed offset becomes "up" (U = 1) with the offset
   * itself, or "down" (U = 0) with its negation. The magnitude is never
   * negative and the pair gives the offset back.
   */
  function EncodeImm(imm: int): (r: SplitImm)
    ensures r.magnitude >= 0
    ensures r.u == 1 || r.u == 0
    ensures r.u == 1 <==> imm >= 0
    ensures (if r.u == 1 then r.magnitude else -r.magnitude) == imm
  {
    if imm < 0 then SplitImm(0, -imm) else SplitImm(1, imm)
  }

  // ---------------------------------------------------------------------
  // Instruction words, one per encoder of the builder
  // ---------------------------------------------------------------------

  /** The condition field `cond << 28`. */
  function CondBits(cond: Cond): (b: bv32)
    ensures CondOf(b) == cond as bv32
    ensures b & 0x0FFF_FFFF == 0
  {
    (cond as bv32) << 28
  }

  /** `LDR_ri`: load word, immediate offset, with P = 1 and W = 0 fixed. */
  function LdrWord(rt: int, rn: int, imm: int, cond: Cond): (w: bv32)
    ensures CondOf(w) == cond as bv32
  {
    var p, wbit := 1, 0;
    var split := EncodeImm(imm);
    CondBits(cond)
      | (ONE << 26)
      | (Mask(p, 0x1) << 24)
      | (Mask(split.u, 0x1) << 23)
      | (Mask(wbit, 0x1) << 21)
      | (ONE << 20)
      | (Mask(rn, 0xF) << 16)
      | (Mask(rt, 0xF) << 12)
      | Mask(split.magnitude, 0xFFF)
  }

  /** `STR_ri`: store word, immediate offset, with P = 1 and W = 0 fixed. */
  function StrWord(rt: int, rn: int, imm: int, cond: Cond): (w: bv32)
    ensures CondOf(w) == cond as bv32
  {
    var p, wbit := 1, 0;
    var split := EncodeImm(imm);
    CondBits(cond)
      | (ONE << 26)
      | (Mask(p, 0x1) << 24)
      | (Mask(split.u, 0x1) << 23)
      | (Mask(wbit, 0x1) << 21)
      | (Mask(rn, 0xF) << 16)
      | (Mask(rt, 0xF) << 12)
      | Mask(split.magnitude, 0xFFF)
  }

  /** `ADD_ri`: add immediate, S = 0, the immediate taken raw. */
  function AddWord(rt: int, rn: int, imm: int, cond: Cond): (w: bv32)
    ensures CondOf(w) == cond as bv32
  {
    CondBits(cond)
      | ((2 as bv32) << 24)
      | ((8 as bv32) << 20)
      | (Mask(rn, 0xF) << 16)
      | (Mask(rt, 0xF) << 12)
      | Mask(imm, 0xFFF)
  }

  /** `SUB_ri`: subtract immediate, optionally setting the flags. */
  function SubWord(rd: int, rn: int, imm: int, cond: Cond, s: int): (w: bv32)
    ensures CondOf(w) == cond as bv32
  {
    CondBits(cond)
      | ((9 as bv32) << 22)
      | (Mask(s, 0x1) << 20)
      | (Mask(rn, 0xF) << 16)
      | (Mask(rd, 0xF) << 12)
      | Mask(imm, 0xFFF)
  }

  /** `MOV_rr`: register move; both registers are masked with 0xFF. */
  function MovRrWord(rd: int, rm: int, cond: Cond, s: int): (w: bv32)
    ensures CondOf(w) == cond as bv32
  {
    CondBits(cond)
      | ((0xD as bv32) << 21)
      | (Mask(s, 0x1) << 20)
      | (Mask(rd, 0xFF) << 12)
      | Mask(rm, 0xFF)
  }

  /** `MOV_ri`: move immediate, S = 0, bits 19..16 left zero. */
  function MovRiWord(rt: int, imm: int, cond: Cond): (w: bv32)
    ensures CondOf(w) == cond as bv32
  {
    CondBits(cond)
      | ((3 as bv32) << 24)
      | ((0xA as bv32) << 20)
      | (Mask(rt, 0xF) << 12)
      | Mask(imm, 0xFFF)
  }

  /** `ASR_ri`: arithmetic shift right by an immediate, a MOV whose operand is shifted by ASR. */
  function AsrWord(rd: int, rm: int, imm: int, cond: Cond, s: int): (w: bv32)
    ensures CondOf(w) == cond as bv32
  {
    CondBits(cond)
      | ((0xD as bv32) << 21)
      | (Mask(s, 0x1) << 20)
      | (Mask(rd, 0xF) << 12)
      | (Mask(imm, 0x1F) << 7)
      | ((4 as bv32) << 4)
      | Mask(rm, 0xF)
  }

  /** `ORR_rr`: OR with a shifted register; the registers are masked with 0xFF. */
  function OrrWord(rd: int, rn: int, rm: int, imm: int, cond: Cond, s: int, shiftType: int): (w: bv32)
    ensures CondOf(w) == cond as bv32
  {
    CondBits(cond)
      | ((3 as bv32) << 23)
      | (Mask(s, 0x1) << 20)
      | (Mask(rn, 0xFF) << 16)
      | (Mask(rd, 0xFF) << 12)
      | (Mask(imm, 0x1F) << 7)
      | (Mask(shiftType, 0x3) << 5)
      | Mask(rm, 0xFF)
  }

  /** The word `PUSH` starts from: `cond << 28 | 0x92D << 16`. */
  function PushTemplate(cond: Cond): (t: bv32)
    ensures CondOf(t) == cond as bv32
    ensures (t >> 16) & 0xFFF == 0x92D
    ensures t & 0xFFFF == 0
  {
    CondBits(cond) | ((0x92D as bv32) << 16)
  }

  /**
   * `0x1 << reg`, as far as it reaches the emitted word: a register index
   * of 32 or more sets a bit above bit 31, which `write32` never stores.
   */
  function RegBit(reg: nat): (b: bv32)
    ensures reg < 32 ==> b >> (reg as bv8) == 1
    ensures reg >= 32 ==> b == 0
  {
    if reg < 32 then ONE << (reg as bv8) else 0
  }

  /** The OR of a sequence of words, taken left to right. */
  function OrAll(words: seq<bv32>): bv32 {
    if words == [] then 0 else OrAll(words[..|words| - 1]) | words[|words| - 1]
  }

  /** The bit `0x1 << reg` of each register of a PUSH list, in list order. */
  function RegBits(regs: seq<nat>): (bits: seq<bv32>)
    ensures |bits| == |regs|
  {
    seq(|regs|, k requires 0 <= k < |regs| => RegBit(regs[k]))
  }

  /** The bits `PUSH` ORs into its template, one register after the other. */
  function RegisterMask(regs: seq<nat>): (m: bv32)
    ensures forall k :: 0 <= k < |regs| ==> RegBit(regs[k]) | m == m
  {
    assert forall k :: 0 <= k < |regs| ==> RegBit(regs[k]) | OrAll(RegBits(regs)) == OrAll(RegBits(regs)) by {
      forall k | 0 <= k < |regs|
        ensures RegBit(regs[k]) | OrAll(RegBits(regs)) == OrAll(RegBits(regs))
      {
        assert RegBits(regs)[k] == RegBit(regs[k]);
        OrAllMember(RegBits(regs), RegBit(regs[k]));
      }
    }
    OrAll(RegBits(regs))
  }

  /** The word `PUSH(regs, cond)` emits. */
  function PushWord(regs: seq<nat>, cond: Cond): (w: bv32)
    ensures w & 0xFFFF == RegisterMask(regs) & 0xFFFF
  {
    PushTemplate(cond) | RegisterMask(regs)
  }

  // ---------------------------------------------------------------------
  // Decoders, after the encoding tables of the architecture manual
  // ---------------------------------------------------------------------

  /** Bit `k` of `w`, for a bit position given as a shift amount. */
  predicate BitAt(w: bv32, k: bv8)
    requires k < 32
  {
    ((w >> k) & 1) == 1
  }

  /** Bit `i` of `w`. */
  predicate Bit(w: bv32, i: nat)
    requires i < 32
  {
    BitAt(w, i as bv8)
  }

  /** Bits 31..28. */
  function CondOf(w: bv32): bv32 {
    w >> 28
  }

  /** The fields of a load/store word with an immediate offset (A5.3). */
  datatype LoadStoreImm = LoadStoreImm(
    cond: bv32, op: bv32, p: bv32, u: bv32, b: bv32, w: bv32, l: bv32, rn: bv32, rt: bv32, imm12: bv32)

  function DecodeLoadStore(w: bv32): LoadStoreImm {
    LoadStoreImm(
      CondOf(w),
      (w >> 25) & 0x7,
      (w >> 24) & 0x1,
      (w >> 23) & 0x1,
      (w >> 22) & 0x1,
      (w >> 21) & 0x1,
      (w >> 20) & 0x1,
      (w >> 16) & 0xF,
      (w >> 12) & 0xF,
      w & 0xFFF)
  }

  /** The fields common to all data-processing words (A5.2). */
  datatype DataProcessing = DataProcessing(
    cond: bv32, op: bv32, i: bv32, opcode: bv32, s: bv32, rn: bv32, rd: bv32, operand2: bv32)

  function DecodeDataProcessing(w: bv32): DataProcessing {
    DataProcessing(
      CondOf(w),
      (w >> 26) & 0x3,
      (w >> 25) & 0x1,
      (w >> 21) & 0xF,
      (w >> 20) & 0x1,
      (w >> 16) & 0xF,
      (w >> 12) & 0xF,
      w & 0xFFF)
  }

  /** The shifted-register operand of a data-processing word in register form. */
  datatype ShiftedRegister = ShiftedRegister(imm5: bv32, shiftType: bv32, bit4: bv32, rm: bv32)

  function DecodeShiftedRegister(w: bv32): ShiftedRegister {
    ShiftedRegister((w >> 7) & 0x1F, (w >> 5) & 0x3, (w >> 4) & 0x1, w & 0xF)
  }

  /** The fields of PUSH, encoding A1 (STMDB SP! with a register list). */
  datatype PushMultiple = PushMultiple(cond: bv32, fixed: bv32, registerList: bv32)

  function DecodePush(w: bv32): PushMultiple {
    PushMultiple(CondOf(w), (w >> 16) & 0xFFF, w & 0xFFFF)
  }

  // ---------------------------------------------------------------------
  // Every encoder except PUSH puts the condition in bits 31..28
  // ---------------------------------------------------------------------

  lemma ConditionField(rt: int, rn: int, rm: int, imm: int, cond: Cond, s: int, shiftType: int)
    ensures CondOf(LdrWord(rt, rn, imm, cond)) == cond as bv32
    ensures CondOf(StrWord(rt, rn, imm, cond)) == cond as bv32
    ensures CondOf(AddWord(rt, rn, imm, cond)) == cond as bv32
    ensures CondOf(SubWord(rt, rn, imm, cond, s)) == cond as bv32
    ensures CondOf(MovRrWord(rt, rm, cond, s)) == cond as bv32
    ensures CondOf(MovRiWord(rt, imm, cond)) == cond as bv32
    ensures CondOf(AsrWord(rt, rm, imm, cond, s)) == cond as bv32
    ensures CondOf(OrrWord(rt, rn, rm, imm, cond, s, shiftType)) == cond as bv32
  {
  }

  // ---------------------------------------------------------------------
  // Load and store
  // ---------------------------------------------------------------------

  /** What an LDR word holds, for any operands: the masked operands in the A5.3 fields. */
  lemma LdrFields(rt: int, rn: int, imm: int, cond: Cond)
    ensures var split := EncodeImm(imm);
      DecodeLoadStore(LdrWord(rt, rn, imm, cond)) ==
      LoadStoreImm(cond as bv32, 0x2, 1, Mask(split.u, 0x1), 0, 0, 1,
                   Mask(rn, 0xF), Mask(rt, 0xF), Mask(split.magnitude, 0xFFF))
  {
  }

  /** With operands that fit, decoding an LDR word gives the operands back. */
  lemma LdrRoundTrip(rt: int, rn: int, imm: int, cond: Cond)
    requires 0 <= rt < 16 && 0 <= rn < 16 && -0x1000 < imm < 0x1000
    ensures DecodeLoadStore(LdrWord(rt, rn, imm, cond)) ==
      LoadStoreImm(cond as bv32, 0x2, 1, if imm >= 0 then 1 else 0, 0, 0, 1,
                   rn as bv32, rt as bv32, (if imm >= 0 then imm else -imm) as bv32)
  {
    var split := EncodeImm(imm);
    assert Mask(split.u, 0x1) == if imm >= 0 then 1 else 0 by {
      MaskBit(split.u);
    }
    assert Mask(split.magnitude, 0xFFF) == (if imm >= 0 then imm else -imm) as bv32 by {
      MaskImm12(split.magnitude);
    }
    assert Mask(rn, 0xF) == rn as bv32 by {
      MaskRegister(rn);
    }
    assert Mask(rt, 0xF) == rt as bv32 by {
      MaskRegister(rt);
    }
    LdrFields(rt, rn, imm, cond);
  }

  /** An STR word is the LDR word for the same operands without the load bit. */
  lemma StrIsLdrWithoutLoadBit(rt: int, rn: int, imm: int, cond: Cond)
    ensures StrWord(rt, rn, imm, cond) == LdrWord(rt, rn, imm, cond) & !LOAD_BIT
    ensures LdrWord(rt, rn, imm, cond) == StrWord(rt, rn, imm, cond) | LOAD_BIT
  {
  }

  /** With operands that fit, decoding an STR word gives the operands back. */
  lemma StrRoundTrip(rt: int, rn: int, imm: int, cond: Cond)
    requires 0 <= rt < 16 && 0 <= rn < 16 && -0x1000 < imm < 0x1000
    ensures DecodeLoadStore(StrWord(rt, rn, imm, cond)) ==
      LoadStoreImm(cond as bv32, 0x2, 1, if imm >= 0 then 1 else 0, 0, 0, 0,
                   rn as bv32, rt as bv32, (if imm >= 0 then imm else -imm) as bv32)
  {
    LdrRoundTrip(rt, rn, imm, cond);
    StrIsLdrWithoutLoadBit(rt, rn, imm, cond);
  }

  // ---------------------------------------------------------------------
  // Data processing
  // ---------------------------------------------------------------------

  /** ADD_ri: opcode ADD with I = 1 and S = 0, `imm & 0xFFF` raw in bits 11..0. */
  lemma AddFields(rt: int, rn: int, imm: int, cond: Cond)
    ensures DecodeDataProcessing(AddWord(rt, rn, imm, cond)) ==
      DataProcessing(cond as bv32, 0, 1, OPC_ADD, 0, Mask(rn, 0xF), Mask(rt, 0xF), Mask(imm, 0xFFF))
  {
  }

  /** SUB_ri: opcode SUB with I = 1, `s & 1` in bit 20, `imm & 0xFFF` raw in bits 11..0. */
  lemma SubFields(rd: int, rn: int, imm: int, cond: Cond, s: int)
    ensures DecodeDataProcessing(SubWord(rd, rn, imm, cond, s)) ==
      DataProcessing(cond as bv32, 0, 1, OPC_SUB, Mask(s, 0x1), Mask(rn, 0xF), Mask(rd, 0xF), Mask(imm, 0xFFF))
  {
  }

  /** MOV_ri: opcode MOV with I = 1 and S = 0, bits 19..16 zero. */
  lemma MovRiFields(rt: int, imm: int, cond: Cond)
    ensures DecodeDataProcessing(MovRiWord(rt, imm, cond)) ==
      DataProcessing(cond as bv32, 0, 1, OPC_MOV, 0, 0, Mask(rt, 0xF), Mask(imm, 0xFFF))
  {
  }

  /**
   * MOV_rr with registers below 16: opcode MOV in register form, bits 19..16
   * and the shift (bits 11..4) zero.
   */
  lemma MovRrRoundTrip(rd: int, rm: int, cond: Cond, s: int)
    requires 0 <= rd < 16 && 0 <= rm < 16
    ensures DecodeDataProcessing(MovRrWord(rd, rm, cond, s)) ==
      DataProcessing(cond as bv32, 0, 0, OPC_MOV, Mask(s, 0x1), 0, rd as bv32, rm as bv32)
    ensures DecodeShiftedRegister(MovRrWord(rd, rm, cond, s)) == ShiftedRegister(0, 0, 0, rm as bv32)
  {
    MaskRegister(rd);
    MaskRegister(rm);
  }

  /**
   * MOV_rr masks with 0xFF, not 0xF: for any destination register the high
   * nibble of `rd & 0xFF` lands in bits 19..16, and the high nibble of
   * `rm & 0xFF` in bits 7..4 (the shift type and bit 4).
   */
  lemma MovRrFields(rd: int, rm: int, cond: Cond, s: int)
    ensures DecodeDataProcessing(MovRrWord(rd, rm, cond, s)) ==
      DataProcessing(cond as bv32, 0, 0, OPC_MOV, Mask(s, 0x1),
                     Mask(rd, 0xFF) >> 4, Mask(rd, 0xFF) & 0xF, Mask(rm, 0xFF))
  {
  }

  /** ASR_ri: a MOV in register form whose operand is `rm` shifted by ASR `imm & 0x1F`. */
  lemma AsrFields(rd: int, rm: int, imm: int, cond: Cond, s: int)
    ensures DecodeDataProcessing(AsrWord(rd, rm, imm, cond, s)) ==
      DataProcessing(cond as bv32, 0, 0, OPC_MOV, Mask(s, 0x1), 0, Mask(rd, 0xF),
                     (Mask(imm, 0x1F) << 7) | (SHIFT_ASR << 5) | Mask(rm, 0xF))
    ensures DecodeShiftedRegister(AsrWord(rd, rm, imm, cond, s)) ==
      ShiftedRegister(Mask(imm, 0x1F), SHIFT_ASR, 0, Mask(rm, 0xF))
  {
  }

  /** ORR_rr with registers below 16: opcode ORR in register form. */
  lemma OrrRoundTrip(rd: int, rn: int, rm: int, imm: int, cond: Cond, s: int, shiftType: int)
    requires 0 <= rd < 16 && 0 <= rn < 16 && 0 <= rm < 16
    ensures DecodeDataProcessing(OrrWord(rd, rn, rm, imm, cond, s, shiftType)) ==
      DataProcessing(cond as bv32, 0, 0, OPC_ORR, Mask(s, 0x1), rn as bv32, rd as bv32,
                     (Mask(imm, 0x1F) << 7) | (Mask(shiftType, 0x3) << 5) | rm as bv32)
    ensures DecodeShiftedRegister(OrrWord(rd, rn, rm, imm, cond, s, shiftType)) ==
      ShiftedRegister(Mask(imm, 0x1F), Mask(shiftType, 0x3), 0, rm as bv32)
  {
    MaskRegister(rd);
    MaskRegister(rn);
    MaskRegister(rm);
  }

  /**
   * ORR_rr masks `rn` with 0xFF: register index 16 in `rn` reaches bit 20,
   * so the word sets the flags although `s` is 0.
   */
  lemma OrrWideRegisterSetsFlags()
    ensures DecodeDataProcessing(OrrWord(0, 16, 0, 0, AL, 0, 0)).s == 1
    ensures DecodeDataProcessing(OrrWord(0, 16, 0, 0, AL, 0, 0)).rn == 0
  {
    assert Mask(16, 0xFF) == 0x10;
    MaskRegister(0);
    MaskBit(0);
    MaskImm5(0);
    MaskShiftType(0);
  }

  // ---------------------------------------------------------------------
  // PUSH
  // ---------------------------------------------------------------------

  lemma OrBitAt(a: bv32, b: bv32, k: bv8)
    requires k < 32
    ensures BitAt(a | b, k) <==> BitAt(a, k) || BitAt(b, k)
  {
  }

  lemma OrBit(a: bv32, b: bv32, i: nat)
    requires i < 32
    ensures Bit(a | b, i) <==> Bit(a, i) || Bit(b, i)
  {
    OrBitAt(a, b, i as bv8);
  }

  /** A shift amount below 32 names its bit position exactly. */
  lemma Bv8Value(k: nat)
    requires k < 32
    ensures (k as bv8) as int == k
  {
  }

  lemma SingleBitAt(j: bv8, k: bv8)
    requires j < 32 && k < 32
    ensures BitAt(ONE << j, k) <==> j == k
  {
  }

  /** `0x1 << reg` has exactly bit `reg` set. */
  lemma RegBitBit(reg: nat, i: nat)
    requires i < 32
    ensures Bit(RegBit(reg), i) <==> reg == i
  {
    if reg < 32 {
      SingleBitAt(reg as bv8, i as bv8);
      Bv8Value(reg);
      Bv8Value(i);
    } else {
      assert !BitAt(0, i as bv8);
    }
  }

  lemma RegBitLow(reg: nat)
    requires reg < 16
    ensures RegBit(reg) & 0xFFFF == RegBit(reg)
  {
    assert (reg as bv8) < 16;
  }

  // OR is idempotent, commutative and associative.

  lemma OrIdem(a: bv32, b: bv32)
    ensures b | (a | b) == a | b
  {
  }

  lemma OrShift(a: bv32, b: bv32, c: bv32)
    ensures b | (a | c) == a | (b | c)
  {
  }

  lemma OrAssoc(a: bv32, b: bv32, c: bv32)
    ensures (a | b) | c == a | (b | c)
  {
  }

  lemma OrComm(a: bv32, b: bv32)
    ensures a | b == b | a
  {
  }

  /** OR-ing in a word already in the sequence changes nothing. */
  lemma {:induction false} OrAllMember(words: seq<bv32>, x: bv32)
    requires x in words
    ensures x | OrAll(words) == OrAll(words)
  {
    var init, last := words[..|words| - 1], words[|words| - 1];
    assert words == init + [last];
    if x == last {
      OrIdem(OrAll(init), last);
    } else {
      assert x in init;
      OrAllMember(init, x);
      OrShift(OrAll(init), x, last);
      OrAssoc(x, OrAll(init), last);
    }
  }

  /** The OR of a sequence absorbs the OR of any sequence whose words it contains. */
  lemma {:induction false} OrAllCovered(small: seq<bv32>, big: seq<bv32>)
    requires forall x :: x in small ==> x in big
    ensures OrAll(small) | OrAll(big) == OrAll(big)
  {
    if small != [] {
      var init, last := small[..|small| - 1], small[|small| - 1];
      assert small == init + [last];
      assert forall x :: x in init ==> x in small;
      OrAllCovered(init, big);
      OrAllMember(big, last);
      OrAssoc(OrAll(init), last, OrAll(big));
    }
  }

  /** Sequences holding the same words have the same OR, whatever the order and repetition. */
  lemma OrAllSameElements(w1: seq<bv32>, w2: seq<bv32>)
    requires forall x :: x in w1 <==> x in w2
    ensures OrAll(w1) == OrAll(w2)
  {
    OrAllCovered(w1, w2);
    OrAllCovered(w2, w1);
    OrComm(OrAll(w1), OrAll(w2));
  }

  /** A bit of an OR is set exactly when it is set in one of the words. */
  lemma {:induction false} OrAllBit(words: seq<bv32>, i: nat)
    requires i < 32
    ensures Bit(OrAll(words), i) <==> exists k :: 0 <= k < |words| && Bit(words[k], i)
  {
    if words == [] {
      assert !BitAt(0, i as bv8);
    } else {
      var init, last := words[..|words| - 1], words[|words| - 1];
      OrAllBit(init, i);
      OrBit(OrAll(init), last, i);
      if Bit(last, i) {
        assert Bit(words[|words| - 1], i);
      }
      if exists k :: 0 <= k < |words| && Bit(words[k], i) {
        var k :| 0 <= k < |words| && Bit(words[k], i);
        if k < |words| - 1 {
          assert init[k] == words[k];
        }
      }
    }
  }

  /** `w` has no bit outside `mask`. */
  predicate Within(w: bv32, mask: bv32) {
    w & mask == w
  }

  lemma OrWithin(a: bv32, b: bv32, mask: bv32)
    requires Within(a, mask) && Within(b, mask)
    ensures Within(a | b, mask)
  {
  }

  /** Words that have no bit outside `mask` keep their OR inside it too. */
  lemma {:induction false} OrAllWithin(words: seq<bv32>, mask: bv32)
    requires forall k :: 0 <= k < |words| ==> Within(words[k], mask)
    ensures Within(OrAll(words), mask)
  {
    if words == [] {
      assert Within(0, mask);
    } else {
      var init, last := words[..|words| - 1], words[|words| - 1];
      assert forall k :: 0 <= k < |init| ==> init[k] == words[k];
      OrAllWithin(init, mask);
      OrWithin(OrAll(init), last, mask);
    }
  }

  /** Appending a register to the list ORs in its bit: one round of PUSH's loop. */
  lemma RegisterMaskSnoc(regs: seq<nat>, reg: nat)
    ensures RegisterMask(regs + [reg]) == RegisterMask(regs) | RegBit(reg)
  {
    assert RegBits(regs + [reg])[..|regs|] == RegBits(regs);
  }

  /** Bit `i` of the mask PUSH builds is set exactly when `i` is in the list. */
  lemma RegisterMaskBits(regs: seq<nat>, i: nat)
    requires i < 32
    ensures Bit(RegisterMask(regs), i) <==> i in regs
  {
    OrAllBit(RegBits(regs), i);
    forall k | 0 <= k < |regs|
      ensures Bit(RegBits(regs)[k], i) <==> regs[k] == i
    {
      RegBitBit(regs[k], i);
    }
  }

  /** Registers below 16 keep the mask in the low 16 bits. */
  lemma RegisterMaskLow(regs: seq<nat>)
    requires forall k :: 0 <= k < |regs| ==> regs[k] < 16
    ensures RegisterMask(regs) & 0xFFFF == RegisterMask(regs)
  {
    forall k | 0 <= k < |regs|
      ensures Within(RegBits(regs)[k], 0xFFFF)
    {
      RegBitLow(regs[k]);
    }
    OrAllWithin(RegBits(regs), 0xFFFF);
  }

  /** Registers below 28 keep the mask out of the condition field. */
  lemma RegisterMaskBelowCond(regs: seq<nat>)
    requires forall k :: 0 <= k < |regs| ==> regs[k] < 28
    ensures RegisterMask(regs) & 0x0FFF_FFFF == RegisterMask(regs)
  {
    forall k | 0 <= k < |regs|
      ensures Within(RegBits(regs)[k], 0x0FFF_FFFF)
    {
      assert (regs[k] as bv8) < 28;
    }
    OrAllWithin(RegBits(regs), 0x0FFF_FFFF);
  }

  /** The bits of the registers of one list are among the bits of any list holding them all. */
  lemma RegBitsCovered(regs1: seq<nat>, regs2: seq<nat>)
    requires forall r :: r in regs1 ==> r in regs2
    ensures forall x :: x in RegBits(regs1) ==> x in RegBits(regs2)
  {
    var b1, b2 := RegBits(regs1), RegBits(regs2);
    forall x | x in b1
      ensures x in b2
    {
      var k :| 0 <= k < |b1| && b1[k] == x;
      assert regs1[k] in regs2;
      var j :| 0 <= j < |regs2| && regs2[j] == regs1[k];
      assert b2[j] == x;
    }
  }

  /** Reordering or repeating registers does not change the PUSH word. */
  lemma PushOrderIrrelevant(regs1: seq<nat>, regs2: seq<nat>, cond: Cond)
    requires forall r :: r in regs1 <==> r in regs2
    ensures PushWord(regs1, cond) == PushWord(regs2, cond)
  {
    RegBitsCovered(regs1, regs2);
    RegBitsCovered(regs2, regs1);
    OrAllSameElements(RegBits(regs1), RegBits(regs2));
  }

  /**
   * PUSH with registers below 16: the condition, 0x92D in bits 27..16, and
   * bit `i` of the register list set exactly when register `i` is listed.
   */
  lemma PushFields(regs: seq<nat>, cond: Cond, i: nat)
    requires forall k :: 0 <= k < |regs| ==> regs[k] < 16
    requires i < 16
    ensures DecodePush(PushWord(regs, cond)) == PushMultiple(cond as bv32, 0x92D, RegisterMask(regs))
    ensures Bit(DecodePush(PushWord(regs, cond)).registerList, i) <==> i in regs
  {
    RegisterMaskLow(regs);
    RegisterMaskBits(regs, i);
  }

  /** PUSH keeps `cond` in bits 31..28 as long as no listed register reaches 28. */
  lemma PushCondition(regs: seq<nat>, cond: Cond)
    requires forall k :: 0 <= k < |regs| ==> regs[k] < 28
    ensures CondOf(PushWord(regs, cond)) == cond as bv32
  {
    RegisterMaskBelowCond(regs);
  }

  /**
   * PUSH does not mask its registers: `0x1 << 28` lands in the condition
   * field, so pushing register 28 under AL gives condition 0xF.
   */
  lemma PushHighRegisterSetsCondition()
    ensures CondOf(PushWord([28], AL)) == 0xF
  {
    assert RegBits([]) == [];
    RegisterMaskSnoc([], 28);
    assert [] + [28] == [28];
  }

  // ---------------------------------------------------------------------
  // Worked words
  // ---------------------------------------------------------------------

  // Three words computed from the layouts.

  /** `mov r0, #5` */
  lemma SampleMovRi()
    ensures MovRiWord(0, 5, AL) == 0xE3A0_0005
  {
    MaskRegister(0);
    MaskImm12(5);
  }

  /** `add r1, r0, #4` */
  lemma SampleAdd()
    ensures AddWord(1, 0, 4, AL) == 0xE280_1004
  {
    MaskRegister(1);
    MaskRegister(0);
    MaskImm12(4);
  }

  /** `push {r4, r5, r6}` */
  lemma SamplePush()
    ensures PushWord([4, 5, 6], AL) == 0xE92D_0070
  {
    assert RegBits([]) == [];
    RegisterMaskSnoc([], 4);
    assert [] + [4] == [4];
    RegisterMaskSnoc([4], 5);
    assert [4] + [5] == [4, 5];
    RegisterMaskSnoc([4, 5], 6);
    assert [4, 5] + [6] == [4, 5, 6];
    assert RegBit(4) == 0x10 && RegBit(5) == 0x20 && RegBit(6) == 0x40;
  }
}
