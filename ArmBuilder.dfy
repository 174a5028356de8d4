/**
 * The code buffer of the ARMv7 builder (pypy/jit/backend/arm/codebuilder.py):
 * a fixed block of 1024 bytes and a write cursor. Every encoder computes its
 * word (module ArmEncoding) and hands it to `write32`, which stores it as
 * four little-endian bytes at the cursor.
 */
module ArmBuilder {
  import opened ArmEncoding

  /** The size of the block `__init__` allocates. */
  const DATA_SIZE: nat := 1024

  /**
   * The four bytes `write32` stores for a word: `word & 0xFF`, then
   * `(word >> 8) & 0xFF`, `(word >> 16) & 0xFF` and `(word >> 24) & 0xFF`.
   */
  function LeBytes(word: bv32): (bytes: seq<bv8>)
    ensures |bytes| == 4
    ensures LeWord(bytes) == word
  {
    [(word & 0xFF) as bv8, ((word >> 8) & 0xFF) as bv8, ((word >> 16) & 0xFF) as bv8, ((word >> 24) & 0xFF) as bv8]
  }

  /** The word four little-endian bytes hold. */
  function LeWord(bytes: seq<bv8>): bv32
    requires |bytes| == 4
  {
    (bytes[0] as bv32) | ((bytes[1] as bv32) << 8) | ((bytes[2] as bv32) << 16) | ((bytes[3] as bv32) << 24)
  }

  /** Reading the four stored bytes back gives the word that was written. */
  lemma LeWordOfLeBytes(word: bv32)
    ensures LeWord(LeBytes(word)) == word
  {
  }

  // Each byte of a packed word comes back out at its own offset.

  lemma Byte0(b0: bv8, b1: bv8, b2: bv8, b3: bv8)
    ensures LeWord([b0, b1, b2, b3]) & 0xFF == b0 as bv32
  {
  }

  lemma Byte1(b0: bv8, b1: bv8, b2: bv8, b3: bv8)
    ensures (LeWord([b0, b1, b2, b3]) >> 8) & 0xFF == b1 as bv32
  {
  }

  lemma Byte2(b0: bv8, b1: bv8, b2: bv8, b3: bv8)
    ensures (LeWord([b0, b1, b2, b3]) >> 16) & 0xFF == b2 as bv32
  {
  }

  lemma Byte3(b0: bv8, b1: bv8, b2: bv8, b3: bv8)
    ensures (LeWord([b0, b1, b2, b3]) >> 24) & 0xFF == b3 as bv32
  {
  }

  /** Every group of four bytes is the image of exactly one word. */
  lemma LeBytesOfLeWord(bytes: seq<bv8>)
    requires |bytes| == 4
    ensures LeBytes(LeWord(bytes)) == bytes
  {
    var b0, b1, b2, b3 := bytes[0], bytes[1], bytes[2], bytes[3];
    assert bytes == [b0, b1, b2, b3];
    Byte0(b0, b1, b2, b3);
    Byte1(b0, b1, b2, b3);
    Byte2(b0, b1, b2, b3);
    Byte3(b0, b1, b2, b3);
  }

  /**
   * Memory `mem` with `bytes` written from offset `at` on: those bytes are
   * in place and every other byte is as before.
   */
  function Patched(mem: seq<bv8>, at: nat, bytes: seq<bv8>): (r: seq<bv8>)
    requires at + |bytes| <= |mem|
    ensures |r| == |mem|
    ensures r[at..at + |bytes|] == bytes
    ensures forall k :: 0 <= k < |mem| && !(at <= k < at + |bytes|) ==> r[k] == mem[k]
  {
    mem[..at] + bytes + mem[at + |bytes|..]
  }

  /** Two writes one after the other are one write of both byte strings. */
  lemma PatchedTwice(mem: seq<bv8>, at: nat, b1: seq<bv8>, b2: seq<bv8>)
    requires at + |b1| + |b2| <= |mem|
    ensures Patched(Patched(mem, at, b1), at + |b1|, b2) == Patched(mem, at, b1 + b2)
  {
    var lhs, rhs := Patched(Patched(mem, at, b1), at + |b1|, b2), Patched(mem, at, b1 + b2);
    forall k | 0 <= k < |mem|
      ensures lhs[k] == rhs[k]
    {
      if at <= k < at + |b1| {
        assert lhs[k] == Patched(mem, at, b1)[at..at + |b1|][k - at];
        assert rhs[k] == rhs[at..at + |b1| + |b2|][k - at];
      } else if at + |b1| <= k < at + |b1| + |b2| {
        assert lhs[k] == lhs[at + |b1|..at + |b1| + |b2|][k - at - |b1|];
        assert rhs[k] == rhs[at..at + |b1| + |b2|][k - at];
      }
    }
  }

  /** The word stored at `at` reads back from the patched memory. */
  lemma PatchedReadBack(mem: seq<bv8>, at: nat, word: bv32)
    requires at + 4 <= |mem|
    ensures LeWord(Patched(mem, at, LeBytes(word))[at..at + 4]) == word
  {
    LeWordOfLeBytes(word);
  }

  /** Four single-byte stores from `at` on are one patch with the four bytes. */
  lemma FourStores(mem: seq<bv8>, at: nat, bytes: seq<bv8>)
    requires |bytes| == 4 && at + 4 <= |mem|
    ensures mem[at := bytes[0]][at + 1 := bytes[1]][at + 2 := bytes[2]][at + 3 := bytes[3]] == Patched(mem, at, bytes)
  {
    var lhs := mem[at := bytes[0]][at + 1 := bytes[1]][at + 2 := bytes[2]][at + 3 := bytes[3]];
    var rhs := Patched(mem, at, bytes);
    forall k | 0 <= k < |mem|
      ensures lhs[k] == rhs[k]
    {
      if at <= k < at + 4 {
        assert rhs[k] == rhs[at..at + 4][k - at];
      }
    }
  }

  /** The emitted prefix grows by exactly the written bytes when writing at its end. */
  lemma PatchedAppends(mem: seq<bv8>, at: nat, bytes: seq<bv8>)
    requires at + |bytes| <= |mem|
    ensures Patched(mem, at, bytes)[..at + |bytes|] == mem[..at] + bytes
  {
    var r := Patched(mem, at, bytes);
    assert r[..at + |bytes|] == r[..at] + r[at..at + |bytes|];
  }

  /** `ARMv7Builder`: the code block and the position of the next byte. */
  class ARMv7Builder {
    /** `_data`: allocated once in `__init__` and never reassigned. */
    const data: array<bv8>
    /** `_pos`: the offset of the next byte to write. */
    var pos: nat

    ghost predicate Valid()
      reads this
    {
      data.Length == DATA_SIZE && pos <= DATA_SIZE
    }

    /** The bytes written so far. */
    ghost function Emitted(): seq<bv8>
      reads this, data
      requires Valid()
    {
      data[..pos]
    }

    /** `__init__`: a fresh 1024-byte block, nothing written yet. */
    constructor ()
      ensures Valid() && fresh(data)
      ensures pos == 0 && Emitted() == []
    {
      data := new bv8[DATA_SIZE];
      pos := 0;
    }

    /**
     * `baseaddr`: the address of the block. The block is never replaced, so
     * its identity stands for the address.
     */
    function BaseAddr(): (block: array<bv8>)
      reads this
      requires Valid()
      ensures block.Length == DATA_SIZE
    {
      data
    }

    /** `writechar`: store one byte at the cursor and advance it. */
    method WriteChar(c: bv8)
      requires Valid() && pos < DATA_SIZE
      modifies this, data
      ensures Valid()
      ensures pos == old(pos) + 1
      ensures data[..] == old(data[..])[old(pos) := c]
    {
      data[pos] := c;
      pos := pos + 1;
    }

    /**
     * `write32`: the word as four little-endian bytes at the cursor; the
     * cursor moves by four and nothing else in the block changes.
     */
    method Write32(word: bv32)
      requires Valid() && pos + 4 <= DATA_SIZE
      modifies this, data
      ensures Valid()
      ensures pos == old(pos) + 4
      ensures data[..] == Patched(old(data[..]), old(pos), LeBytes(word))
      ensures Emitted() == old(Emitted()) + LeBytes(word)
      ensures BaseAddr() == old(BaseAddr())
    {
      ghost var mem, at := data[..], pos;
      var bytes := LeBytes(word);
      WriteChar((word & 0xFF) as bv8);
      WriteChar(((word >> 8) & 0xFF) as bv8);
      WriteChar(((word >> 16) & 0xFF) as bv8);
      WriteChar(((word >> 24) & 0xFF) as bv8);
      FourStores(mem, at, bytes);
      PatchedAppends(mem, at, bytes);
      assert mem[..at] == old(Emitted());
    }

    /** `LDR_ri` */
    method LdrRi(rt: int, rn: int, imm: int := 0, cond: Cond := AL)
      requires Valid() && pos + 4 <= DATA_SIZE
      modifies this, data
      ensures Valid() && pos == old(pos) + 4
      ensures data[..] == Patched(old(data[..]), old(pos), LeBytes(LdrWord(rt, rn, imm, cond)))
      ensures Emitted() == old(Emitted()) + LeBytes(LdrWord(rt, rn, imm, cond))
    {
      Write32(LdrWord(rt, rn, imm, cond));
    }

    /** `ADD_ri` */
    method AddRi(rt: int, rn: int, imm: int, cond: Cond := AL)
      requires Valid() && pos + 4 <= DATA_SIZE
      modifies this, data
      ensures Valid() && pos == old(pos) + 4
      ensures data[..] == Patched(old(data[..]), old(pos), LeBytes(AddWord(rt, rn, imm, cond)))
      ensures Emitted() == old(Emitted()) + LeBytes(AddWord(rt, rn, imm, cond))
    {
      Write32(AddWord(rt, rn, imm, cond));
    }

    /** `SUB_ri` */
    method SubRi(rd: int, rn: int, imm: int := 0, cond: Cond := AL, s: int := 0)
      requires Valid() && pos + 4 <= DATA_SIZE
      modifies this, data
      ensures Valid() && pos == old(pos) + 4
      ensures data[..] == Patched(old(data[..]), old(pos), LeBytes(SubWord(rd, rn, imm, cond, s)))
      ensures Emitted() == old(Emitted()) + LeBytes(SubWord(rd, rn, imm, cond, s))
    {
      Write32(SubWord(rd, rn, imm, cond, s));
    }

    /** `MOV_rr` */
    method MovRr(rd: int, rm: int, cond: Cond := AL, s: int := 0)
      requires Valid() && pos + 4 <= DATA_SIZE
      modifies this, data
      ensures Valid() && pos == old(pos) + 4
      ensures data[..] == Patched(old(data[..]), old(pos), LeBytes(MovRrWord(rd, rm, cond, s)))
      ensures Emitted() == old(Emitted()) + LeBytes(MovRrWord(rd, rm, cond, s))
    {
      Write32(MovRrWord(rd, rm, cond, s));
    }

    /** `MOV_ri` */
    method MovRi(rt: int, imm: int := 0, cond: Cond := AL)
      requires Valid() && pos + 4 <= DATA_SIZE
      modifies this, data
      ensures Valid() && pos == old(pos) + 4
      ensures data[..] == Patched(old(data[..]), old(pos), LeBytes(MovRiWord(rt, imm, cond)))
      ensures Emitted() == old(Emitted()) + LeBytes(MovRiWord(rt, imm, cond))
    {
      Write32(MovRiWord(rt, imm, cond));
    }

    /** `STR_ri` */
    method StrRi(rt: int, rn: int, imm: int := 0, cond: Cond := AL)
      requires Valid() && pos + 4 <= DATA_SIZE
      modifies this, data
      ensures Valid() && pos == old(pos) + 4
      ensures data[..] == Patched(old(data[..]), old(pos), LeBytes(StrWord(rt, rn, imm, cond)))
      ensures Emitted() == old(Emitted()) + LeBytes(StrWord(rt, rn, imm, cond))
    {
      Write32(StrWord(rt, rn, imm, cond));
    }

    /** `ASR_ri` */
    method AsrRi(rd: int, rm: int, imm: int := 0, cond: Cond := AL, s: int := 0)
      requires Valid() && pos + 4 <= DATA_SIZE
      modifies this, data
      ensures Valid() && pos == old(pos) + 4
      ensures data[..] == Patched(old(data[..]), old(pos), LeBytes(AsrWord(rd, rm, imm, cond, s)))
      ensures Emitted() == old(Emitted()) + LeBytes(AsrWord(rd, rm, imm, cond, s))
    {
      Write32(AsrWord(rd, rm, imm, cond, s));
    }

    /** `ORR_rr` */
    method OrrRr(rd: int, rn: int, rm: int, imm: int := 0, cond: Cond := AL, s: int := 0, shiftType: int := 0)
      requires Valid() && pos + 4 <= DATA_SIZE
      modifies this, data
      ensures Valid() && pos == old(pos) + 4
      ensures data[..] == Patched(old(data[..]), old(pos), LeBytes(OrrWord(rd, rn, rm, imm, cond, s, shiftType)))
      ensures Emitted() == old(Emitted()) + LeBytes(OrrWord(rd, rn, rm, imm, cond, s, shiftType))
    {
      Write32(OrrWord(rd, rn, rm, imm, cond, s, shiftType));
    }

    /**
     * `PUSH`: start from the template and OR in `0x1 << reg` for each
     * register in turn, then write the word.
     */
    method Push(regs: seq<nat>, cond: Cond := AL)
      requires Valid() && pos + 4 <= DATA_SIZE
      modifies this, data
      ensures Valid() && pos == old(pos) + 4
      ensures data[..] == Patched(old(data[..]), old(pos), LeBytes(PushWord(regs, cond)))
      ensures Emitted() == old(Emitted()) + LeBytes(PushWord(regs, cond))
    {
      var instr := PushTemplate(cond);
      assert RegBits(regs[..0]) == [];
      for i := 0 to |regs|
        invariant Valid() && pos == old(pos) && data[..] == old(data[..])
        invariant instr == PushTemplate(cond) | RegisterMask(regs[..i])
      {
        assert regs[..i + 1] == regs[..i] + [regs[i]];
        RegisterMaskSnoc(regs[..i], regs[i]);
        OrAssoc(PushTemplate(cond), RegisterMask(regs[..i]), RegBit(regs[i]));
        instr := instr | RegBit(regs[i]);
      }
      assert regs[..|regs|] == regs;
      Write32(instr);
    }
  }
}
