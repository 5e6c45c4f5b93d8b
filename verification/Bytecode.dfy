/** The 64-bit instruction slot [ op:8 | a:8 | b:8 | c:8 | aux:32 ] and programs made of slots. */
module Bytecode {
  import opened Words

  const MAX_REGISTER_COUNT := 256

  const LOAD_FIELD: byte := 0
  const LOAD_IMM: byte := 1
  const MOVE: byte := 2
  const CMP_EQ: byte := 3
  const CMP_NE: byte := 4
  const CMP_GT: byte := 5
  const CMP_LT: byte := 6
  const CMP_GE: byte := 7
  const CMP_LE: byte := 8
  const NOT: byte := 9
  const JUMP_IF_FALSE: byte := 10
  const JUMP: byte := 11
  const RET: byte := 12
  const AND: byte := 13
  const OR: byte := 14

  /** One slot, given by its five fields. A slot is exactly a 64-bit word (`FromBitsOfBits`,
      `BitsOfFromBits`), so any word, the data slot of a LoadImm included, is an `Instruction`,
      and its `op` may be any byte. */
  datatype Instruction = Instruction(op: byte, a: byte, b: byte, c: byte, aux: uint32) {
    /** The 64-bit word the fields are packed into. */
    function Bits(): uint64 {
      op + 0x100 * a + 0x1_0000 * b + 0x100_0000 * c + 0x1_0000_0000 * aux
    }

    function AuxI32(): int {
      ToI32(aux)
    }

    function RawWideData(): int64 {
      ToI64(Bits())
    }
  }

  /** The slot holding a given 64-bit word: the field accessors. */
  function FromBits(bits: uint64): Instruction {
    Instruction(bits % 0x100, bits / 0x100 % 0x100, bits / 0x1_0000 % 0x100,
                bits / 0x100_0000 % 0x100, bits / 0x1_0000_0000)
  }

  /** The word of a slot has the opcode in its lowest byte, then the operands, then the payload, and
      the accessors give them back. */
  lemma FromBitsOfBits(i: Instruction)
    ensures FromBits(i.Bits()) == i
    ensures var w := i.Bits();
      && w % 0x100 == i.op && w / 0x100 % 0x100 == i.a && w / 0x1_0000 % 0x100 == i.b
      && w / 0x100_0000 % 0x100 == i.c && w / 0x1_0000_0000 == i.aux
  {
    var w := i.Bits();
    var top3 := i.c + 0x100 * i.aux;
    var top2 := i.b + 0x100 * top3;
    var top1 := i.a + 0x100 * top2;
    QuotientIs(w, 0x100, top1, i.op);
    QuotientIs(w, 0x1_0000, top2, i.op + 0x100 * i.a);
    QuotientIs(w, 0x100_0000, top3, i.op + 0x100 * i.a + 0x1_0000 * i.b);
    QuotientIs(w, 0x1_0000_0000, i.aux, i.op + 0x100 * i.a + 0x1_0000 * i.b + 0x100_0000 * i.c);
    LowDigit(w, top1, i.op);
    LowDigit(top1, top2, i.a);
    LowDigit(top2, top3, i.b);
    LowDigit(top3, i.aux, i.c);
  }

  lemma LowDigit(x: nat, rest: nat, digit: byte)
    requires x == digit + 0x100 * rest
    ensures x % 0x100 == digit
  {
  }

  lemma BitsOfFromBits(bits: uint64)
    ensures FromBits(bits).Bits() == bits
    ensures var i := FromBits(bits);
      i.op + 0x100 * i.a + 0x1_0000 * i.b + 0x100_0000 * i.c + 0x1_0000_0000 * i.aux == bits
  {
    assert bits / 0x1_0000 == bits / 0x100 / 0x100;
    assert bits / 0x100_0000 == bits / 0x1_0000 / 0x100;
    assert bits / 0x1_0000_0000 == bits / 0x100_0000 / 0x100;
  }

  /** The instruction constructor; `aux` is cast to 32 unsigned bits. */
  function Ins(op: byte, a: byte, b: byte, c: byte, aux: int64): Instruction {
    Instruction(op, a, b, c, aux % 0x1_0000_0000)
  }

  /** A 32-bit auxiliary value survives the cast to unsigned and back. */
  lemma AuxRoundTrip(op: byte, a: byte, b: byte, c: byte, aux: int64)
    requires FitsI32(aux)
    ensures Ins(op, a, b, c, aux).AuxI32() == aux
    ensures 0 <= aux ==> Ins(op, a, b, c, aux).aux == aux
  {
    if aux < 0 {
      assert (aux + 0x1_0000_0000) % 0x1_0000_0000 == aux % 0x1_0000_0000;
    }
  }

  function DataSlot(imm: int64): Instruction {
    FromBits(ToU64(imm))
  }

  /** LoadImm takes two slots: the instruction and its raw 64-bit immediate. */
  function MakeLoadImm(dst: byte, imm: int64): seq<Instruction> {
    [Ins(LOAD_IMM, dst, 0, 0, 0), DataSlot(imm)]
  }

  /** The data slot gives back every 64-bit immediate. */
  lemma WideDataRoundTrip(imm: int64)
    ensures DataSlot(imm).RawWideData() == imm
  {
    BitsOfFromBits(ToU64(imm));
  }

  /** The number of slots an instruction with this opcode takes. */
  function Slots(op: byte): nat {
    if op == LOAD_IMM then 2 else 1
  }

  predicate IsJump(op: byte) {
    op == JUMP_IF_FALSE || op == JUMP
  }

  predicate IsCompare(op: byte) {
    CMP_EQ <= op <= CMP_LE
  }

  datatype Program = Program(code: seq<Instruction>, registerCount: int)
}
