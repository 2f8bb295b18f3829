/**
 * The simulator: the instruction word rendered as sixteen binary characters, its fields cut
 * out of that string, the switch on the opcode (read, as the source reads it, as a decimal
 * number spelled with the four opcode bits), the call into the machine, and the loop that
 * runs at most a given number of instructions and stops at HALT.
 *
 * What each instruction does to the machine is specified by Effect over a value snapshot of
 * the machine (State); ParseInstruction is proved to change the machine exactly as Effect says.
 */
module Simulator {
  import opened Wrappers
  import opened JavaText
  import opened JavaBits
  import opened SimMachine
  import MachineOpTable

  const DEFAULT_LOOP_NUM: int := 1000

  // ---------------------------------------------------------------- decoding

  /** One machine instruction with the fields its method takes. */
  datatype Instruction =
    | AddReg(dr: nat, sr1: nat, sr2: nat)
    | AddImm(dr: nat, sr1: nat, imm5: nat)
    | AndReg(dr: nat, sr1: nat, sr2: nat)
    | AndImm(dr: nat, sr1: nat, imm5: nat)
    | Brx(n: nat, z: nat, p: nat, pgoffset: nat)
    | Dbug
    | Jsr(l: nat, pgoffset: nat)
    | Jsrr(l: nat, baseR: nat, index: nat)
    | Ld(dr: nat, pgoffset: nat)
    | Ldi(dr: nat, pgoffset: nat)
    | Ldr(dr: nat, baseR: nat, index: nat)
    | Lea(dr: nat, pgoffset: nat)
    | Not(dr: nat, sr1: nat)
    | Ret
    | St(sr: nat, pgoffset: nat)
    | Sti(sr: nat, pgoffset: nat)
    | Str(sr: nat, baseR: nat, index: nat)
    | Trap(trapVect: nat)

  /** Every field fits its width: registers in 3 bits, flags in 1, offsets in 5, 6, 8 or 9. */
  predicate FieldsFit(i: Instruction)
  {
    match i
    case AddReg(dr, sr1, sr2) => dr < 8 && sr1 < 8 && sr2 < 8
    case AddImm(dr, sr1, imm5) => dr < 8 && sr1 < 8 && imm5 < 32
    case AndReg(dr, sr1, sr2) => dr < 8 && sr1 < 8 && sr2 < 8
    case AndImm(dr, sr1, imm5) => dr < 8 && sr1 < 8 && imm5 < 32
    case Brx(n, z, p, pgoffset) => n < 2 && z < 2 && p < 2 && pgoffset < 512
    case Dbug => true
    case Jsr(l, pgoffset) => l < 2 && pgoffset < 512
    case Jsrr(l, baseR, index) => l < 2 && baseR < 8 && index < 64
    case Ld(dr, pgoffset) => dr < 8 && pgoffset < 512
    case Ldi(dr, pgoffset) => dr < 8 && pgoffset < 512
    case Ldr(dr, baseR, index) => dr < 8 && baseR < 8 && index < 64
    case Lea(dr, pgoffset) => dr < 8 && pgoffset < 512
    case Not(dr, sr1) => dr < 8 && sr1 < 8
    case Ret => true
    case St(sr, pgoffset) => sr < 8 && pgoffset < 512
    case Sti(sr, pgoffset) => sr < 8 && pgoffset < 512
    case Str(sr, baseR, index) => sr < 8 && baseR < 8 && index < 64
    case Trap(trapVect) => trapVect < 256
  }

  /**
   * The instruction a 16-bit word holds, read with arithmetic: opcode in bits 15-12 (the
   * assembler's opcode table), DR or SR in 11-9, SR1 or BaseR in 8-6, SR2 in 2-0, imm5 in
   * 4-0, index in 5-0, pgoffset in 8-0, trap vector in 7-0, n z p or L in 11, 10, 9 or 11,
   * and bit 5 choosing the immediate form of ADD and AND.
   */
  function DecodeWord(u: nat): (r: Instruction)
    requires u < UPPER_LIMIT
    ensures FieldsFit(r)
  {
    var op := u / 4096;
    var dr := (u / 512) % 8;
    var sr1 := (u / 64) % 8;
    var sr2 := u % 8;
    var imm5 := u % 32;
    var pgoffset := u % 512;
    var index := u % 64;
    var immediate := (u / 32) % 2 == 1;
    if op == MachineOpTable.ADD_OPCODE then
      if immediate then AddImm(dr, sr1, imm5) else AddReg(dr, sr1, sr2)
    else if op == MachineOpTable.AND_OPCODE then
      if immediate then AndImm(dr, sr1, imm5) else AndReg(dr, sr1, sr2)
    else if op == MachineOpTable.BRX_OPCODE then
      Brx((u / 2048) % 2, (u / 1024) % 2, (u / 512) % 2, pgoffset)
    else if op == MachineOpTable.DBUG_OPCODE then Dbug
    else if op == MachineOpTable.JSR_OPCODE then Jsr((u / 2048) % 2, pgoffset)
    else if op == MachineOpTable.JSRR_OPCODE then Jsrr((u / 2048) % 2, sr1, index)
    else if op == MachineOpTable.LD_OPCODE then Ld(dr, pgoffset)
    else if op == MachineOpTable.LDI_OPCODE then Ldi(dr, pgoffset)
    else if op == MachineOpTable.LDR_OPCODE then Ldr(dr, sr1, index)
    else if op == MachineOpTable.LEA_OPCODE then Lea(dr, pgoffset)
    else if op == MachineOpTable.NOT_OPCODE then Not(dr, sr1)
    else if op == MachineOpTable.RET_OPCODE then Ret
    else if op == MachineOpTable.ST_OPCODE then St(dr, pgoffset)
    else if op == MachineOpTable.STI_OPCODE then Sti(dr, pgoffset)
    else if op == MachineOpTable.STR_OPCODE then Str(dr, sr1, index)
    else Trap(u % 256)
  }

  /** The opcode the assembler's table gives each kind of instruction. */
  function OpcodeOf(i: Instruction): int
  {
    match i
    case AddReg(_, _, _) => MachineOpTable.ADD_OPCODE
    case AddImm(_, _, _) => MachineOpTable.ADD_OPCODE
    case AndReg(_, _, _) => MachineOpTable.AND_OPCODE
    case AndImm(_, _, _) => MachineOpTable.AND_OPCODE
    case Brx(_, _, _, _) => MachineOpTable.BRX_OPCODE
    case Dbug => MachineOpTable.DBUG_OPCODE
    case Jsr(_, _) => MachineOpTable.JSR_OPCODE
    case Jsrr(_, _, _) => MachineOpTable.JSRR_OPCODE
    case Ld(_, _) => MachineOpTable.LD_OPCODE
    case Ldi(_, _) => MachineOpTable.LDI_OPCODE
    case Ldr(_, _, _) => MachineOpTable.LDR_OPCODE
    case Lea(_, _) => MachineOpTable.LEA_OPCODE
    case Not(_, _) => MachineOpTable.NOT_OPCODE
    case Ret => MachineOpTable.RET_OPCODE
    case St(_, _) => MachineOpTable.ST_OPCODE
    case Sti(_, _) => MachineOpTable.STI_OPCODE
    case Str(_, _, _) => MachineOpTable.STR_OPCODE
    case Trap(_) => MachineOpTable.TRAP_OPCODE
  }

  /** Every word decodes to an instruction of the kind its top four bits name. */
  lemma DecodeWordOpcode(u: nat)
    requires u < UPPER_LIMIT
    ensures OpcodeOf(DecodeWord(u)) == u / 4096
  {
  }

  /** Integer.parseInt(bits.substring(from, to), 2) on binary digits: their value. */
  function Field(bits: string, from: nat, to: nat): nat
    requires AllDigits(bits, 2) && from <= to <= |bits|
  {
    DigitsValue(bits[from..to], 2)
  }

  /**
   * The opcode switch of ParseInstruction: `Short.parseShort(bits.substring(0, 4))` reads the
   * four opcode bits as a decimal number, so the cases are 0, 1, 10, 11, ..., 1111; bit 10 of
   * the string chooses the register form of ADD and AND when it is '0'. None when no case
   * matches (the switch then does nothing).
   */
  function DecodeBits(bits: string): (r: Option<Instruction>)
    requires |bits| == 16 && AllDigits(bits, 2)
  {
    assert AllDigits(bits[..4], 10) by {
      forall i | 0 <= i < 4 ensures IsDigit(bits[..4][i], 10) {
        assert IsDigit(bits[i], 2);
      }
    }
    var code := DigitsValue(bits[..4], 10);
    var dr := Field(bits, 4, 7);
    var sr1 := Field(bits, 7, 10);
    var sr2 := Field(bits, 13, 16);
    var n := Field(bits, 4, 5);
    var z := Field(bits, 5, 6);
    var p := Field(bits, 6, 7);
    var l := Field(bits, 4, 5);
    var imm5 := Field(bits, 11, 16);
    var pgoffset := Field(bits, 7, 16);
    var baseR := Field(bits, 7, 10);
    var index := Field(bits, 10, 16);
    var trapVect := Field(bits, 8, 16);
    if code == 1 then Some(if bits[10] == '0' then AddReg(dr, sr1, sr2) else AddImm(dr, sr1, imm5))
    else if code == 101 then Some(if bits[10] == '0' then AndReg(dr, sr1, sr2) else AndImm(dr, sr1, imm5))
    else if code == 0 then Some(Brx(n, z, p, pgoffset))
    else if code == 1000 then Some(Dbug)
    else if code == 100 then Some(Jsr(l, pgoffset))
    else if code == 1100 then Some(Jsrr(l, baseR, index))
    else if code == 10 then Some(Ld(dr, pgoffset))
    else if code == 1010 then Some(Ldi(dr, pgoffset))
    else if code == 110 then Some(Ldr(dr, baseR, index))
    else if code == 1110 then Some(Lea(dr, pgoffset))
    else if code == 1001 then Some(Not(dr, sr1))
    else if code == 1101 then Some(Ret)
    else if code == 11 then Some(St(dr, pgoffset))
    else if code == 1011 then Some(Sti(dr, pgoffset))
    else if code == 111 then Some(Str(dr, baseR, index))
    else if code == 1111 then Some(Trap(trapVect))
    else None
  }

  /** The decimal number spelled by the w low binary digits of n. */
  function DecimalSpelling(n: nat, w: nat): nat
  {
    if w == 0 then 0 else DecimalSpelling(n / 2, w - 1) * 10 + n % 2
  }

  /** Reading w binary digits of n as a decimal number gives n's decimal spelling. */
  lemma {:induction false} BinaryReadAsDecimal(n: nat, w: nat)
    ensures AllDigits(Digits(n, 2, w), 10)
    ensures DigitsValue(Digits(n, 2, w), 10) == DecimalSpelling(n, w)
  {
    if w > 0 {
      var front := Digits(n / 2, 2, w - 1);
      var c := DigitChar(n % 2);
      assert Digits(n, 2, w) == front + [c];
      BinaryReadAsDecimal(n / 2, w - 1);
      DigitsValueSnoc(front, c, 10);
    }
  }

  /** Pow(2, k) for the field boundaries of an instruction. */
  lemma FieldWeights()
    ensures Pow(2, 0) == 1 && Pow(2, 1) == 2 && Pow(2, 2) == 4 && Pow(2, 3) == 8
    ensures Pow(2, 5) == 32 && Pow(2, 6) == 64 && Pow(2, 8) == 256 && Pow(2, 9) == 512
    ensures Pow(2, 4) == 16 && Pow(2, 10) == 1024 && Pow(2, 11) == 2048 && Pow(2, 12) == 4096
  {
    assert Pow(2, 1) == 2;
    assert Pow(2, 2) == 4;
    assert Pow(2, 3) == 8;
    assert Pow(2, 4) == 16;
    assert Pow(2, 5) == 32;
    assert Pow(2, 6) == 64;
    assert Pow(2, 7) == 128;
    assert Pow(2, 8) == 256;
    assert Pow(2, 9) == 512;
    assert Pow(2, 10) == 1024;
    assert Pow(2, 11) == 2048;
  }

  /** The characters from..to of the sixteen-digit rendering hold bits 15-from .. 16-to. */
  lemma FieldValue(u: nat, from: nat, to: nat)
    requires from <= to <= 16
    ensures Digits(u, 2, 16)[from..to] == Digits(Quot(u, Pow(2, 16 - to)), 2, to - from)
    ensures Field(Digits(u, 2, 16), from, to) == Rem(Quot(u, Pow(2, 16 - to)), Pow(2, to - from))
  {
    var bits := Digits(u, 2, 16);
    var q := Quot(u, Pow(2, 16 - to));
    DigitsSplitAt(u, 2, 16, 16 - to);
    assert bits[..to] == Digits(q, 2, to);
    LastDigits(q, 2, to, to - from);
    assert bits[from..to] == Digits(q, 2, to)[from..];
    DigitsValueOf(q, 2, to - from);
  }

  /** The decimal spellings of the sixteen opcodes: the case labels of the switch. */
  const CASE_LABELS: seq<nat> :=
    [0, 1, 10, 11, 100, 101, 110, 111, 1000, 1001, 1010, 1011, 1100, 1101, 1110, 1111]

  lemma SpellingTable(op: nat)
    requires op < 16
    ensures DecimalSpelling(op, 4) == CASE_LABELS[op]
  {
    var b0, b1, b2, b3 := op % 2, (op / 2) % 2, (op / 4) % 2, op / 8;
    assert DecimalSpelling(op / 8, 1) == b3 by {
      assert DecimalSpelling(op / 8 / 2, 0) == 0;
    }
    assert DecimalSpelling(op / 4, 2) == b3 * 10 + b2 by {
      assert op / 4 / 2 == op / 8;
    }
    assert DecimalSpelling(op / 2, 3) == (b3 * 10 + b2) * 10 + b1 by {
      assert op / 2 / 2 == op / 4;
    }
    assert DecimalSpelling(op, 4) == ((b3 * 10 + b2) * 10 + b1) * 10 + b0;
    LabelDigits(op);
  }

  lemma LabelDigits(op: nat)
    requires op < 16
    ensures (((op / 8) * 10 + (op / 4) % 2) * 10 + (op / 2) % 2) * 10 + op % 2 == CASE_LABELS[op]
  {
    if op < 8 {
      if op < 4 {
        if op < 2 { if op == 0 {} else {} } else { if op == 2 {} else {} }
      } else {
        if op < 6 { if op == 4 {} else {} } else { if op == 6 {} else {} }
      }
    } else {
      if op < 12 {
        if op < 10 { if op == 8 {} else {} } else { if op == 10 {} else {} }
      } else {
        if op < 14 { if op == 12 {} else {} } else { if op == 14 {} else {} }
      }
    }
  }

  /** Every field of the rendering, as bits of the word. */
  lemma FieldsOfWord(u: nat)
    requires u < UPPER_LIMIT
    ensures AllDigits(Digits(u, 2, 16), 2)
    ensures var bits := Digits(u, 2, 16);
      Field(bits, 4, 7) == (u / 512) % 8 && Field(bits, 7, 10) == (u / 64) % 8 &&
      Field(bits, 13, 16) == u % 8 && Field(bits, 4, 5) == (u / 2048) % 2 &&
      Field(bits, 5, 6) == (u / 1024) % 2 && Field(bits, 6, 7) == (u / 512) % 2 &&
      Field(bits, 11, 16) == u % 32 && Field(bits, 7, 16) == u % 512 &&
      Field(bits, 10, 16) == u % 64 && Field(bits, 8, 16) == u % 256 &&
      (bits[10] == '0' <==> (u / 32) % 2 == 0)
  {
    FieldWeights();
    FieldValue(u, 4, 7);
    FieldValue(u, 7, 10);
    FieldValue(u, 13, 16);
    FieldValue(u, 4, 5);
    FieldValue(u, 5, 6);
    FieldValue(u, 6, 7);
    FieldValue(u, 11, 16);
    FieldValue(u, 7, 16);
    FieldValue(u, 10, 16);
    FieldValue(u, 8, 16);
    FieldValue(u, 10, 11);
    var bits := Digits(u, 2, 16);
    assert bits[10..11] == [bits[10]];
    assert Digits(u / 32, 2, 1) == [DigitChar((u / 32) % 2)];
  }

  /** The four opcode characters read in decimal give the case label of the word's opcode. */
  lemma OpcodeLabel(u: nat)
    requires u < UPPER_LIMIT
    ensures AllDigits(Digits(u, 2, 16)[..4], 10)
    ensures DigitsValue(Digits(u, 2, 16)[..4], 10) == CASE_LABELS[u / 4096]
  {
    FieldWeights();
    FieldValue(u, 0, 4);
    var bits := Digits(u, 2, 16);
    assert bits[..4] == bits[0..4];
    BinaryReadAsDecimal(u / 4096, 4);
    SpellingTable(u / 4096);
  }

  /**
   * The string decoder of ParseInstruction agrees with the arithmetic one on every word: each
   * of the sixteen opcodes reaches its own case, and the fields are the bits of the word.
   */
  lemma DecodeAgrees(u: nat)
    requires u < UPPER_LIMIT
    ensures AllDigits(Digits(u, 2, 16), 2)
    ensures DecodeBits(Digits(u, 2, 16)) == Some(DecodeWord(u))
  {
    FieldsOfWord(u);
    OpcodeLabel(u);
  }

  // ---------------------------------------------------------------- the instruction string

  /**
   * addLeadingZeros: prepends '0' while the string is shorter than sixteen characters; the
   * result is the string padded with zeros to sixteen.
   */
  method AddLeadingZeros(s: string) returns (r: string)
    ensures r == PadZeros(s, 16)
    ensures |s| <= 16 ==> |r| == 16 && r[16 - |s|..] == s
  {
    r := s;
    while |r| < 16
      invariant PadZeros(r, 16) == PadZeros(s, 16)
      invariant |s| <= |r| && r[|r| - |s|..] == s
      decreases 16 - |r|
    {
      assert PadZeros(r, 16) == PadZeros("0" + r, 16);
      assert ("0" + r)[|r| + 1 - |s|..] == r[|r| - |s|..];
      r := "0" + r;
    }
  }

  /**
   * The rendering ParseInstruction builds: Integer.toBinaryString of the sign-extended short
   * (32 characters when it is negative), its characters from index 16 on when it is longer
   * than sixteen, padded with zeros: the sixteen binary digits of the word.
   */
  lemma RenderedWord(x: Short)
    ensures var t := ToBinaryString(x);
      PadZeros(if |t| > 16 then t[16..] else t, 16) == Digits(ToUnsigned(x), 2, 16)
  {
    if x >= 0 {
      RenderedNonNegative(x);
    } else {
      RenderedNegative(x);
    }
  }

  /** A non-negative short has at most fifteen binary digits, padded to sixteen. */
  lemma RenderedNonNegative(x: nat)
    requires x < 0x8000
    ensures |ToBinaryString(x)| <= 16
    ensures PadZeros(ToBinaryString(x), 16) == Digits(x, 2, 16)
  {
    var w: nat := 16;
    assert x < Pow(2, w) by { TwoTo16(); }
    NumDigitsBound(x, 2, w);
    PaddedBinary(x, w);
  }

  /** A negative short renders as 32 digits whose last sixteen are its unsigned value. */
  lemma RenderedNegative(x: int)
    requires -0x8000 <= x < 0
    ensures |ToBinaryString(x)| == 32
    ensures ToBinaryString(x)[16..] == Digits(x + UPPER_LIMIT, 2, 16)
  {
    var u := Unsigned32(x);
    var t := ToBinaryString(x);
    assert t == Digits(u, 2, NumDigits(u, 2));
    assert Pow(2, 31) <= u < Pow(2, 32) by { TwoTo31And32(); }
    assert NumDigits(u, 2) == 32 by {
      NumDigitsBound(u, 2, 32);
      NumDigitsBound(u, 2, 31);
    }
    assert t[16..] == Digits(u, 2, 16) by {
      LastDigits(u, 2, 32, 16);
    }
    assert Digits(u, 2, 16) == Digits(Rem(u, Pow(2, 16)), 2, 16) by {
      DigitsMod(u, 2, 16);
    }
    assert Rem(u, Pow(2, 16)) == x + UPPER_LIMIT by {
      TwoTo16();
      assert u == 0x10000 * 0xFFFF + (x + UPPER_LIMIT);
      DivModUnique(u, 0x10000, 0xFFFF, x + UPPER_LIMIT);
    }
  }

  /** ParseInstruction's first three statements: the word as sixteen binary characters. */
  method InstructionString(instruction: Short) returns (bits: string)
    ensures bits == Digits(ToUnsigned(instruction), 2, 16)
  {
    var s := ToBinaryString(instruction);
    if |s| > 16 {
      s := s[16..];
    }
    bits := AddLeadingZeros(s);
    RenderedWord(instruction);
  }

  // ---------------------------------------------------------------- what an instruction does

  /** The machine as values: PC, previous PC, N Z P, R0-R7, and memory by 16-bit address. */
  datatype State = State(pc: int, prevPc: int, ccr: seq<bool>, regs: seq<Short>, mem: seq<Short>)

  predicate WellFormed(s: State)
  {
    0 <= s.pc < UPPER_LIMIT && 0 <= s.prevPc < UPPER_LIMIT &&
    |s.ccr| == CCR_SIZE && |s.regs| == REGISTER_SIZE && |s.mem| == UPPER_LIMIT
  }

  /** DR := v and the flags from v. */
  function SetResult(s: State, dr: nat, v: Short): State
    requires WellFormed(s) && dr < REGISTER_SIZE
  {
    s.(regs := s.regs[dr := v], ccr := Flags(v))
  }

  /** R7 := (short) PC when L is 1. */
  function SaveIf(s: State, l: nat): seq<Short>
    requires WellFormed(s)
  {
    if l == 1 then s.regs[7 := ToShort(s.pc)] else s.regs
  }

  /**
   * The state after one instruction, from the machine's instruction methods; input is the
   * value TRAP IN, INN or RND obtains from the console or the random source.
   */
  function Effect(s: State, i: Instruction, input: Short): (r: State)
    requires WellFormed(s) && FieldsFit(i)
    ensures WellFormed(r) && r.prevPc == s.prevPc
  {
    match i
    case AddReg(dr, sr1, sr2) => SetResult(s, dr, ToShort(s.regs[sr1] as int + s.regs[sr2] as int))
    case AddImm(dr, sr1, imm5) => SetResult(s, dr, ToShort(s.regs[sr1] as int + SignExtend(imm5) as int))
    case AndReg(dr, sr1, sr2) => SetResult(s, dr, AndShort(s.regs[sr1], s.regs[sr2]))
    case AndImm(dr, sr1, imm5) => SetResult(s, dr, AndShort(s.regs[sr1], SignExtend(imm5)))
    case Brx(n, z, p, pgoffset) =>
      if (n == 1 && s.ccr[0]) || (z == 1 && s.ccr[1]) || (p == 1 && s.ccr[2])
      then s.(pc := AddressPC(s.pc, pgoffset)) else s
    case Dbug => s
    case Jsr(l, pgoffset) => s.(pc := AddressPC(s.pc, pgoffset), regs := SaveIf(s, l))
    case Jsrr(l, baseR, index) => s.(pc := AddressReg(s.regs[baseR], index), regs := SaveIf(s, l))
    case Ld(dr, pgoffset) => SetResult(s, dr, s.mem[AddressPC(s.pc, pgoffset)])
    case Ldi(dr, pgoffset) => SetResult(s, dr, s.mem[ToUnsigned(s.mem[AddressPC(s.pc, pgoffset)])])
    case Ldr(dr, baseR, index) => SetResult(s, dr, s.mem[AddressReg(s.regs[baseR], index)])
    case Lea(dr, pgoffset) => SetResult(s, dr, ToShort(AddressPC(s.pc, pgoffset)))
    case Not(dr, sr1) => SetResult(s, dr, NotShort(s.regs[sr1]))
    case Ret => s.(pc := ToUnsigned(s.regs[7]))
    case St(sr, pgoffset) => s.(mem := s.mem[AddressPC(s.pc, pgoffset) := s.regs[sr]])
    case Sti(sr, pgoffset) => s.(mem := s.mem[ToUnsigned(s.mem[AddressPC(s.pc, pgoffset)]) := s.regs[sr]])
    case Str(sr, baseR, index) => s.(mem := s.mem[AddressReg(s.regs[baseR], index) := s.regs[sr]])
    case Trap(trapVect) =>
      var r0 := TrapR0(trapVect, s.regs[0], input);
      s.(regs := s.regs[0 := r0][7 := ToShort(s.pc)],
         ccr := if trapVect in {IN_VECT, INN_VECT, RND_VECT} then Flags(r0) else s.ccr)
  }

  /**
   * ADD, AND, NOT, the loads and LEA change only DR and the flags: the flags are exactly the
   * one for DR's new sign, and PC and memory stay as they were.
   */
  lemma RegisterWriteFrame(s: State, i: Instruction, input: Short)
    requires WellFormed(s) && FieldsFit(i) && WritesRegister(i)
    ensures var r := Effect(s, i, input);
      r.pc == s.pc && r.mem == s.mem &&
      (forall k | 0 <= k < REGISTER_SIZE && k != i.dr :: r.regs[k] == s.regs[k]) &&
      r.ccr == Flags(r.regs[i.dr]) &&
      (r.ccr[0] <==> r.regs[i.dr] < 0) && (r.ccr[1] <==> r.regs[i.dr] == 0) &&
      (r.ccr[2] <==> r.regs[i.dr] > 0)
  {
  }

  /**
   * AND with the immediate 0 is how a program clears a register: DR becomes 0 whatever SR1
   * holds, only Z is set, and nothing else changes.
   */
  lemma AndImmClears(s: State, dr: nat, sr1: nat, input: Short)
    requires WellFormed(s) && dr < REGISTER_SIZE && sr1 < REGISTER_SIZE
    ensures var r := Effect(s, AndImm(dr, sr1, 0), input);
      r.regs[dr] == 0 && r.ccr == [false, true, false] && r.pc == s.pc && r.mem == s.mem &&
      forall k | 0 <= k < REGISTER_SIZE && k != dr :: r.regs[k] == s.regs[k]
  {
    assert SignExtend(0) == 0;
    AndShortZero(s.regs[sr1]);
  }

  /**
   * AND with the immediate 0x1F, which sign-extends to all ones, copies SR1 into DR and sets
   * the flag for its sign; nothing else changes.
   */
  lemma AndImmCopies(s: State, dr: nat, sr1: nat, input: Short)
    requires WellFormed(s) && dr < REGISTER_SIZE && sr1 < REGISTER_SIZE
    ensures var r := Effect(s, AndImm(dr, sr1, 31), input);
      r.regs[dr] == s.regs[sr1] && r.ccr == Flags(s.regs[sr1]) && r.pc == s.pc && r.mem == s.mem &&
      forall k | 0 <= k < REGISTER_SIZE && k != dr :: r.regs[k] == s.regs[k]
  {
    assert SignExtend(31) == -1;
    AndShortOnes(s.regs[sr1]);
  }

  /** ADD wraps to 16 bits: DR holds the sum modulo 0x10000 as a short. */
  lemma AddWraps(s: State, i: Instruction, input: Short)
    requires WellFormed(s) && FieldsFit(i) && (i.AddReg? || i.AddImm?)
    ensures var operand := if i.AddReg? then s.regs[i.sr2] as int else SignExtend(i.imm5) as int;
      var r := Effect(s, i, input);
      var sum := r.regs[i.dr] as int;
      (sum - s.regs[i.sr1] as int - operand) % UPPER_LIMIT == 0 && -0x8000 <= sum < 0x8000
  {
    var r := Effect(s, i, input);
    var operand := if i.AddReg? then s.regs[i.sr2] as int else SignExtend(i.imm5) as int;
    var x := s.regs[i.sr1] as int + operand;
    assert r.regs[i.dr] == ToShort(x) by {
      if i.AddReg? {
        assert r == SetResult(s, i.dr, ToShort(x));
      } else {
        assert r == SetResult(s, i.dr, ToShort(x));
      }
    }
    assert (ToShort(x) as int - x) % UPPER_LIMIT == 0;
  }

  /** The address ST, STI or STR writes. */
  function StoreAddress(s: State, i: Instruction): (a: int)
    requires WellFormed(s) && FieldsFit(i) && WritesMemory(i)
    ensures 0 <= a < UPPER_LIMIT
  {
    match i
    case St(_, pgoffset) => AddressPC(s.pc, pgoffset)
    case Sti(_, pgoffset) => ToUnsigned(s.mem[AddressPC(s.pc, pgoffset)])
    case Str(_, baseR, index) => AddressReg(s.regs[baseR], index)
  }

  /** ST, STI and STR write SR into one cell and change nothing else: no register, flag or PC. */
  lemma StoreFrame(s: State, i: Instruction, input: Short)
    requires WellFormed(s) && FieldsFit(i) && WritesMemory(i)
    ensures var r := Effect(s, i, input);
      r.regs == s.regs && r.ccr == s.ccr && r.pc == s.pc &&
      r.mem[StoreAddress(s, i)] == s.regs[i.sr] &&
      forall a | 0 <= a < UPPER_LIMIT && a != StoreAddress(s, i) :: r.mem[a] == s.mem[a]
  {
  }

  /**
   * BRx moves PC only when a selected flag is set, and then to the offset on PC's page;
   * registers, flags and memory stay.
   */
  lemma BranchFrame(s: State, n: nat, z: nat, p: nat, pgoffset: nat, input: Short)
    requires WellFormed(s) && FieldsFit(Brx(n, z, p, pgoffset))
    ensures var r := Effect(s, Brx(n, z, p, pgoffset), input);
      var taken := (n == 1 && s.ccr[0]) || (z == 1 && s.ccr[1]) || (p == 1 && s.ccr[2]);
      r.regs == s.regs && r.ccr == s.ccr && r.mem == s.mem &&
      (!taken ==> r.pc == s.pc) &&
      (taken ==> r.pc / WORD_SIZE == s.pc / WORD_SIZE && r.pc % WORD_SIZE == pgoffset)
  {
  }

  /**
   * JSR and JSRR save the PC in R7 exactly when L is 1, and RET afterwards returns to it:
   * the subroutine call and return are inverse on PC.
   */
  lemma CallAndReturn(s: State, i: Instruction, input: Short)
    requires WellFormed(s) && FieldsFit(i) && (i.Jsr? || i.Jsrr?)
    ensures var r := Effect(s, i, input);
      r.ccr == s.ccr && r.mem == s.mem &&
      (i.l == 1 ==> r.regs == s.regs[7 := ToShort(s.pc)] && Effect(r, Ret, input).pc == s.pc) &&
      (i.l != 1 ==> r.regs == s.regs)
  {
    RetReturnsToSavedPc(s.pc);
  }

  /**
   * TRAP keeps PC and memory and R1-R6, and always leaves (short) PC in R7; the flags change
   * only for IN, INN and RND, and then follow R0.
   */
  lemma TrapFrame(s: State, trapVect: nat, input: Short)
    requires WellFormed(s) && trapVect < 256
    ensures var r := Effect(s, Trap(trapVect), input);
      r.pc == s.pc && r.mem == s.mem && r.regs[7] == ToShort(s.pc) &&
      (forall k | 1 <= k < 7 :: r.regs[k] == s.regs[k]) &&
      (trapVect !in {IN_VECT, INN_VECT, RND_VECT} ==> r.ccr == s.ccr && r.regs[0] == s.regs[0]) &&
      (trapVect in {IN_VECT, INN_VECT, RND_VECT} ==> r.ccr == Flags(r.regs[0]))
  {
  }

  /** Outside the jumps, every fetched instruction leaves PC at the word after it. */
  lemma CycleAdvancesPc(s: State, input: Short)
    requires WellFormed(s)
    ensures var i := DecodeWord(ToUnsigned(s.mem[s.pc]));
      !(i.Brx? || i.Jsr? || i.Jsrr? || i.Ret?) ==> Cycle(s, input).0.pc == (s.pc + 1) % UPPER_LIMIT
  {
  }

  // ---------------------------------------------------------------- the machine as a State

  /** Memory by 16-bit address: the cell at (page, word) of each address. */
  function Image(m: Machine): (r: seq<Short>)
    reads m.memory
    requires m.memory.Length0 == PAGE_SIZE && m.memory.Length1 == WORD_SIZE
    ensures |r| == UPPER_LIMIT
    ensures forall a | 0 <= a < UPPER_LIMIT :: r[a] == m.memory[PageOf(a), WordOf(a)]
  {
    seq(UPPER_LIMIT, a requires 0 <= a < UPPER_LIMIT reads m.memory => m.memory[PageOf(a), WordOf(a)])
  }

  function Snapshot(m: Machine): (r: State)
    reads m, m.ccr, m.registers, m.memory
    requires m.Valid()
    ensures WellFormed(r)
  {
    State(m.pc, m.prevPc, m.ccr[..], m.registers[..], Image(m))
  }

  /** Instructions that write DR and the flags. */
  predicate WritesRegister(i: Instruction)
  {
    i.AddReg? || i.AddImm? || i.AndReg? || i.AndImm? || i.Ld? || i.Ldi? || i.Ldr? || i.Lea? || i.Not?
  }

  /** Instructions that write one memory cell. */
  predicate WritesMemory(i: Instruction)
  {
    i.St? || i.Sti? || i.Str?
  }

  /**
   * The switch of ParseInstruction: calls the machine method of the decoded instruction with
   * its fields (ST, STI and STR take the DR field as their source register) and reports the
   * halt flag TRAP returns; every other instruction reports false.
   */
  method Execute(m: Machine, i: Instruction, input: Short) returns (halt: bool)
    requires m.Valid() && FieldsFit(i)
    modifies m, m.ccr, m.registers, m.memory
    ensures m.Valid() && m.name == old(m.name)
    ensures halt <==> i == Trap(HALT_VECT)
    ensures Snapshot(m) == Effect(old(Snapshot(m)), i, input)
  {
    halt := false;
    if i.AddReg? || i.AddImm? || i.AndReg? || i.AndImm? || i.Not? {
      ExecuteAlu(m, i);
    } else if i.Ld? || i.Ldi? || i.Ldr? || i.Lea? {
      ExecuteLoad(m, i);
    } else if WritesMemory(i) {
      ExecuteStore(m, i);
    } else if i.Trap? {
      ghost var s := Snapshot(m);
      halt := m.Trap(i.trapVect, input);
      assert m.registers[..] == s.regs[0 := TrapR0(i.trapVect, s.regs[0], input)][7 := ToShort(s.pc)];
    } else {
      ExecuteControl(m, i);
    }
  }

  /** The ALU cases of the switch: ADD, AND and NOT. */
  method ExecuteAlu(m: Machine, i: Instruction)
    requires m.Valid() && FieldsFit(i) && (i.AddReg? || i.AddImm? || i.AndReg? || i.AndImm? || i.Not?)
    modifies m.ccr, m.registers
    ensures Snapshot(m) == Effect(old(Snapshot(m)), i, 0)
  {
    match i
    case AddReg(dr, sr1, sr2) => m.AddReg(dr, sr1, sr2);
    case AddImm(dr, sr1, imm5) => m.AddImm(dr, sr1, imm5);
    case AndReg(dr, sr1, sr2) => m.AndReg(dr, sr1, sr2);
    case AndImm(dr, sr1, imm5) => m.AndImm(dr, sr1, imm5);
    case Not(dr, sr1) => m.Not(dr, sr1);
  }

  /** The load cases of the switch: LD, LDI, LDR and LEA. */
  method ExecuteLoad(m: Machine, i: Instruction)
    requires m.Valid() && FieldsFit(i) && (i.Ld? || i.Ldi? || i.Ldr? || i.Lea?)
    modifies m.ccr, m.registers
    ensures Snapshot(m) == Effect(old(Snapshot(m)), i, 0)
  {
    match i
    case Ld(dr, pgoffset) => m.Ld(dr, pgoffset);
    case Ldi(dr, pgoffset) => m.Ldi(dr, pgoffset);
    case Ldr(dr, baseR, index) => m.Ldr(dr, baseR, index);
    case Lea(dr, pgoffset) => m.Lea(dr, pgoffset);
  }

  /** The ST, STI and STR cases of the switch. */
  method ExecuteStore(m: Machine, i: Instruction)
    requires m.Valid() && FieldsFit(i) && WritesMemory(i)
    modifies m.memory
    ensures Snapshot(m) == Effect(old(Snapshot(m)), i, 0)
  {
    ghost var s := Snapshot(m);
    match i
    case St(sr, pgoffset) =>
      var target := AddressPC(m.pc, pgoffset);
      m.St(sr, pgoffset);
      StoredImage(m, s.mem, target, m.registers[sr]);
    case Sti(sr, pgoffset) =>
      var target := ToUnsigned(s.mem[AddressPC(m.pc, pgoffset)]);
      m.Sti(sr, pgoffset);
      StoredImage(m, s.mem, target, m.registers[sr]);
    case Str(sr, baseR, index) =>
      var target := AddressReg(m.registers[baseR], index);
      m.Str(sr, baseR, index);
      StoredImage(m, s.mem, target, m.registers[sr]);
  }

  /** The BRx, DBUG, JSR, JSRR and RET cases of the switch. */
  method ExecuteControl(m: Machine, i: Instruction)
    requires m.Valid() && FieldsFit(i) && !WritesRegister(i) && !WritesMemory(i) && !i.Trap?
    modifies m, m.registers
    ensures m.Valid() && m.name == old(m.name)
    ensures Snapshot(m) == Effect(old(Snapshot(m)), i, 0)
  {
    match i
    case Brx(n, z, p, pgoffset) => m.Brx(n, z, p, pgoffset);
    case Dbug =>
    case Jsr(l, pgoffset) => m.Jsr(l, pgoffset);
    case Jsrr(l, baseR, index) => m.Jsrr(l, baseR, index);
    case Ret => m.Ret();
  }

  /** After a store that changed only the cell of target, memory is the old image updated there. */
  lemma StoredImage(m: Machine, before: seq<Short>, target: int, v: Short)
    requires m.Valid() && |before| == UPPER_LIMIT && 0 <= target < UPPER_LIMIT
    requires m.Cell(target) == v
    requires forall a | 0 <= a < UPPER_LIMIT && a != target :: m.Cell(a) == before[a]
    ensures Image(m) == before[target := v]
  {
  }

  /**
   * ParseInstruction: renders the word, decodes it and runs it; it returns true exactly when
   * the word is TRAP x25, and the machine changes as Effect says for the decoded instruction.
   */
  method ParseInstruction(m: Machine, instruction: Short, input: Short) returns (halt: bool)
    requires m.Valid()
    modifies m, m.ccr, m.registers, m.memory
    ensures m.Valid() && m.name == old(m.name)
    ensures halt <==> DecodeWord(ToUnsigned(instruction)) == Trap(HALT_VECT)
    ensures Snapshot(m) == Effect(old(Snapshot(m)), DecodeWord(ToUnsigned(instruction)), input)
  {
    var bits := InstructionString(instruction);
    DecodeAgrees(ToUnsigned(instruction));
    var decoded := DecodeBits(bits);
    match decoded
    case Some(i) => halt := Execute(m, i, input);
    case None => assert false;
  }

  // ---------------------------------------------------------------- the run loop

  /**
   * One pass of simulator_main's loop: getPC (PC advances, the previous PC is remembered),
   * fetch the word at the old PC, run it; the flag says whether it was HALT.
   */
  function Cycle(s: State, input: Short): (r: (State, bool))
    requires WellFormed(s)
    ensures WellFormed(r.0) && r.0.prevPc == s.pc
  {
    var fetched := s.(prevPc := s.pc, pc := (s.pc + 1) % UPPER_LIMIT);
    var i := DecodeWord(ToUnsigned(s.mem[s.pc]));
    (Effect(fetched, i, input), i == Trap(HALT_VECT))
  }

  /** HALT leaves memory as it was. */
  lemma HaltKeepsMemory(s: State, input: Short)
    requires WellFormed(s)
    ensures Cycle(s, input).1 ==> Cycle(s, input).0.mem == s.mem
  {
  }

  /**
   * The loop from pass `done` on: the final state, the number of instructions run and whether
   * the loop ended at HALT. It runs at most loopNum instructions in all, stops at the first
   * HALT (the word at the last PC fetched is then HALT) and otherwise runs all of them.
   */
  function Execution(s: State, done: nat, loopNum: int, input: nat -> Short): (r: (State, nat, bool))
    requires WellFormed(s)
    decreases loopNum - done
    ensures WellFormed(r.0) && done <= r.1
    ensures done < loopNum ==> r.1 <= loopNum
    ensures done >= loopNum ==> r == (s, done, false)
    ensures !r.2 && done < loopNum ==> r.1 == loopNum
    ensures r.2 ==> r.1 > done && DecodeWord(ToUnsigned(r.0.mem[r.0.prevPc])) == Trap(HALT_VECT)
  {
    if done >= loopNum then (s, done, false)
    else
      var (next, halt) := Cycle(s, input(done));
      if halt then
        HaltKeepsMemory(s, input(done));
        (next, done + 1, true)
      else Execution(next, done + 1, loopNum, input)
  }

  /**
   * The loop of simulator_main: runs at most loopNum instructions, each with the console or
   * random value input(i) for TRAP, and stops after the first HALT. It returns how many
   * instructions ran and whether HALT ended the loop.
   */
  method Run(m: Machine, loopNum: int, input: nat -> Short) returns (executed: nat, halted: bool)
    requires m.Valid()
    modifies m, m.ccr, m.registers, m.memory
    ensures m.Valid() && m.name == old(m.name)
    ensures (Snapshot(m), executed, halted) == Execution(old(Snapshot(m)), 0, loopNum, input)
  {
    var i: nat := 0;
    while i < loopNum
      invariant m.Valid() && m.name == old(m.name)
      invariant Execution(Snapshot(m), i, loopNum, input) == Execution(old(Snapshot(m)), 0, loopNum, input)
      decreases loopNum - i
    {
      var halt := FetchAndRun(m, input(i));
      if halt {
        return i + 1, true;
      }
      i := i + 1;
    }
    return i, false;
  }

  /** The body of simulator_main's loop: getPC, fetch the word at that address, ParseInstruction. */
  method FetchAndRun(m: Machine, input: Short) returns (halt: bool)
    requires m.Valid()
    modifies m, m.ccr, m.registers, m.memory
    ensures m.Valid() && m.name == old(m.name)
    ensures (Snapshot(m), halt) == Cycle(old(Snapshot(m)), input)
  {
    ghost var before := Snapshot(m);
    var pc := m.GetPc();
    assert Snapshot(m) == before.(prevPc := before.pc, pc := (before.pc + 1) % UPPER_LIMIT);
    CellOfAddress(pc);
    var instruction := m.memory[PageOf(pc), WordOf(pc)];
    assert instruction == before.mem[before.pc];
    halt := ParseInstruction(m, instruction, input);
  }

  // ---------------------------------------------------------------- the instruction count

  predicate AllDecimalDigits(s: string)
  {
    forall i | 0 <= i < |s| :: '0' <= s[i] <= '9'
  }

  /** isNum: false at the first character outside '0'..'9', true otherwise (also for ""). */
  method IsNum(str: string) returns (b: bool)
    ensures b <==> AllDecimalDigits(str)
  {
    var i := 0;
    while i < |str|
      invariant 0 <= i <= |str|
      invariant forall k | 0 <= k < i :: '0' <= str[k] <= '9'
    {
      if str[i] < '0' || str[i] > '9' {
        return false;
      }
      i := i + 1;
    }
    return true;
  }

  /**
   * simulator_main's count as written: Integer.parseInt of the answer when isNum accepts it,
   * 1000 otherwise. None is the NumberFormatException parseInt throws, which ends the program.
   */
  function LoopCountAsWritten(answer: string): Option<int>
  {
    if AllDecimalDigits(answer) then ParseInt(answer, 10) else Some(DEFAULT_LOOP_NUM)
  }

  /** An empty answer passes isNum and makes parseInt throw. */
  lemma LoopCountAsWrittenFails()
    ensures LoopCountAsWritten("") == None
  {
  }

  /**
   * The count with the empty answer corrected to 1000: any answer with a character outside
   * '0'..'9' gives 1000, and a non-empty digit string is read as the source reads it, None being
   * the exception parseInt throws for one beyond the int range.
   */
  function LoopCount(answer: string): (r: Option<int>)
    ensures r.Some? ==> 0 <= r.value
    ensures !AllDecimalDigits(answer) || answer == "" ==> r == Some(DEFAULT_LOOP_NUM)
    ensures answer != "" ==> r == LoopCountAsWritten(answer)
  {
    if answer == "" then Some(DEFAULT_LOOP_NUM)
    else if AllDecimalDigits(answer) then DigitsCount(answer)
    else Some(DEFAULT_LOOP_NUM)
  }

  /** Integer.parseInt of a non-empty string of decimal digits: its value, or None beyond the int range. */
  function DigitsCount(answer: string): (r: Option<int>)
    requires answer != "" && AllDecimalDigits(answer)
    ensures r == ParseInt(answer, 10)
    ensures r.Some? ==> 0 <= r.value
    ensures r.None? <==> DigitsValue(answer, 10) > INT_MAX
  {
    assert AllDigits(answer, 10) by {
      forall i | 0 <= i < |answer| ensures IsDigit(answer[i], 10) {
        assert '0' <= answer[i] <= '9';
      }
    }
    ParseIntSpec(answer, 10);
    assert answer[0] != '-' && answer[0] != '+';
    ParseInt(answer, 10)
  }

  /** A digit string beyond the int range makes parseInt throw, as in the source. */
  lemma LoopCountOverflow(v: nat)
    requires v > INT_MAX
    ensures LoopCount(DecString(v)) == None
  {
    DecimalStringDigits(v);
    NatToDigitsValue(v, 10);
  }

  /** Typing a non-negative int gives that count back. */
  lemma LoopCountOfNumber(v: int)
    requires 0 <= v <= INT_MAX
    ensures LoopCount(DecString(v)) == Some(v)
  {
    ParseDecString(v);
    DecimalStringDigits(v);
  }

  lemma DecimalStringDigits(v: nat)
    ensures AllDecimalDigits(DecString(v))
  {
    var s := NatToDigits(v, 10);
    forall i | 0 <= i < |s| ensures '0' <= s[i] <= '9' {
      assert IsDigit(s[i], 10);
    }
  }
}
