// The word encoders of the assembler's second pass (Passes/Pass2.java): the state Pass 2 carries
// from line to line, the symbol-class checks, how an operand is resolved to an address, and the
// 16-bit words of the machine instructions with the modification suffix a relocatable program
// needs.

module Pass2Words {
  import opened Wrappers
  import opened JavaText
  import opened StringParser
  import AsmPass1
  import MOT = MachineOpTable
  import POT = PseudoOpTable

  /** The symbol table Pass 1 built: each name's value ("x...", "#..." or an external's name) and class. */
  type SymTable = map<string, AsmPass1.Sym>

  /** The literal table Pass 1 built: each literal's address. */
  type LitTable = map<string, Int32>

  /** What Pass 2 reads and never changes: the tables it is given and the segment size. */
  datatype Env = Env(mot: map<string, MOT.Info>, pot: map<string, POT.Info>,
                     symbols: SymTable, literals: LitTable, segmentSize: Int32)

  /** The fields Pass 2 changes as it goes: LC, isRelocatable, initialAddress, tempExternalTable, segName. */
  datatype State = State(lc: Int32, isRelocatable: bool, initialAddress: string,
                         externals: map<string, string>, segName: string)

  /** Integer.toHexString(v).toUpperCase(), left-padded with zeros to four characters. */
  function Hex4(v: Int32): string
  {
    PadZeros(Upper(ToHexString(v)), 4)
  }

  /** For a 16-bit value that is exactly the four-digit word of the object file. */
  lemma Hex4Word(v: int)
    requires 0 <= v < 0x10000
    ensures Hex4(v) == HexWord(v)
  {
    PowFacts();
    PadNatToDigits(v, 16, 4);
    PadZerosUpper(ToHexString(v), 4);
  }

  // ---------------------------------------------------------------- addressFromLC

  /** addressFromLC's update: LC := (LC + size) % 0x10000 in int arithmetic. */
  function Advance(st: State, size: int): State
  {
    st.(lc := JavaRem(WrapInt(st.lc + size), 0x10000))
  }

  /** The state with LC n words further on, modulo 2^16. */
  function Moved(st: State, n: int): State
  {
    st.(lc := (st.lc + n) % 0x10000)
  }

  /** For a 16-bit LC and size, Java's wrapped addition and remainder is counting on modulo 2^16. */
  lemma AdvanceMovesOn(st: State, size: int)
    requires 0 <= st.lc < 0x10000 && 0 <= size <= 0xFFFF
    ensures Advance(st, size) == Moved(st, size)
  {
  }

  /**
   * addressFromLC hands out the counter as it was, as four upper-case hex digits that read back
   * as the counter, and moves it on by size modulo 0x10000; nothing else changes.
   */
  lemma AddressFromLCSpec(st: State, size: int)
    requires 0 <= st.lc < 0x10000 && 0 <= size <= 0xFFFF
    ensures Hex4(st.lc) == HexWord(st.lc) && |Hex4(st.lc)| == 4 && IsUpperHex(Hex4(st.lc))
    ensures ParseInt(Hex4(st.lc), 16) == Some(st.lc as int)
    ensures Advance(st, size).lc == (st.lc + size) % 0x10000
    ensures Advance(st, size) == st.(lc := (st.lc + size) % 0x10000)
  {
    Hex4Word(st.lc);
    HexWordValue(st.lc);
    ParseHexWord(st.lc);
  }

  // ---------------------------------------------------------------- symbol classes

  /** isRelativeSymbol: 2 for an external, 1 for a relative symbol, 0 for any other known symbol. */
  function IsRelativeSymbol(ext: map<string, string>, env: Env, pos: string): Result<int, Pass2Error>
  {
    if pos !in env.symbols && pos !in ext then Err(SymbolNotFound(pos))
    else if pos in ext then Ok(2)
    else if env.symbols[pos].cls == "R" then Ok(1)
    else Ok(0)
  }

  /** absoluteSymbolTable: an external, an unknown name or a symbol not of class "A" is refused. */
  function AbsoluteSymbolTable(ext: map<string, string>, env: Env, pos: string): Result<(), Pass2Error>
  {
    if pos in ext then Err(ExternalAsAbsolute(pos))
    else if pos !in env.symbols then Err(SymbolNotFound(pos))
    else if env.symbols[pos].cls != "A" then Err(NotAbsolute(pos))
    else Ok(())
  }

  /**
   * The two checks agree: a name absoluteSymbolTable accepts is one isRelativeSymbol calls
   * absolute (0); a relative name is refused as not absolute, an external one as external, and
   * an unknown name is refused by both.
   */
  lemma SymbolClasses(ext: map<string, string>, env: Env, pos: string)
    ensures AbsoluteSymbolTable(ext, env, pos).Ok? <==>
      IsRelativeSymbol(ext, env, pos) == Ok(0) && env.symbols[pos].cls == "A"
    ensures IsRelativeSymbol(ext, env, pos) == Ok(1) ==> AbsoluteSymbolTable(ext, env, pos) == Err(NotAbsolute(pos))
    ensures IsRelativeSymbol(ext, env, pos) == Ok(2) ==> AbsoluteSymbolTable(ext, env, pos) == Err(ExternalAsAbsolute(pos))
    ensures IsRelativeSymbol(ext, env, pos).Err? <==> AbsoluteSymbolTable(ext, env, pos) == Err(SymbolNotFound(pos))
    ensures IsRelativeSymbol(ext, env, pos).Ok? ==> IsRelativeSymbol(ext, env, pos).value in {0, 1, 2}
  {
  }

  // ---------------------------------------------------------------- operands

  /** The address an operand stands for, how it relocates (0, 1 or 2) and the name a suffix would carry. */
  datatype Target = Target(address: string, relative: int, externalSym: string)

  /**
   * The symbol branch shared by brxOp, jsrOp, ldOp, fillOp and endOp: an external stands for its
   * temporary address; a symbol whose value is a number stands for that number; a symbol whose
   * value names an external stands for that external (a forward reference to anything else is
   * refused).
   */
  function ResolveSymbol(ext: map<string, string>, env: Env, name: string): Result<Target, Pass2Error>
  {
    match IsRelativeSymbol(ext, env, name)
    case Err(e) => Err(e)
    case Ok(relative) =>
      if relative == 2 then Ok(Target(ext[name], 2, name))
      else
        var val := env.symbols[name].value;
        if |val| == 0 then Err(RuntimeFailure)
        else if val[0] == 'x' || val[0] == '#' then Ok(Target(val, relative, name))
        else if val !in ext then Err(ForwardReference(val))
        else Ok(Target(ext[val], 2, val))
  }

  /**
   * What a resolved operand means: an external (the operand itself, or the external its value
   * names) resolves to its temporary address and relocates as external (2); any other symbol
   * resolves to its own numeric value and relocates as relative (1) exactly when its class is "R".
   */
  lemma ResolveMeaning(ext: map<string, string>, env: Env, name: string)
    ensures ResolveSymbol(ext, env, name).Ok? <==>
      name in ext ||
      (name in env.symbols && |env.symbols[name].value| > 0 &&
       (env.symbols[name].value[0] in "x#" || env.symbols[name].value in ext))
    ensures ResolveSymbol(ext, env, name).Ok? ==>
      var t := ResolveSymbol(ext, env, name).value;
      t.relative in {0, 1, 2} &&
      (t.relative == 2 ==>
         t.externalSym in ext && t.address == ext[t.externalSym] &&
         (t.externalSym == name || (name !in ext && env.symbols[name].value == t.externalSym))) &&
      (t.relative < 2 ==>
         name !in ext && name in env.symbols && t.externalSym == name &&
         t.address == env.symbols[name].value && t.address[0] in "x#" &&
         (t.relative == 1 <==> env.symbols[name].cls == "R"))
  {
  }

  /** An operand of brxOp, jsrOp, fillOp or endOp: a number stands for itself, anything else is a symbol. */
  function OperandTarget(ext: map<string, string>, env: Env, operand: string): Result<Target, Pass2Error>
  {
    if |operand| == 0 then Err(RuntimeFailure)
    else if operand[0] == '#' || operand[0] == 'x' then Ok(Target(operand, 0, operand))
    else ResolveSymbol(ext, env, operand)
  }

  /** ldOp's address operand: a literal stands for its pool address and relocates as relative. */
  function LoadTarget(ext: map<string, string>, env: Env, operand: string): Result<Target, Pass2Error>
  {
    if |operand| > 0 && operand[0] == '=' then
      match LiteralValue(env.literals, operand)
      case Err(e) => Err(e)
      case Ok(address) => Ok(Target(address, 1, operand))
    else OperandTarget(ext, env, operand)
  }

  /**
   * The modification suffix: only in a relocatable segment, `<tag><segName>` for a relative
   * operand and `<tag><external>` for an external one.
   */
  function Modification(st: State, tag: string, t: Target): string
  {
    if !st.isRelocatable then ""
    else if t.relative == 1 then tag + st.segName
    else if t.relative == 2 then tag + t.externalSym
    else ""
  }

  /**
   * The suffix rule for a symbol operand: nothing in an absolute segment or for an absolute
   * symbol; `<tag><segName>` for a relative one; `<tag><name>` for an external, whether named
   * directly or through a symbol whose value is the external's name.
   */
  lemma SymbolSuffix(st: State, env: Env, name: string, tag: string)
    requires ResolveSymbol(st.externals, env, name).Ok?
    ensures var t := ResolveSymbol(st.externals, env, name).value;
      Modification(st, tag, t) ==
        if !st.isRelocatable then ""
        else if name in st.externals then tag + name
        else if env.symbols[name].value in st.externals && env.symbols[name].value[0] !in "x#" then
          tag + env.symbols[name].value
        else if env.symbols[name].cls == "R" then tag + st.segName
        else ""
  {
    ResolveMeaning(st.externals, env, name);
  }

  /** A literal operand of ldOp always counts as relative: in a relocatable segment it gets `X9<segName>`. */
  lemma LiteralSuffix(st: State, env: Env, literal: string)
    requires |literal| > 0 && literal[0] == '=' && LoadTarget(st.externals, env, literal).Ok?
    ensures literal in env.literals && IsLiteral(literal)
    ensures Modification(st, "X9", LoadTarget(st.externals, env, literal).value) ==
      if st.isRelocatable then "X9" + st.segName else ""
  {
  }

  // ---------------------------------------------------------------- operand fields

  /** How the operand loops of addOp, jsrrOp/ldrOp and notOp read one field. */
  datatype FieldForm =
    | ArithmeticFields      // addOp/andOp: registers, and a 5-bit immediate in third place
    | IndexFields(at: nat)  // jsrrOp (at 1), ldrOp (at 2): registers, and a 6-bit index
    | RegisterFields        // notOp (and ldOp's first operand): registers only

  /**
   * One operand's bits: `R<n>` is register n (addOp puts "000" before a third register), a number
   * is an immediate or an index, and a symbol must be absolute and is read through its value.
   */
  function OperandField(form: FieldForm, ext: map<string, string>, env: Env, i: nat, pos: string): Result<string, Pass2Error>
  {
    if |pos| == 0 then Err(RuntimeFailure)
    else if pos[0] == 'R' then
      match RegisterToBinaryString("#" + pos[1..])
      case Err(e) => Err(e)
      case Ok(reg) => Ok(if form == ArithmeticFields && i == 2 then "000" + reg else reg)
    else if form != RegisterFields && (pos[0] == '#' || pos[0] == 'x') then
      if form == ArithmeticFields then
        match ImmediateToBinaryString(pos)
        case Err(e) => Err(e)
        case Ok(imm) => Ok("1" + imm)
      else IndexToBinaryString(pos)
    else
      match AbsoluteSymbolTable(ext, env, pos)
      case Err(e) => Err(e)
      case Ok(_) =>
        var val := env.symbols[pos].value;
        if form == ArithmeticFields && i == 2 then
          match ImmediateToBinaryString(val)
          case Err(e) => Err(e)
          case Ok(imm) => Ok("1" + imm)
        else if form.IndexFields? && i == form.at then IndexToBinaryString(val)
        else RegisterToBinaryString(val)
  }

  /** The operand loop: the fields of the operands in order, stopping at the first that fails. */
  function FieldsOf(form: FieldForm, ext: map<string, string>, env: Env, ops: seq<string>): Result<string, Pass2Error>
  {
    if |ops| == 0 then Ok("")
    else
      match FieldsOf(form, ext, env, ops[..|ops| - 1])
      case Err(e) => Err(e)
      case Ok(prev) =>
        match OperandField(form, ext, env, |ops| - 1, ops[|ops| - 1])
        case Err(e) => Err(e)
        case Ok(f) => Ok(prev + f)
  }

  // ---------------------------------------------------------------- words

  /** The address LC gave followed by the hex rendering of the instruction's bits. */
  function Word(lcAddress: string, bits: string): Result<string, Pass2Error>
  {
    match ConvertBinaryToHexString(bits)
    case Err(e) => Err(e)
    case Ok(hex) => Ok(lcAddress + hex)
  }

  /** addOp, jsrrOp, ldrOp and notOp: fixed leading bits, the operand fields, fixed trailing bits. */
  function FieldsWord(lcAddress: string, lead: string, fields: Result<string, Pass2Error>, trail: string): Result<string, Pass2Error>
  {
    match fields
    case Err(e) => Err(e)
    case Ok(f) => Word(lcAddress, lead + f + trail)
  }

  /** The instructions read through an operand loop: the fields of all operands between the fixed bits. */
  function LoopWord(st: State, env: Env, form: FieldForm, lead: string, ops: seq<string>, trail: string): Result<string, Pass2Error>
  {
    FieldsWord(Hex4(st.lc), lead, FieldsOf(form, st.externals, env, ops), trail)
  }

  /**
   * The page-relative words (brxOp, jsrOp, ldOp): the nine-bit offset of the target within the
   * page of LC + 1, and the `X9` suffix.
   */
  function PcWord(st: State, lead: string, t: Target): Result<string, Pass2Error>
  {
    match PageRangeAndOffset(Hex4(st.lc), t.address)
    case Err(e) => Err(e)
    case Ok(offset) =>
      match Word(Hex4(st.lc), lead + offset)
      case Err(e) => Err(e)
      case Ok(w) => Ok(w + Modification(st, "X9", t))
  }

  /** brxOp and jsrOp: the leading bits are the opcode and n z p, or L 0 0; the first operand is the target. */
  function BranchWord(st: State, env: Env, lead: string, ops: seq<string>): Result<string, Pass2Error>
  {
    if |ops| == 0 then Err(RuntimeFailure)
    else
      match OperandTarget(st.externals, env, ops[0])
      case Err(e) => Err(e)
      case Ok(t) => PcWord(st, lead, t)
  }

  /** ldOp (and ldi, lea, st, sti): a register, then a page-relative address or literal. */
  function LoadWord(st: State, env: Env, opcodeBits: string, ops: seq<string>): Result<string, Pass2Error>
  {
    if |ops| == 0 then Err(RuntimeFailure)
    else
      match OperandField(RegisterFields, st.externals, env, 0, ops[0])
      case Err(e) => Err(e)
      case Ok(reg) =>
        if |ops| < 2 then Err(RuntimeFailure)
        else
          match LoadTarget(st.externals, env, ops[1])
          case Err(e) => Err(e)
          case Ok(t) => PcWord(st, opcodeBits + reg, t)
  }

  /** trapOp: the opcode, four zero bits and an eight-bit trap vector (a number or an absolute symbol). */
  function TrapWord(st: State, env: Env, opcodeBits: string, ops: seq<string>): Result<string, Pass2Error>
  {
    if |ops| == 0 || |ops[0]| == 0 then Err(RuntimeFailure)
    else
      var pos := ops[0];
      var trap :=
        if pos[0] == '#' || pos[0] == 'x' then TrapToBinaryString(pos)
        else
          match AbsoluteSymbolTable(st.externals, env, pos)
          case Err(e) => Err(e)
          case Ok(_) => TrapToBinaryString(env.symbols[pos].value);
      FieldsWord(Hex4(st.lc), opcodeBits + "0000", trap, "")
  }

  // ---------------------------------------------------------------- the instruction set

  /** The bits after the opcode that the switch in assembleMachineOpLine passes: n z p for a branch, L 0 0 for a jump. */
  function FlagBits(ins: MOT.Ins): string
  {
    match ins
    case BR => "000" case BRN => "100" case BRZ => "010" case BRP => "001"
    case BRNZ => "110" case BRNP => "101" case BRZP => "011" case BRNZP => "111"
    case JSR => "100" case JMP => "000" case JSRR => "100" case JMPR => "000"
    case _ => ""
  }

  /** The instructions whose operands go through an operand loop, and how that loop reads them. */
  function LoopForm(ins: MOT.Ins): Option<FieldForm>
  {
    match ins
    case ADD => Some(ArithmeticFields) case AND => Some(ArithmeticFields)
    case JSRR => Some(IndexFields(1)) case JMPR => Some(IndexFields(1))
    case LDR => Some(IndexFields(2)) case STR => Some(IndexFields(2))
    case NOT => Some(RegisterFields)
    case _ => None
  }

  /** The bits notOp puts after its registers. */
  function TrailBits(ins: MOT.Ins): string
  {
    if ins == MOT.NOT then "000000" else ""
  }

  /**
   * The record body of one machine instruction (the encoder the switch selects, after the
   * address LC gave): ADD/AND, JSRR/JMPR, LDR/STR and NOT read their operands in a loop,
   * the branches and JSR/JMP are page-relative, LD/LDI/LEA/ST/STI load a register from a
   * page-relative address, DBUG and RET have no operands, TRAP takes a vector.
   */
  function MachineWord(st: State, env: Env, ins: MOT.Ins, value: int, ops: seq<string>): Result<string, Pass2Error>
  {
    var op := OpcodeBinaryString(value);
    match LoopForm(ins)
    case Some(form) => LoopWord(st, env, form, op + FlagBits(ins), ops, TrailBits(ins))
    case None =>
      if ins == MOT.DBUG || ins == MOT.RET then Word(Hex4(st.lc), op + "000000000000")
      else if ins in {MOT.LD, MOT.LDI, MOT.LEA, MOT.ST, MOT.STI} then LoadWord(st, env, op, ops)
      else if ins == MOT.TRAP then TrapWord(st, env, op, ops)
      else BranchWord(st, env, op + FlagBits(ins), ops)
  }

  /** The instructions with an operand loop: the word is the loop's, between the opcode and flag bits and the trailing bits. */
  lemma MachineWordLoop(st: State, env: Env, ins: MOT.Ins, value: int, ops: seq<string>, form: FieldForm)
    requires LoopForm(ins) == Some(form)
    ensures MachineWord(st, env, ins, value, ops) ==
      LoopWord(st, env, form, OpcodeBinaryString(value) + FlagBits(ins), ops, TrailBits(ins))
  {
  }

  // ---------------------------------------------------------------- bit-level facts

  /** Two binary fields side by side form one: the first shifted left by the width of the second. */
  lemma {:induction false} FieldConcat(a: string, wa: nat, va: int, b: string, wb: nat, vb: int)
    requires IsBinaryField(a, wa, va) && IsBinaryField(b, wb, vb)
    ensures IsBinaryField(a + b, wa + wb, va * Pow(2, wb) + vb)
    decreases wb
  {
    if wb == 0 {
      assert b == [] && vb == 0;
      assert a + b == a;
    } else {
      var b0 := b[..wb - 1];
      var c := b[wb - 1];
      assert b == b0 + [c];
      assert AllDigits(b0, 2) by {
        forall i | 0 <= i < |b0| ensures IsDigit(b0[i], 2) {
          assert b0[i] == b[i];
        }
      }
      var v0 := DigitsValue(b0, 2);
      assert vb == v0 * 2 + DigitValue(c);
      FieldConcat(a, wa, va, b0, wb - 1, v0);
      var s := (a + b0) + [c];
      assert s == a + b;
      DigitsValueSnoc(a + b0, c, 2);
      var p := Pow(2, wb - 1);
      assert Pow(2, wb) == 2 * p;
      ShiftOne(va, p, v0, DigitValue(c));
    }
  }

  lemma ShiftOne(x: int, p: int, y: int, d: int)
    ensures (x * p + y) * 2 + d == x * (2 * p) + (y * 2 + d)
  {
  }

  /** The constant bit strings the encoders use. */
  lemma ConstantBits()
    ensures IsBinaryField("000", 3, 0) && IsBinaryField("1", 1, 1) && IsBinaryField("100", 3, 4)
    ensures IsBinaryField("0000", 4, 0) && IsBinaryField("000000", 6, 0)
    ensures IsBinaryField("000000000000", 12, 0)
  {
    assert IsBinaryField("0", 1, 0) && IsBinaryField("000", 3, 0);
    FieldConcat("000", 3, 0, "0", 1, 0);
    assert "000" + "0" == "0000";
    FieldConcat("000", 3, 0, "000", 3, 0);
    assert "000" + "000" == "000000";
    FieldConcat("000000", 6, 0, "000000", 6, 0);
    assert "000000" + "000000" == "000000000000";
  }

  /** Opcode(4) a(3) b(3) c(6): the sixteen-bit instruction word, rendered after the LC address. */
  lemma Word4336(lcAddress: string, op: string, o: int, a: string, x: int, b: string, y: int, c: string, z: int)
    requires IsBinaryField(op, 4, o) && IsBinaryField(a, 3, x) && IsBinaryField(b, 3, y) && IsBinaryField(c, 6, z)
    ensures Word(lcAddress, op + a + b + c) == Ok(lcAddress + HexWord(o * 4096 + x * 512 + y * 64 + z))
  {
    PowFacts();
    FieldConcat(op, 4, o, a, 3, x);
    FieldConcat(op + a, 7, o * 8 + x, b, 3, y);
    FieldConcat(op + a + b, 10, (o * 8 + x) * 8 + y, c, 6, z);
  }

  /** Opcode(4) three bits(3) the offset of a within its page(9), rendered after the LC address. */
  lemma Word439(lcAddress: string, op: string, p: int, mid: string, q: int, off: string, a: int)
    requires IsBinaryField(op, 4, p) && IsBinaryField(mid, 3, q) && IsBinaryField(off, 9, a % 512)
    ensures Word(lcAddress, op + mid + off) == Ok(lcAddress + HexWord(p * 4096 + q * 512 + a % 512))
  {
    PowFacts();
    FieldConcat(op, 4, p, mid, 3, q);
    FieldConcat(op + mid, 7, p * 8 + q, off, 9, a % 512);
  }

  // ---------------------------------------------------------------- the operand loops

  /** A register operand `R<n>`, read as the source reads it: "#" followed by the rest, a number 0..7. */
  predicate RegisterToken(tok: string)
  {
    |tok| >= 1 && tok[0] == 'R' && RegisterToBinaryString("#" + tok[1..]).Ok?
  }

  /** The register a register operand names. */
  function RegisterNumber(tok: string): (n: int)
    requires RegisterToken(tok)
    ensures 0 <= n <= 7
    ensures IsBinaryField(RegisterToBinaryString("#" + tok[1..]).value, 3, n)
  {
    ParseIndex("#" + tok[1..]).value
  }

  /** One more turn of the operand loop appends the next operand's field. */
  lemma FieldsOfStep(form: FieldForm, ext: map<string, string>, env: Env, init: seq<string>, last: string, prev: string, f: string)
    requires FieldsOf(form, ext, env, init) == Ok(prev)
    requires OperandField(form, ext, env, |init|, last) == Ok(f)
    ensures FieldsOf(form, ext, env, init + [last]) == Ok(prev + f)
  {
    var ops := init + [last];
    assert ops[..|ops| - 1] == init && ops[|ops| - 1] == last;
  }

  /** Three operands, taken one at a time. */
  lemma ThreeSteps(ops: seq<string>)
    requires |ops| == 3
    ensures [] + [ops[0]] == [ops[0]] && [ops[0]] + [ops[1]] == [ops[0], ops[1]] && [ops[0], ops[1]] + [ops[2]] == ops
  {
  }

  /** The operand loop over three operands is their three fields side by side. */
  lemma FieldsOfThree(form: FieldForm, ext: map<string, string>, env: Env, ops: seq<string>, f0: string, f1: string, f2: string)
    requires |ops| == 3
    requires OperandField(form, ext, env, 0, ops[0]) == Ok(f0)
    requires OperandField(form, ext, env, 1, ops[1]) == Ok(f1)
    requires OperandField(form, ext, env, 2, ops[2]) == Ok(f2)
    ensures FieldsOf(form, ext, env, ops) == Ok(f0 + f1 + f2)
  {
    ThreeSteps(ops);
    EmptyPrefix(f0);
    FieldsOfStep(form, ext, env, [], ops[0], "", f0);
    FieldsOfStep(form, ext, env, [ops[0]], ops[1], f0, f1);
    FieldsOfStep(form, ext, env, [ops[0], ops[1]], ops[2], f0 + f1, f2);
  }

  lemma EmptyPrefix(f: string)
    ensures "" + f == f
  {
  }

  /** A register operand in first or second place of any loop is its three bits. */
  lemma RegisterField(form: FieldForm, ext: map<string, string>, env: Env, i: nat, pos: string)
    requires RegisterToken(pos) && (form == ArithmeticFields ==> i < 2)
    ensures OperandField(form, ext, env, i, pos) == Ok(RegisterToBinaryString("#" + pos[1..]).value)
  {
  }

  /** A register in third place of ADD/AND is "000" and its three bits. */
  lemma ThirdRegister(ext: map<string, string>, env: Env, pos: string)
    requires RegisterToken(pos)
    ensures OperandField(ArithmeticFields, ext, env, 2, pos) == Ok("000" + RegisterToBinaryString("#" + pos[1..]).value)
    ensures IsBinaryField("000" + RegisterToBinaryString("#" + pos[1..]).value, 6, RegisterNumber(pos))
  {
    ConstantBits();
    PowFacts();
    FieldConcat("000", 3, 0, RegisterToBinaryString("#" + pos[1..]).value, 3, RegisterNumber(pos));
  }

  /**
   * The token a number field (an immediate, an index, a trap vector) is read from: the operand
   * itself when it is a number, the symbol's value when it is a symbol.
   */
  function ValueToken(env: Env, pos: string): string
    requires |pos| > 0 && (pos[0] !in "#x" ==> pos in env.symbols)
  {
    if pos[0] in "#x" then pos else env.symbols[pos].value
  }

  /**
   * A number, or an absolute symbol, in third place of ADD/AND is "1" and the five low bits of
   * its value; a relative, external or unknown symbol is refused.
   */
  lemma ThirdImmediate(ext: map<string, string>, env: Env, pos: string)
    requires |pos| > 0 && pos[0] != 'R'
    ensures OperandField(ArithmeticFields, ext, env, 2, pos).Ok? <==>
      (pos[0] in "#x" || AbsoluteSymbolTable(ext, env, pos).Ok?) && ImmediateToBinaryString(ValueToken(env, pos)).Ok?
    ensures OperandField(ArithmeticFields, ext, env, 2, pos).Ok? ==>
      IsBinaryField(OperandField(ArithmeticFields, ext, env, 2, pos).value, 6,
                    32 + ParseImmediate(ValueToken(env, pos)).value % 32)
  {
    var f := OperandField(ArithmeticFields, ext, env, 2, pos);
    if f.Ok? {
      var src := ValueToken(env, pos);
      ImmediateBits(src, ImmediateToBinaryString(src).value);
    }
  }

  /** "1" before the five immediate bits is the six-bit field 32 + the value's low five bits. */
  lemma ImmediateBits(src: string, imm: string)
    requires ImmediateToBinaryString(src) == Ok(imm)
    ensures IsBinaryField("1" + imm, 6, 32 + ParseImmediate(src).value % 32)
  {
    ConstantBits();
    PowFacts();
    FieldConcat("1", 1, 1, imm, 5, ParseImmediate(src).value % 32);
  }

  /** ADD/AND from its three fields: opcode(4) DR(3) SR1(3) and the six low bits. */
  lemma ArithmeticWord(st: State, env: Env, op: string, o: int, ops: seq<string>,
                       a: string, x: int, b: string, y: int, c: string, z: int)
    requires IsBinaryField(op, 4, o) && |ops| == 3
    requires OperandField(ArithmeticFields, st.externals, env, 0, ops[0]) == Ok(a) && IsBinaryField(a, 3, x)
    requires OperandField(ArithmeticFields, st.externals, env, 1, ops[1]) == Ok(b) && IsBinaryField(b, 3, y)
    requires OperandField(ArithmeticFields, st.externals, env, 2, ops[2]) == Ok(c) && IsBinaryField(c, 6, z)
    ensures LoopWord(st, env, ArithmeticFields, op, ops, "") == Ok(Hex4(st.lc) + HexWord(o * 4096 + x * 512 + y * 64 + z))
  {
    FieldsOfThree(ArithmeticFields, st.externals, env, ops, a, b, c);
    LoopWordOf(st, env, ArithmeticFields, op, ops, a + b + c, "");
    Joined(op, a, b, c);
    Word4336(Hex4(st.lc), op, o, a, x, b, y, c, z);
  }

  /** A loop whose operands all encode is the word of its bits. */
  lemma LoopWordOf(st: State, env: Env, form: FieldForm, lead: string, ops: seq<string>, f: string, trail: string)
    requires FieldsOf(form, st.externals, env, ops) == Ok(f)
    ensures LoopWord(st, env, form, lead, ops, trail) == Word(Hex4(st.lc), lead + f + trail)
  {
  }

  lemma Joined(op: string, a: string, b: string, c: string)
    ensures op + (a + b + c) + "" == op + a + b + c
  {
  }

  /** tok is a register operand naming register n. */
  predicate NamesRegister(tok: string, n: int)
  {
    RegisterToken(tok) && RegisterNumber(tok) == n
  }

  /** `R` followed by a register number in decimal names that register. */
  lemma RegisterNamed(n: int)
    requires 0 <= n <= 7
    ensures NamesRegister("R" + DecString(n), n)
  {
    var tok := "R" + DecString(n);
    assert tok[1..] == DecString(n);
    IndexToken(n);
  }

  /** `#` followed by a register number in decimal is a number parseIndex reads back. */
  lemma IndexToken(n: int)
    requires 0 <= n <= 7
    ensures CanParseInt("#" + DecString(n)) && ParseIndex("#" + DecString(n)) == Ok(n)
  {
    ParseDecString(n);
    assert ("#" + DecString(n))[1..] == DecString(n);
    IndexRoundTrip(n);
  }

  /**
   * pos, in third place of ADD/AND, is a number or an absolute symbol whose immediate has i as
   * its five low bits.
   */
  predicate ImmediateOperand(ext: map<string, string>, env: Env, pos: string, i: int)
  {
    |pos| > 0 && pos[0] != 'R' && (pos[0] in "#x" || AbsoluteSymbolTable(ext, env, pos).Ok?) &&
    ImmediateToBinaryString(ValueToken(env, pos)).Ok? &&
    ParseImmediate(ValueToken(env, pos)).value % 32 == i
  }

  /** ADD/AND with three registers: opcode(4) DR(3) SR1(3) 000 SR2(3). */
  lemma ArithmeticRegisters(st: State, env: Env, op: string, o: int, ops: seq<string>, r0: int, r1: int, r2: int)
    requires IsBinaryField(op, 4, o) && |ops| == 3
    requires NamesRegister(ops[0], r0) && NamesRegister(ops[1], r1) && NamesRegister(ops[2], r2)
    ensures LoopWord(st, env, ArithmeticFields, op, ops, "") == Ok(Hex4(st.lc) + HexWord(o * 4096 + r0 * 512 + r1 * 64 + r2))
  {
    var a, b, c := RegisterOperands(st.externals, env, ops);
    ArithmeticWord(st, env, op, o, ops, a, r0, b, r1, c, r2);
  }

  /**
   * ADD/AND with an immediate: opcode(4) DR(3) SR1(3) 1 imm5; z is that six-bit field, 32 for
   * the flag plus the immediate's five low bits.
   */
  lemma ArithmeticImmediate(st: State, env: Env, op: string, o: int, ops: seq<string>, r0: int, r1: int, z: int)
    requires IsBinaryField(op, 4, o) && |ops| == 3
    requires NamesRegister(ops[0], r0) && NamesRegister(ops[1], r1) && ImmediateOperand(st.externals, env, ops[2], z - 32)
    ensures LoopWord(st, env, ArithmeticFields, op, ops, "") == Ok(Hex4(st.lc) + HexWord(o * 4096 + r0 * 512 + r1 * 64 + z))
  {
    var a, b, c := ImmediateOperands(st.externals, env, ops, z - 32);
    ArithmeticWord(st, env, op, o, ops, a, r0, b, r1, c, z);
  }

  /**
   * The immediate form of ADD/AND is refused when its third operand is a relative, external or
   * unknown symbol, or its value is not a valid immediate.
   */
  lemma ArithmeticRefused(st: State, env: Env, op: string, ops: seq<string>)
    requires |ops| == 3 && |ops[2]| > 0 && ops[2][0] != 'R'
    requires !(ops[2][0] in "#x" || AbsoluteSymbolTable(st.externals, env, ops[2]).Ok?) ||
             !ImmediateToBinaryString(ValueToken(env, ops[2])).Ok?
    ensures LoopWord(st, env, ArithmeticFields, op, ops, "").Err?
  {
    ThirdImmediate(st.externals, env, ops[2]);
    FieldsOfThreeFails(ArithmeticFields, st.externals, env, ops);
  }

  /** Two register operands and an immediate one of ADD/AND, and their fields. */
  lemma ImmediateOperands(ext: map<string, string>, env: Env, ops: seq<string>, i: int) returns (a: string, b: string, c: string)
    requires |ops| == 3 && RegisterToken(ops[0]) && RegisterToken(ops[1]) && ImmediateOperand(ext, env, ops[2], i)
    ensures OperandField(ArithmeticFields, ext, env, 0, ops[0]) == Ok(a) && IsBinaryField(a, 3, RegisterNumber(ops[0]))
    ensures OperandField(ArithmeticFields, ext, env, 1, ops[1]) == Ok(b) && IsBinaryField(b, 3, RegisterNumber(ops[1]))
    ensures OperandField(ArithmeticFields, ext, env, 2, ops[2]) == Ok(c) && IsBinaryField(c, 6, 32 + i)
  {
    a := RegisterToBinaryString("#" + ops[0][1..]).value;
    b := RegisterToBinaryString("#" + ops[1][1..]).value;
    RegisterField(ArithmeticFields, ext, env, 0, ops[0]);
    RegisterField(ArithmeticFields, ext, env, 1, ops[1]);
    ThirdImmediate(ext, env, ops[2]);
    c := OperandField(ArithmeticFields, ext, env, 2, ops[2]).value;
  }

  /** Three register operands of ADD/AND and their fields. */
  lemma RegisterOperands(ext: map<string, string>, env: Env, ops: seq<string>) returns (a: string, b: string, c: string)
    requires |ops| == 3 && RegisterToken(ops[0]) && RegisterToken(ops[1]) && RegisterToken(ops[2])
    ensures OperandField(ArithmeticFields, ext, env, 0, ops[0]) == Ok(a) && IsBinaryField(a, 3, RegisterNumber(ops[0]))
    ensures OperandField(ArithmeticFields, ext, env, 1, ops[1]) == Ok(b) && IsBinaryField(b, 3, RegisterNumber(ops[1]))
    ensures OperandField(ArithmeticFields, ext, env, 2, ops[2]) == Ok(c) && IsBinaryField(c, 6, RegisterNumber(ops[2]))
  {
    a := RegisterToBinaryString("#" + ops[0][1..]).value;
    b := RegisterToBinaryString("#" + ops[1][1..]).value;
    c := "000" + RegisterToBinaryString("#" + ops[2][1..]).value;
    RegisterField(ArithmeticFields, ext, env, 0, ops[0]);
    RegisterField(ArithmeticFields, ext, env, 1, ops[1]);
    ThirdRegister(ext, env, ops[2]);
  }

  /** The loop over three operands fails when the third operand does. */
  lemma FieldsOfThreeFails(form: FieldForm, ext: map<string, string>, env: Env, ops: seq<string>)
    requires |ops| == 3 && OperandField(form, ext, env, 2, ops[2]).Err?
    ensures FieldsOf(form, ext, env, ops).Err?
  {
  }

  // ---------------------------------------------------------------- page-relative words

  /** The target address a lies on the page of PC = LC + 1. */
  predicate SamePage(lc: int, a: int)
  {
    ((lc + 1) % 0x10000) / 512 == a / 512
  }

  /** pageRangeAndOffset, given LC as addressFromLC writes it, accepts exactly the targets on the page of LC + 1. */
  lemma PageOk(st: State, address: string, a: int)
    requires 0 <= st.lc < 0x10000
    requires CanParseInt(address) && ParseAddress(address) == Ok(a) && 0 <= a <= 0xFFFF
    ensures PageRangeAndOffset(Hex4(st.lc), address).Ok? <==> SamePage(st.lc, a)
  {
    Hex4Word(st.lc);
    PageRangeAndOffsetSpec(st.lc, address);
  }

  /**
   * brxOp, jsrOp and ldOp: with LC a 16-bit counter and a target address in range, the word is
   * produced exactly when the target lies on the page of LC + 1; it is then the opcode, three
   * more bits and the target's nine-bit offset within its page, followed by the modification
   * suffix.
   */
  lemma PcWordSpec(st: State, op: string, p: int, mid: string, q: int, t: Target, a: int)
    requires 0 <= st.lc < 0x10000 && IsBinaryField(op, 4, p) && IsBinaryField(mid, 3, q)
    requires CanParseInt(t.address) && ParseAddress(t.address) == Ok(a) && 0 <= a <= 0xFFFF
    ensures PcWord(st, op + mid, t).Ok? <==> SamePage(st.lc, a)
    ensures SamePage(st.lc, a) ==>
      PcWord(st, op + mid, t) == Ok(HexWord(st.lc) + HexWord(p * 4096 + q * 512 + a % 512) + Modification(st, "X9", t))
  {
    PageOk(st, t.address, a);
    Hex4Word(st.lc);
    if SamePage(st.lc, a) {
      var offset := PageOffset(st, t.address, a);
      Word439(Hex4(st.lc), op, p, mid, q, offset, a);
    }
  }

  /** The offset pageRangeAndOffset gives for a target on the page of LC + 1. */
  lemma PageOffset(st: State, address: string, a: int) returns (offset: string)
    requires 0 <= st.lc < 0x10000
    requires CanParseInt(address) && ParseAddress(address) == Ok(a) && 0 <= a <= 0xFFFF
    requires SamePage(st.lc, a)
    ensures PageRangeAndOffset(Hex4(st.lc), address) == Ok(offset) && IsBinaryField(offset, 9, a % 512)
  {
    PageOk(st, address, a);
    offset := PageRangeAndOffset(Hex4(st.lc), address).value;
  }

  // ---------------------------------------------------------------- the other operand loops

  /**
   * pos, in the index place of JSRR/JMPR or LDR/STR, is a number or an absolute symbol whose
   * index value is z.
   */
  predicate IndexOperand(ext: map<string, string>, env: Env, pos: string, z: int)
  {
    |pos| > 0 && pos[0] != 'R' && (pos[0] in "#x" || AbsoluteSymbolTable(ext, env, pos).Ok?) &&
    IndexToBinaryString(ValueToken(env, pos)).Ok? && ParseIndex(ValueToken(env, pos)).value == z
  }

  /** An index operand is the six bits of its value. */
  lemma IndexField(ext: map<string, string>, env: Env, at: nat, pos: string, z: int) returns (c: string)
    requires IndexOperand(ext, env, pos, z)
    ensures OperandField(IndexFields(at), ext, env, at, pos) == Ok(c) && IsBinaryField(c, 6, z)
  {
    c := IndexToBinaryString(ValueToken(env, pos)).value;
  }

  /** Two operands, taken one at a time. */
  lemma TwoSteps(ops: seq<string>)
    requires |ops| == 2
    ensures [] + [ops[0]] == [ops[0]] && [ops[0]] + [ops[1]] == ops
  {
  }

  /** The operand loop over two operands is their two fields side by side. */
  lemma FieldsOfTwo(form: FieldForm, ext: map<string, string>, env: Env, ops: seq<string>, f0: string, f1: string)
    requires |ops| == 2
    requires OperandField(form, ext, env, 0, ops[0]) == Ok(f0)
    requires OperandField(form, ext, env, 1, ops[1]) == Ok(f1)
    ensures FieldsOf(form, ext, env, ops) == Ok(f0 + f1)
  {
    TwoSteps(ops);
    EmptyPrefix(f0);
    FieldsOfStep(form, ext, env, [], ops[0], "", f0);
    FieldsOfStep(form, ext, env, [ops[0]], ops[1], f0, f1);
  }

  /** LDR/STR: opcode(4) DR or SR(3) BaseR(3) index6. */
  lemma IndexedEncoding(st: State, env: Env, op: string, o: int, ops: seq<string>, r0: int, r1: int, z: int)
    requires IsBinaryField(op, 4, o) && |ops| == 3
    requires NamesRegister(ops[0], r0) && NamesRegister(ops[1], r1) && IndexOperand(st.externals, env, ops[2], z)
    ensures LoopWord(st, env, IndexFields(2), op, ops, "") == Ok(Hex4(st.lc) + HexWord(o * 4096 + r0 * 512 + r1 * 64 + z))
  {
    var ext := st.externals;
    var a, b := TwoRegisters(IndexFields(2), ext, env, ops[0], ops[1]);
    var c := IndexField(ext, env, 2, ops[2], z);
    FieldsOfThree(IndexFields(2), ext, env, ops, a, b, c);
    LoopWordOf(st, env, IndexFields(2), op, ops, a + b + c, "");
    Joined(op, a, b, c);
    Word4336(Hex4(st.lc), op, o, a, r0, b, r1, c, z);
  }

  /** The fields of two register operands in first and second place of a loop other than ADD/AND's third. */
  lemma TwoRegisters(form: FieldForm, ext: map<string, string>, env: Env, p0: string, p1: string) returns (a: string, b: string)
    requires RegisterToken(p0) && RegisterToken(p1)
    ensures OperandField(form, ext, env, 0, p0) == Ok(a) && IsBinaryField(a, 3, RegisterNumber(p0))
    ensures OperandField(form, ext, env, 1, p1) == Ok(b) && IsBinaryField(b, 3, RegisterNumber(p1))
  {
    a := RegisterToBinaryString("#" + p0[1..]).value;
    b := RegisterToBinaryString("#" + p1[1..]).value;
    RegisterField(form, ext, env, 0, p0);
    RegisterField(form, ext, env, 1, p1);
  }

  /** JSRR/JMPR: opcode(4) L 0 0 BaseR(3) index6, L being 1 for JSRR and 0 for JMPR. */
  lemma JumpRegisterEncoding(st: State, env: Env, op: string, o: int, flags: string, l: int, ops: seq<string>, r: int, z: int)
    requires IsBinaryField(op, 4, o) && IsBinaryField(flags, 3, l) && |ops| == 2
    requires NamesRegister(ops[0], r) && IndexOperand(st.externals, env, ops[1], z)
    ensures LoopWord(st, env, IndexFields(1), op + flags, ops, "") == Ok(Hex4(st.lc) + HexWord(o * 4096 + l * 512 + r * 64 + z))
  {
    var ext := st.externals;
    RegisterField(IndexFields(1), ext, env, 0, ops[0]);
    var b := RegisterToBinaryString("#" + ops[0][1..]).value;
    var c := IndexField(ext, env, 1, ops[1], z);
    FieldsOfTwo(IndexFields(1), ext, env, ops, b, c);
    LoopWordOf(st, env, IndexFields(1), op + flags, ops, b + c, "");
    JoinedLead(op, flags, b, c);
    Word4336(Hex4(st.lc), op, o, flags, l, b, r, c, z);
  }

  lemma JoinedLead(op: string, flags: string, b: string, c: string)
    ensures op + flags + (b + c) + "" == op + flags + b + c
  {
  }

  /** NOT: opcode(4) DR(3) SR(3) and six zero bits. */
  lemma NotEncoding(st: State, env: Env, op: string, o: int, ops: seq<string>, r0: int, r1: int)
    requires IsBinaryField(op, 4, o) && |ops| == 2
    requires NamesRegister(ops[0], r0) && NamesRegister(ops[1], r1)
    ensures LoopWord(st, env, RegisterFields, op, ops, "000000") == Ok(Hex4(st.lc) + HexWord(o * 4096 + r0 * 512 + r1 * 64))
  {
    var ext := st.externals;
    var a, b := TwoRegisters(RegisterFields, ext, env, ops[0], ops[1]);
    FieldsOfTwo(RegisterFields, ext, env, ops, a, b);
    LoopWordOf(st, env, RegisterFields, op, ops, a + b, "000000");
    JoinedTrail(op, a, b, "000000");
    Word433(Hex4(st.lc), op, o, a, r0, b, r1);
  }

  /** Opcode(4) a(3) b(3) and six zero bits. */
  lemma Word433(lcAddress: string, op: string, o: int, a: string, x: int, b: string, y: int)
    requires IsBinaryField(op, 4, o) && IsBinaryField(a, 3, x) && IsBinaryField(b, 3, y)
    ensures Word(lcAddress, op + a + b + "000000") == Ok(lcAddress + HexWord(o * 4096 + x * 512 + y * 64))
  {
    ConstantBits();
    Word4336(lcAddress, op, o, a, x, b, y, "000000", 0);
  }

  lemma JoinedTrail(op: string, a: string, b: string, trail: string)
    ensures op + (a + b) + trail == op + a + b + trail
  {
  }

  // ---------------------------------------------------------------- TRAP, DBUG and RET

  /** pos, the operand of TRAP, is a number or an absolute symbol whose trap vector is v. */
  predicate TrapOperand(ext: map<string, string>, env: Env, pos: string, v: int)
  {
    |pos| > 0 && (pos[0] in "#x" || AbsoluteSymbolTable(ext, env, pos).Ok?) &&
    TrapToBinaryString(ValueToken(env, pos)).Ok? && ParseTrapvect(ValueToken(env, pos)).value == v
  }

  /** Opcode(4), four zero bits and an eight-bit vector. */
  lemma Word48(lcAddress: string, op: string, o: int, t: string, v: int)
    requires IsBinaryField(op, 4, o) && IsBinaryField(t, 8, v)
    ensures Word(lcAddress, op + "0000" + t + "") == Ok(lcAddress + HexWord(o * 4096 + v))
  {
    ConstantBits();
    PowFacts();
    FieldConcat(op, 4, o, "0000", 4, 0);
    FieldConcat(op + "0000", 8, o * 16, t, 8, v);
    assert op + "0000" + t + "" == op + "0000" + t;
  }

  /** TRAP: opcode(4) 0000 trapvect8. */
  lemma TrapEncoding(st: State, env: Env, op: string, o: int, ops: seq<string>, v: int)
    requires IsBinaryField(op, 4, o) && |ops| > 0 && TrapOperand(st.externals, env, ops[0], v)
    ensures TrapWord(st, env, op, ops) == Ok(Hex4(st.lc) + HexWord(o * 4096 + v))
  {
    var t := TrapToBinaryString(ValueToken(env, ops[0])).value;
    Word48(Hex4(st.lc), op, o, t, v);
  }

  /** TRAP refuses a relative, external or unknown symbol as its vector. */
  lemma TrapRefused(st: State, env: Env, op: string, ops: seq<string>)
    requires |ops| > 0 && |ops[0]| > 0 && ops[0][0] !in "#x" && AbsoluteSymbolTable(st.externals, env, ops[0]).Err?
    ensures TrapWord(st, env, op, ops) == Err(AbsoluteSymbolTable(st.externals, env, ops[0]).error)
  {
  }

  /** DBUG and RET: the opcode and twelve zero bits. */
  lemma FixedEncoding(lcAddress: string, op: string, o: int)
    requires IsBinaryField(op, 4, o)
    ensures Word(lcAddress, op + "000000000000") == Ok(lcAddress + HexWord(o * 4096))
  {
    ConstantBits();
    PowFacts();
    FieldConcat(op, 4, o, "000000000000", 12, 0);
  }

  // ---------------------------------------------------------------- LD and the branches

  /**
   * LD, LDI, LEA, ST, STI: opcode(4) DR or SR(3) and the page offset of the address or literal,
   * produced exactly when that lies on the page of LC + 1.
   */
  lemma LoadEncoding(st: State, env: Env, op: string, o: int, ops: seq<string>, r: int, t: Target, a: int)
    requires 0 <= st.lc < 0x10000 && IsBinaryField(op, 4, o) && |ops| >= 2 && NamesRegister(ops[0], r)
    requires LoadTarget(st.externals, env, ops[1]) == Ok(t)
    requires CanParseInt(t.address) && ParseAddress(t.address) == Ok(a) && 0 <= a <= 0xFFFF
    ensures LoadWord(st, env, op, ops).Ok? <==> SamePage(st.lc, a)
    ensures SamePage(st.lc, a) ==>
      LoadWord(st, env, op, ops) == Ok(HexWord(st.lc) + HexWord(o * 4096 + r * 512 + a % 512) + Modification(st, "X9", t))
  {
    RegisterField(RegisterFields, st.externals, env, 0, ops[0]);
    var reg := RegisterToBinaryString("#" + ops[0][1..]).value;
    assert LoadWord(st, env, op, ops) == PcWord(st, op + reg, t);
    PcWordSpec(st, op, o, reg, r, t, a);
  }

  /**
   * BR (all n z p combinations), JSR and JMP: opcode(4), the three flag bits and the page
   * offset of the target, produced exactly when the target lies on the page of LC + 1.
   */
  lemma BranchEncoding(st: State, env: Env, op: string, o: int, flags: string, n: int, ops: seq<string>, t: Target, a: int)
    requires 0 <= st.lc < 0x10000 && IsBinaryField(op, 4, o) && IsBinaryField(flags, 3, n) && |ops| >= 1
    requires OperandTarget(st.externals, env, ops[0]) == Ok(t)
    requires CanParseInt(t.address) && ParseAddress(t.address) == Ok(a) && 0 <= a <= 0xFFFF
    ensures BranchWord(st, env, op + flags, ops).Ok? <==> SamePage(st.lc, a)
    ensures SamePage(st.lc, a) ==>
      BranchWord(st, env, op + flags, ops) == Ok(HexWord(st.lc) + HexWord(o * 4096 + n * 512 + a % 512) + Modification(st, "X9", t))
  {
    PcWordSpec(st, op, o, flags, n, t, a);
  }
}
