// The records of the assembler's second pass (Passes/Pass2.java): what each source line writes
// to the object file (header, text, end and entry records) and how it moves the location
// counter, and the pass over all lines with the literal pool written just before the last one.

module Pass2Records {
  import opened Wrappers
  import opened JavaText
  import opened StringParser
  import AsmValidate
  import MOT = MachineOpTable
  import POT = PseudoOpTable
  import opened Pass2Words

  /** What one line leaves behind: the state after it and the text it writes to the object file. */
  datatype Step = Step(st: State, record: string)

  // ---------------------------------------------------------------- machine instructions

  /**
   * assembleMachineOpLine: `T`, the instruction's word and a newline; LC moves by the
   * instruction's size. A mnemonic missing from the table makes the switch fail.
   */
  function MachineLine(st: State, env: Env, opcode: string, operand: string): Result<Step, Pass2Error>
  {
    if opcode !in env.mot then Err(RuntimeFailure)
    else
      var info := env.mot[opcode];
      WordLine(st, info.size, MachineWord(st, env, info.ins, info.opcode, Split(operand, ',')))
  }

  /** The text record of an encoded instruction of the given size, or the encoder's error. */
  function WordLine(st: State, size: int, word: Result<string, Pass2Error>): Result<Step, Pass2Error>
  {
    match word
    case Err(e) => Err(e)
    case Ok(w) => Ok(Step(Advance(st, size), "T" + w + "\n"))
  }

  /** A one-word instruction: `T`, LC and the word, with LC moved on by one. */
  lemma OneWordLine(st: State, b: string)
    requires 0 <= st.lc < 0x10000
    ensures WordLine(st, 1, Ok(Hex4(st.lc) + b)) == Ok(Step(Moved(st, 1), "T" + HexWord(st.lc) + b + "\n"))
  {
    Hex4Word(st.lc);
    AdvanceMovesOn(st, 1);
    assert "T" + (Hex4(st.lc) + b) + "\n" == "T" + HexWord(st.lc) + b + "\n";
  }

  /** Three operands naming registers r0, r1 and r2. */
  predicate ThreeRegisters(ops: seq<string>, r0: int, r1: int, r2: int)
  {
    |ops| == 3 && NamesRegister(ops[0], r0) && NamesRegister(ops[1], r1) && NamesRegister(ops[2], r2)
  }

  /**
   * ADD and AND with three registers: one text record `T<LC><word>` whose word is the table's
   * opcode, DR, SR1, 000 and SR2; LC moves on by one and nothing else changes.
   */
  lemma ArithmeticLine(st: State, env: Env, opcode: string, operand: string, info: MOT.Info, r0: nat, r1: nat, r2: nat)
    requires opcode in env.mot && env.mot[opcode] == info && info.size == 1 && 0 <= st.lc < 0x10000
    requires info.ins in {MOT.ADD, MOT.AND} && 0 <= info.opcode <= 15 && ThreeRegisters(Split(operand, ','), r0, r1, r2)
    ensures MachineLine(st, env, opcode, operand) ==
      Ok(Step(Moved(st, 1), "T" + HexWord(st.lc) + HexWord(info.opcode * 4096 + r0 * 512 + r1 * 64 + r2) + "\n"))
  {
    ArithmeticMachineWord(st, env, info.ins, info.opcode, Split(operand, ','), r0, r1, r2);
    OneWordLine(st, HexWord(info.opcode * 4096 + r0 * 512 + r1 * 64 + r2));
  }

  /** The word of ADD or AND with three registers: opcode, DR, SR1, 000 and SR2. */
  lemma ArithmeticMachineWord(st: State, env: Env, ins: MOT.Ins, value: int, ops: seq<string>, r0: nat, r1: nat, r2: nat)
    requires ins in {MOT.ADD, MOT.AND} && 0 <= value <= 15 && ThreeRegisters(ops, r0, r1, r2)
    ensures MachineWord(st, env, ins, value, ops) == Ok(Hex4(st.lc) + HexWord(value * 4096 + r0 * 512 + r1 * 64 + r2))
  {
    var lead := OpcodeBinaryString(value) + FlagBits(ins);
    MachineWordLoop(st, env, ins, value, ops, ArithmeticFields);
    ArithmeticLead(ins, value);
    ArithmeticRegisters(st, env, lead, value, ops, r0, r1, r2);
  }

  /** ADD and AND have no flag or trailing bits. */
  lemma ArithmeticLead(ins: MOT.Ins, value: int)
    requires ins in {MOT.ADD, MOT.AND} && 0 <= value <= 15
    ensures LoopForm(ins) == Some(ArithmeticFields) && TrailBits(ins) == ""
    ensures IsBinaryField(OpcodeBinaryString(value) + FlagBits(ins), 4, value)
  {
    assert OpcodeBinaryString(value) + FlagBits(ins) == OpcodeBinaryString(value);
  }

  // ---------------------------------------------------------------- .BLKW, .END, .EQU

  /** blkwOp: no record; LC moves by the block length (a number, or an absolute symbol's value). */
  function Blkw(st: State, env: Env, operand: string): Result<Step, Pass2Error>
  {
    if |operand| == 0 then Err(RuntimeFailure)
    else
      var blockVal :-
        if operand[0] == 'x' || operand[0] == '#' then Ok(POT.BlockLength(operand))
        else
          match AbsoluteSymbolTable(st.externals, env, operand)
          case Err(e) => Err(e)
          case Ok(_) => Ok(POT.BlockLength(env.symbols[operand].value));
      if blockVal < 0 then Err(InvalidBlockLength)
      else Ok(Step(Advance(st, blockVal), ""))
  }

  /** The text a `.BLKW` length is read from: the operand itself, or the absolute symbol's value. */
  function BlockSource(env: Env, operand: string): string
    requires |operand| > 0
  {
    if operand[0] == 'x' || operand[0] == '#' then operand
    else if operand in env.symbols then env.symbols[operand].value
    else ""
  }

  /**
   * `.BLKW n` reserves n words: it is accepted exactly when n is a number or absolute symbol
   * whose block length is at least one (a value in [1, 65535], as the pseudo-op table reads it),
   * writes nothing, and moves LC on by n modulo 2^16.
   */
  lemma BlkwSpec(st: State, env: Env, operand: string)
    requires 0 <= st.lc < 0x10000 && |operand| > 0
    ensures var n := POT.BlockLength(BlockSource(env, operand));
      Blkw(st, env, operand).Ok? <==> (operand[0] in "x#" || AbsoluteSymbolTable(st.externals, env, operand).Ok?) && n >= 1
    ensures var n := POT.BlockLength(BlockSource(env, operand));
      (operand[0] in "x#" || AbsoluteSymbolTable(st.externals, env, operand).Ok?) && n >= 1 ==>
        Blkw(st, env, operand) == Ok(Step(Moved(st, n), ""))
  {
    if POT.BlockLength(BlockSource(env, operand)) >= 1 {
      AdvanceMovesOn(st, POT.BlockLength(BlockSource(env, operand)));
    }
  }

  /**
   * endOp: `E` and the start address, the initial address when the operand is empty, otherwise
   * the operand's address (a number, or what the symbol resolves to).
   */
  function End(st: State, env: Env, operand: string): Result<string, Pass2Error>
  {
    if |operand| == 0 then Ok("E" + st.initialAddress)
    else
      var t :- OperandTarget(st.externals, env, operand);
      var hex :- AddressToHex(t.address);
      Ok("E" + hex)
  }

  /**
   * The end record names the start: the origin when no operand is given, otherwise four hex
   * digits of the number or of the address the symbol resolves to; an unusable address is refused.
   */
  lemma EndSpec(st: State, env: Env, operand: string)
    ensures |operand| == 0 ==> End(st, env, operand) == Ok("E" + st.initialAddress)
    ensures |operand| > 0 && operand[0] in "x#" ==>
      (End(st, env, operand).Ok? <==> AddressToHex(operand).Ok?) &&
      (End(st, env, operand).Ok? ==> End(st, env, operand).value == "E" + HexWord(ParseAddress(operand).value))
    ensures |operand| > 0 && operand[0] !in "x#" && ResolveSymbol(st.externals, env, operand).Ok? ==>
      var t := ResolveSymbol(st.externals, env, operand).value;
      (End(st, env, operand).Ok? <==> AddressToHex(t.address).Ok?) &&
      (End(st, env, operand).Ok? ==> End(st, env, operand).value == "E" + HexWord(ParseAddress(t.address).value))
    ensures |operand| > 0 && operand[0] !in "x#" && ResolveSymbol(st.externals, env, operand).Err? ==>
      End(st, env, operand) == Err(ResolveSymbol(st.externals, env, operand).error)
  {
  }

  /** equOp: no record; a number must parse, a symbol must be known. */
  function Equ(st: State, env: Env, operand: string): Result<(), Pass2Error>
  {
    if |operand| == 0 then Err(RuntimeFailure)
    else if operand[0] == 'x' || operand[0] == '#' then
      if !CanParseInt(operand) then Err(InvalidValue(EquValue)) else Ok(())
    else
      match IsRelativeSymbol(st.externals, env, operand)
      case Err(e) => Err(e)
      case Ok(_) => Ok(())
  }

  /** `.EQU` only checks: a number that parses, or a symbol that is defined or external. */
  lemma EquSpec(st: State, env: Env, operand: string)
    requires |operand| > 0
    ensures Equ(st, env, operand).Ok? <==>
      if operand[0] in "x#" then CanParseInt(operand)
      else operand in env.symbols || operand in st.externals
  {
  }

  // ---------------------------------------------------------------- .ENT and .EXT

  /** One `.ENT` name's record: `N<name>=<its value without the leading x or #>`. */
  function EntRecord(ext: map<string, string>, env: Env, pos: string): Result<string, Pass2Error>
  {
    var relative :- IsRelativeSymbol(ext, env, pos);
    if relative != 1 then Err(NotRelative(pos))
    else
      var val := env.symbols[pos].value;
      if |val| == 0 then Err(RuntimeFailure)
      else Ok("N" + pos + "=" + val[1..] + "\n")
  }

  /** The records of entOp's loop over the names, stopping at the first refused one. */
  function EntRecords(ext: map<string, string>, env: Env, ops: seq<string>): Result<string, Pass2Error>
  {
    if |ops| == 0 then Ok("")
    else
      var prev :- EntRecords(ext, env, ops[..|ops| - 1]);
      var rec :- EntRecord(ext, env, ops[|ops| - 1]);
      Ok(prev + rec)
  }

  /** entOp: at most five names. */
  function Ent(st: State, env: Env, ops: seq<string>): Result<string, Pass2Error>
  {
    if |ops| > 5 then Err(TooManyEntries) else EntRecords(st.externals, env, ops)
  }

  /** A name `.ENT` can export: a relative symbol of this segment, not an external, with a value. */
  predicate Exportable(ext: map<string, string>, env: Env, pos: string)
  {
    pos !in ext && pos in env.symbols && env.symbols[pos].cls == "R" && |env.symbols[pos].value| > 0
  }

  /**
   * The entry records are accepted exactly when every name is exportable, and then hold one
   * `N<name>=<value>` line per name, in order.
   */
  lemma {:induction false} EntRecordsSpec(ext: map<string, string>, env: Env, ops: seq<string>)
    ensures EntRecords(ext, env, ops).Ok? <==> forall i | 0 <= i < |ops| :: Exportable(ext, env, ops[i])
    ensures EntRecords(ext, env, ops).Ok? ==>
      |EntRecords(ext, env, ops).value| == EntLength(env, ops) &&
      forall i | 0 <= i < |ops| ::
        EntRecord(ext, env, ops[i]) == Ok("N" + ops[i] + "=" + env.symbols[ops[i]].value[1..] + "\n")
  {
    if |ops| > 0 {
      var init := ops[..|ops| - 1];
      EntRecordsSpec(ext, env, init);
      assert forall i | 0 <= i < |init| :: init[i] == ops[i];
    }
  }

  /** entOp stops at the first refused name: a failing prefix makes the whole loop fail the same way. */
  lemma {:induction false} EntRecordsFailsAt(ext: map<string, string>, env: Env, ops: seq<string>, k: nat)
    requires k <= |ops| && EntRecords(ext, env, ops[..k]).Err?
    ensures EntRecords(ext, env, ops) == EntRecords(ext, env, ops[..k])
    decreases |ops| - k
  {
    if k < |ops| {
      assert ops[..k + 1][..k] == ops[..k];
      EntRecordsFailsAt(ext, env, ops, k + 1);
    } else {
      assert ops[..k] == ops;
    }
  }

  /** The total length of the entry records of ops. */
  function EntLength(env: Env, ops: seq<string>): nat
  {
    if |ops| == 0 then 0
    else
      var pos := ops[|ops| - 1];
      var rec := if pos in env.symbols && |env.symbols[pos].value| > 0 then |env.symbols[pos].value| - 1 else 0;
      EntLength(env, ops[..|ops| - 1]) + |pos| + rec + 3
  }

  /** The table after extOp's loop: each name entered with the temporary address x0000. */
  function ExtTable(ext: map<string, string>, env: Env, ops: seq<string>): Result<map<string, string>, Pass2Error>
  {
    if |ops| == 0 then Ok(ext)
    else
      var prev :- ExtTable(ext, env, ops[..|ops| - 1]);
      var pos := ops[|ops| - 1];
      if pos in env.symbols then Err(ExternalAlreadyDefined(pos))
      else Ok(prev[pos := "x0000"])
  }

  /** extOp: at most five names; no record. */
  function Ext(st: State, env: Env, ops: seq<string>): Result<Step, Pass2Error>
  {
    if |ops| > 5 then Err(TooManyExternals)
    else
      var table :- ExtTable(st.externals, env, ops);
      Ok(Step(st.(externals := table), ""))
  }

  /**
   * `.EXT` is accepted exactly when none of its names is a symbol of the program; then every
   * name maps to x0000 and every other entry stays as it was.
   */
  lemma {:induction false} ExtTableSpec(ext: map<string, string>, env: Env, ops: seq<string>)
    ensures ExtTable(ext, env, ops).Ok? <==> forall i | 0 <= i < |ops| :: ops[i] !in env.symbols
    ensures ExtTable(ext, env, ops).Ok? ==>
      var t := ExtTable(ext, env, ops).value;
      (forall k :: k in t <==> k in ext || k in ops) &&
      (forall k | k in ops :: t[k] == "x0000") &&
      (forall k | k in ext && k !in ops :: t[k] == ext[k])
  {
    if |ops| > 0 {
      var init := ops[..|ops| - 1];
      ExtTableSpec(ext, env, init);
      assert forall i | 0 <= i < |init| :: init[i] == ops[i];
      assert forall k :: k in ops <==> k in init || k == ops[|ops| - 1] by {
        assert ops == init + [ops[|ops| - 1]];
      }
    }
  }

  /** extOp stops at the first name already in the symbol table, whatever follows it. */
  lemma {:induction false} ExtTableFailsAt(ext: map<string, string>, env: Env, ops: seq<string>, k: nat)
    requires k <= |ops| && ExtTable(ext, env, ops[..k]).Err?
    ensures ExtTable(ext, env, ops) == ExtTable(ext, env, ops[..k])
    decreases |ops| - k
  {
    if k < |ops| {
      assert ops[..k + 1][..k] == ops[..k];
      ExtTableFailsAt(ext, env, ops, k + 1);
    } else {
      assert ops[..k] == ops;
    }
  }

  // ---------------------------------------------------------------- .FILL

  /**
   * fillOp: `T`, the address LC gave, the value's low 16 bits and, in a relocatable segment,
   * the `X16` suffix of a relative or external symbol; LC moves on by one.
   */
  function Fill(st: State, env: Env, operand: string): Result<Step, Pass2Error>
  {
    var t :- OperandTarget(st.externals, env, operand);
    var hex :- FillHexString(t.address);
    Ok(Step(Advance(st, 1), "T" + Hex4(st.lc) + hex + Modification(st, "X16", t) + "\n"))
  }

  /**
   * A `.FILL` whose operand stands for target t (a number stands for itself, a symbol for what it
   * resolves to) is accepted exactly when t's address is a usable value; it then writes that
   * value's low 16 bits at LC, with t's `X16` suffix, and LC moves on by one.
   */
  lemma FillSpec(st: State, env: Env, operand: string, t: Target)
    requires 0 <= st.lc < 0x10000 && OperandTarget(st.externals, env, operand) == Ok(t)
    ensures Fill(st, env, operand).Ok? <==> FillHexString(t.address).Ok?
    ensures FillHexString(t.address).Ok? ==>
      Fill(st, env, operand) == Ok(Step(Moved(st, 1),
        "T" + HexWord(st.lc) + HexWord(ParseUnionRange(t.address).value % 0x10000) + Modification(st, "X16", t) + "\n"))
  {
    AdvanceMovesOn(st, 1);
    Hex4Word(st.lc);
  }

  /** A number (`#` or `x`) stands for itself and takes no suffix. */
  lemma FillNumber(st: State, env: Env, operand: string)
    requires |operand| > 0 && operand[0] in "x#"
    ensures OperandTarget(st.externals, env, operand) == Ok(Target(operand, 0, operand))
    ensures Modification(st, "X16", Target(operand, 0, operand)) == ""
  {
  }

  // ---------------------------------------------------------------- .ORIG

  /** origOp's loop: spaces appended to the segment name until it is six characters long. */
  function PadRight(s: string, w: nat): (r: string)
    ensures |r| == if |s| < w then w else |s|
    ensures r[..|s|] == s && forall i | |s| <= i < |r| :: r[i] == ' '
    decreases w - |s|
  {
    if |s| >= w then s
    else
      var r := PadRight(s + " ", w);
      assert r[..|s|] == (s + " ")[..|s|];
      r
  }

  /**
   * origOp: `H`, the segment name padded to six, the origin (0000 for a relocatable segment,
   * which the empty operand makes it) and the segment length. An absolute origin becomes LC
   * and the initial address. A segment over xFFFF, or a relocatable one over a page, is refused.
   */
  function Orig(st: State, env: Env, symbol: string, operand: string): Result<Step, Pass2Error>
  {
    var seg := PadRight(symbol, 6);
    var placed :-
      if |operand| < 1 then Ok((st.(segName := seg, isRelocatable := true), "0000"))
      else
        match AddressToHex(operand)
        case Err(e) => Err(e)
        case Ok(origin) =>
          match ParseUnsignedInt(origin, 16)
          case None => Err(RuntimeFailure)
          case Some(n) => Ok((st.(segName := seg, lc := WrapInt(n), initialAddress := origin), origin));
    if env.segmentSize > 0xFFFF then Err(SegmentTooLarge)
    else if placed.0.isRelocatable && env.segmentSize > 512 then Err(SegmentExceedsPage)
    else Ok(Step(placed.0, "H" + seg + placed.1 + Hex4(env.segmentSize) + "\n"))
  }

  /** parseUnsignedInt reads a four-digit word back as its value. */
  lemma ParseUnsignedHexWord(v: nat)
    requires v < 0x10000
    ensures ParseUnsignedInt(HexWord(v), 16) == Some(v)
  {
    HexWordValue(v);
    assert HexWord(v)[0] != '-' && HexWord(v)[0] != '+';
  }

  /**
   * The header record: `H`, the name padded to six, the origin and the four-digit length.
   * An empty operand makes the segment relocatable with origin 0000 and leaves LC alone; an
   * address makes it LC and the initial address. Sizes over xFFFF, and relocatable sizes over
   * 512, are refused.
   */
  lemma OrigSpec(st: State, env: Env, symbol: string, operand: string)
    requires 0 <= env.segmentSize
    ensures var o := Orig(st, env, symbol, operand);
      o.Ok? <==>
        (|operand| == 0 || AddressToHex(operand).Ok?) && env.segmentSize <= 0xFFFF &&
        !((|operand| == 0 || st.isRelocatable) && env.segmentSize > 512)
    ensures var o := Orig(st, env, symbol, operand);
      o.Ok? && |operand| == 0 ==>
        o.value == Step(st.(segName := PadRight(symbol, 6), isRelocatable := true),
                        "H" + PadRight(symbol, 6) + "0000" + HexWord(env.segmentSize) + "\n")
    ensures var o := Orig(st, env, symbol, operand);
      o.Ok? && |operand| > 0 ==>
        var a := ParseAddress(operand).value;
        0 <= a <= 0xFFFF &&
        o.value == Step(st.(segName := PadRight(symbol, 6), lc := a, initialAddress := HexWord(a)),
                        "H" + PadRight(symbol, 6) + HexWord(a) + HexWord(env.segmentSize) + "\n")
  {
    if env.segmentSize <= 0xFFFF {
      Hex4Word(env.segmentSize);
    }
    if |operand| > 0 && AddressToHex(operand).Ok? {
      var a := ParseAddress(operand).value;
      AddressRange(operand);
      ParseUnsignedHexWord(a);
    }
  }

  /** An address addressToHex accepts lies in [0, xFFFF]. */
  lemma AddressRange(operand: string)
    requires AddressToHex(operand).Ok?
    ensures 0 <= ParseAddress(operand).value <= 0xFFFF
  {
  }

  // ---------------------------------------------------------------- .STRZ

  /** The text records of strzOp's loop over s: one word per character, LC moving by one each time. */
  function StrzText(st: State, s: string): Step
  {
    if |s| == 0 then Step(st, "")
    else
      var prev := StrzText(st, s[..|s| - 1]);
      Step(Advance(prev.st, 1), prev.record + "T" + Hex4(prev.st.lc) + Hex4(s[|s| - 1] as int) + "\n")
  }

  /** One more character: its record follows the others, at the address they leave. */
  lemma StrzTextNext(st: State, s: string, i: nat)
    requires i < |s|
    ensures var prev := StrzText(st, s[..i]);
      StrzText(st, s[..i + 1]) == Step(Advance(prev.st, 1), prev.record + "T" + Hex4(prev.st.lc) + Hex4(s[i] as int) + "\n")
  {
    assert s[..i + 1][..i] == s[..i];
  }

  /** strzOp: the characters' records and then the terminating zero word. */
  function Strz(st: State, operand: string): Step
  {
    var chars := StrzText(st, operand);
    Step(Advance(chars.st, 1), chars.record + "T" + Hex4(chars.st.lc) + "0000" + "\n")
  }

  /** A string's characters all fit a 16-bit word. */
  predicate Chars16(s: string)
  {
    forall i | 0 <= i < |s| :: s[i] as int < 0x10000
  }

  /** The record of the k-th character of s, the string starting at st's LC. */
  function CharRecord(st: State, s: string, k: nat): string
    requires k < |s|
  {
    "T" + Hex4(Moved(st, k).lc) + Hex4(s[k] as int) + "\n"
  }

  /** The records of s's characters, one after another. */
  function CharRecords(st: State, s: string): string
  {
    if |s| == 0 then "" else CharRecords(st, s[..|s| - 1]) + CharRecord(st, s, |s| - 1)
  }

  /** strzOp's loop writes the character records and leaves LC |s| words further on. */
  lemma {:induction false} StrzTextRecords(st: State, s: string)
    requires 0 <= st.lc < 0x10000
    ensures StrzText(st, s) == Step(Moved(st, |s|), CharRecords(st, s))
  {
    if |s| > 0 {
      StrzTextRecords(st, s[..|s| - 1]);
      StrzStep(st, s, StrzText(st, s[..|s| - 1]));
    }
  }

  /** One turn of strzOp's loop: the last character's record and the move of LC by one. */
  lemma StrzStep(st: State, s: string, prev: Step)
    requires 0 <= st.lc < 0x10000 && |s| > 0
    requires prev == Step(Moved(st, |s[..|s| - 1]|), CharRecords(st, s[..|s| - 1]))
    ensures Step(Advance(prev.st, 1), prev.record + "T" + Hex4(prev.st.lc) + Hex4(s[|s| - 1] as int) + "\n") ==
      Step(Moved(st, |s|), CharRecords(st, s))
  {
    InitLength(s);
    AdvanceMoved(st, |s| - 1);
    AppendRecord(prev.record, "T", Hex4(prev.st.lc), Hex4(s[|s| - 1] as int), "\n");
  }

  /** All but the last element are one fewer. */
  lemma InitLength(s: string)
    requires |s| > 0
    ensures |s[..|s| - 1]| == |s| - 1
  {
  }

  /** LC counted on by one after n words is LC counted on by n + 1. */
  lemma AdvanceMoved(st: State, n: nat)
    requires 0 <= st.lc < 0x10000
    ensures Advance(Moved(st, n), 1) == Moved(st, n + 1)
  {
    AdvanceMovesOn(Moved(st, n), 1);
    WrapStep(st.lc + n);
  }

  /** String concatenation regrouped: a record of four parts appended after the text so far. */
  lemma AppendRecord(prev: string, a: string, b: string, c: string, d: string)
    ensures prev + a + b + c + d == prev + (a + b + c + d)
  {
  }

  /** Text written after text already written extends it: the grouping does not matter. */
  lemma Appended(written: string, a: string, b: string)
    ensures written + a + b == written + (a + b)
  {
  }

  /**
   * For a string of 16-bit characters the k-th record is `T`, the address LC + k (modulo 2^16)
   * and the character's code, each as four upper-case hex digits.
   */
  lemma CharRecordWord(st: State, s: string, k: nat)
    requires 0 <= st.lc < 0x10000 && Chars16(s) && k < |s|
    ensures CharRecord(st, s, k) == "T" + HexWord(Moved(st, k).lc) + HexWord(s[k] as int) + "\n"
  {
    Hex4Word(Moved(st, k).lc);
    Hex4Word(s[k] as int);
  }

  /** Each character record is ten characters long. */
  lemma CharRecordLength(st: State, s: string, k: nat)
    requires 0 <= st.lc < 0x10000 && Chars16(s) && k < |s|
    ensures |CharRecord(st, s, k)| == 10
  {
    CharRecordWord(st, s, k);
    HexWordLength(Moved(st, k).lc);
    HexWordLength(s[k] as int);
  }

  /** Ten characters per record: the k-th slice of the text is the k-th character's record. */
  lemma {:induction false} CharRecordsSlices(st: State, s: string)
    requires 0 <= st.lc < 0x10000 && Chars16(s)
    ensures |CharRecords(st, s)| == 10 * |s|
    ensures forall k | 0 <= k < |s| :: CharRecords(st, s)[10 * k .. 10 * k + 10] == CharRecord(st, s, k)
  {
    if |s| > 0 {
      var init := s[..|s| - 1];
      assert Chars16(init);
      CharRecordsSlices(st, init);
      CharRecordLength(st, s, |s| - 1);
      forall k | 0 <= k < |s|
        ensures CharRecords(st, s)[10 * k .. 10 * k + 10] == CharRecord(st, s, k)
      {
        TenSlice(CharRecords(st, init), CharRecord(st, s, |s| - 1), |init|, k);
        if k < |init| {
          assert CharRecord(st, init, k) == CharRecord(st, s, k);
        }
      }
    }
  }

  /** The k-th ten-character slice of n records followed by one more. */
  lemma TenSlice(a: string, b: string, n: nat, k: nat)
    requires |a| == 10 * n && |b| == 10 && k <= n
    ensures |a + b| == 10 * (n + 1)
    ensures k < n ==> (a + b)[10 * k .. 10 * k + 10] == a[10 * k .. 10 * k + 10]
    ensures k == n ==> (a + b)[10 * k .. 10 * k + 10] == b
  {
  }

  /**
   * `.STRZ s` writes |s| + 1 words: the characters' records and then a zero word at LC + |s|;
   * LC moves on by |s| + 1.
   */
  lemma StrzSpec(st: State, s: string)
    requires 0 <= st.lc < 0x10000
    ensures Strz(st, s) == Step(Moved(st, |s| + 1), CharRecords(st, s) + "T" + HexWord(Moved(st, |s|).lc) + "0000" + "\n")
  {
    StrzTextRecords(st, s);
    AdvanceMoved(st, |s|);
    Hex4Word(Moved(st, |s|).lc);
  }

  /** Counting on by one from a 16-bit address wraps the same way as counting from the start. */
  lemma WrapStep(v: int)
    requires 0 <= v
    ensures (v % 0x10000 + 1) % 0x10000 == (v + 1) % 0x10000
  {
    var q := v / 0x10000;
    assert v == q * 0x10000 + v % 0x10000;
    if v % 0x10000 == 0xFFFF {
      assert v + 1 == (q + 1) * 0x10000;
    } else {
      assert v + 1 == q * 0x10000 + (v % 0x10000 + 1);
    }
  }

  // ---------------------------------------------------------------- the literal pool

  /** literalObjectFile: `T`, the literal's address and its value as four hex digits. */
  function LiteralRecord(env: Env, literal: string): Result<string, Pass2Error>
  {
    var address :- LiteralValue(env.literals, literal);
    var litVal :- ParseLiteralString(literal);
    match litVal
    case None => Err(InvalidLiteral)
    case Some(v) => Ok("T" + address[1..] + v + "\n")
  }

  /**
   * A literal of the table placed in the 16-bit space is written as `T`, its address and the
   * low 16 bits of its value.
   */
  lemma LiteralRecordSpec(env: Env, literal: string)
    requires literal in env.literals && IsLiteral(literal) && 0 <= env.literals[literal] < 0x10000
    ensures LiteralRecord(env, literal) ==
      Ok("T" + HexWord(env.literals[literal]) + Digits(ParseNumber(literal).value % 0x10000, 16, 4) + "\n")
  {
    var address := LiteralValue(env.literals, literal).value;
    assert address[1..] == HexWord(env.literals[literal]);
  }

  /** The literal records in the table's iteration order, stopping at the first that fails. */
  function LiteralRecords(env: Env, order: seq<string>): Result<string, Pass2Error>
  {
    if |order| == 0 then Ok("")
    else
      var prev :- LiteralRecords(env, order[..|order| - 1]);
      var rec :- LiteralRecord(env, order[|order| - 1]);
      Ok(prev + rec)
  }

  /** The pool stops at the first literal whose record fails, whatever follows it. */
  lemma {:induction false} LiteralRecordsFailsAt(env: Env, order: seq<string>, k: nat)
    requires k <= |order| && LiteralRecords(env, order[..k]).Err?
    ensures LiteralRecords(env, order) == LiteralRecords(env, order[..k])
    decreases |order| - k
  {
    if k < |order| {
      assert order[..k + 1][..k] == order[..k];
      LiteralRecordsFailsAt(env, order, k + 1);
    } else {
      assert order[..k] == order;
    }
  }

  /** order lists every key of the literal table exactly once. */
  ghost predicate IsOrderOf(order: seq<string>, table: LitTable)
  {
    multiset(order) == multiset(table.Keys)
  }

  /**
   * With every literal's record ten characters long, the pool is those records one after
   * another in iteration order: the i-th ten characters are the i-th literal's record.
   */
  lemma {:induction false} LiteralRecordsSpec(env: Env, order: seq<string>)
    requires forall i | 0 <= i < |order| :: LiteralRecord(env, order[i]).Ok? && |LiteralRecord(env, order[i]).value| == 10
    ensures LiteralRecords(env, order).Ok? && |LiteralRecords(env, order).value| == 10 * |order|
    ensures forall i | 0 <= i < |order| ::
      LiteralRecords(env, order).value[10 * i .. 10 * i + 10] == LiteralRecord(env, order[i]).value
  {
    if |order| > 0 {
      var init := order[..|order| - 1];
      assert forall i | 0 <= i < |init| :: order[i] == init[i];
      LiteralRecordsSpec(env, init);
      forall i | 0 <= i < |order|
        ensures LiteralRecords(env, order).value[10 * i .. 10 * i + 10] == LiteralRecord(env, order[i]).value
      {
        TenSlice(LiteralRecords(env, init).value, LiteralRecord(env, order[|order| - 1]).value, |init|, i);
      }
    }
  }

  /** A literal of the table placed in the 16-bit space has a ten-character record. */
  lemma LiteralRecordLength(env: Env, literal: string)
    requires literal in env.literals && IsLiteral(literal) && 0 <= env.literals[literal] < 0x10000
    ensures LiteralRecord(env, literal).Ok? && |LiteralRecord(env, literal).value| == 10
  {
    LiteralRecordSpec(env, literal);
    HexWordValue(env.literals[literal]);
    DigitsLength(ParseNumber(literal).value % 0x10000);
  }

  /**
   * parseInput's literal loop visits every entry of the table once. With every literal valid
   * and placed in the 16-bit space, the pool holds one ten-character record per literal of the
   * table, the i-th being the record of the i-th literal visited.
   */
  lemma LiteralPoolComplete(env: Env, order: seq<string>)
    requires IsOrderOf(order, env.literals)
    requires forall k | k in env.literals :: IsLiteral(k) && 0 <= env.literals[k] < 0x10000
    ensures |order| == |env.literals|
    ensures LiteralRecords(env, order).Ok? && |LiteralRecords(env, order).value| == 10 * |env.literals|
    ensures forall i | 0 <= i < |order| ::
      order[i] in env.literals && LiteralRecord(env, order[i]).Ok? &&
      LiteralRecords(env, order).value[10 * i .. 10 * i + 10] == LiteralRecord(env, order[i]).value
  {
    forall i | 0 <= i < |order|
      ensures LiteralRecord(env, order[i]).Ok? && |LiteralRecord(env, order[i]).value| == 10
    {
      assert order[i] in multiset(order);
      LiteralRecordLength(env, order[i]);
    }
    LiteralRecordsSpec(env, order);
    assert |order| == |multiset(order)| == |multiset(env.literals.Keys)| == |env.literals.Keys|;
  }

  /** Four digits are four characters. */
  lemma DigitsLength(v: nat)
    ensures |Digits(v, 16, 4)| == 4
  {
  }

  // ---------------------------------------------------------------- pseudo-ops and lines

  /** assemblePseudoOpLine: the directive's record, or none, and its effect on the state. */
  function PseudoLine(st: State, env: Env, symbol: string, opcode: string, operand: string): Result<Step, Pass2Error>
    requires opcode in env.pot
  {
    match env.pot[opcode].ins
    case BLKW => Blkw(st, env, operand)
    case END => var e :- End(st, env, operand); Ok(Step(st, e))
    case ENT => var n :- Ent(st, env, Split(operand, ',')); Ok(Step(st, n))
    case EXT => Ext(st, env, Split(operand, ','))
    case EQU => var _ :- Equ(st, env, operand); Ok(Step(st, ""))
    case FILL => Fill(st, env, operand)
    case ORIG => Orig(st, env, symbol, operand)
    case STRZ => Ok(Strz(st, operand))
  }

  /** One line of parseInput: a directive of the pseudo-op table, otherwise a machine instruction. */
  function LineStep(st: State, env: Env, l: AsmValidate.Line): Result<Step, Pass2Error>
  {
    if l.operation in env.pot then PseudoLine(st, env, l.symbol, l.operation, l.operands)
    else MachineLine(st, env, l.operation, l.operands)
  }

  /** Line k's records and the state after it, from the state the first k lines leave. */
  function LineAfter(st: State, env: Env, lines: seq<AsmValidate.Line>, order: seq<string>, k: nat): Result<Step, Pass2Error>
    requires k < |lines|
    decreases k, 1
  {
    var before :- Assembled(st, env, lines, order, k);
    LineStep(before.st, env, lines[k])
  }

  /** What line k adds to the object file: the literal pool comes first when it is the last line. */
  function Turn(st: State, env: Env, lines: seq<AsmValidate.Line>, order: seq<string>, k: nat): Result<Step, Pass2Error>
    requires k < |lines|
    decreases k, 2
  {
    if k == |lines| - 1 then
      var lits :- LiteralRecords(env, order);
      var cur :- LineAfter(st, env, lines, order, k);
      Ok(Step(cur.st, lits + cur.record))
    else
      LineAfter(st, env, lines, order, k)
  }

  /**
   * parseInput over the first n lines: each line's records in order, and the literal pool
   * (in the table's iteration order) just before the last line's.
   */
  function Assembled(st: State, env: Env, lines: seq<AsmValidate.Line>, order: seq<string>, n: nat): Result<Step, Pass2Error>
    requires n <= |lines|
    decreases n, 0
  {
    if n == 0 then Ok(Step(st, ""))
    else
      var prev :- Assembled(st, env, lines, order, n - 1);
      var cur :- Turn(st, env, lines, order, n - 1);
      Ok(Step(cur.st, prev.record + cur.record))
  }

  /** A failure stops the pass: once a prefix of the lines fails, the whole run fails the same way. */
  lemma {:induction false} AssembledFailsAt(st: State, env: Env, lines: seq<AsmValidate.Line>, order: seq<string>, k: nat)
    requires k <= |lines| && Assembled(st, env, lines, order, k).Err?
    ensures Assembled(st, env, lines, order, |lines|) == Assembled(st, env, lines, order, k)
    decreases |lines| - k
  {
    if k < |lines| {
      AssembledFailsAt(st, env, lines, order, k + 1);
    }
  }
}
