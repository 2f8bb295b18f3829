// The assembler's second pass as the object it is (Passes/Pass2.java): the location counter,
// the relocation flag, the initial address, the temporary external table and the segment name
// that its methods update in place, and the object file it writes line by line. Every method
// is proved against the record functions of Pass2Records.

module AsmPass2 {
  import opened Wrappers
  import opened JavaText
  import opened StringParser
  import AsmValidate
  import POT = PseudoOpTable
  import opened Pass2Words
  import opened Pass2Records

  /**
   * The hex rendering used for addresses, characters and the segment length: the value's
   * upper-case hex digits, with zeros put in front until there are four.
   */
  method HexDigits4(v: Int32) returns (s: string)
    ensures s == Hex4(v)
  {
    s := Upper(ToHexString(v));
    while |s| < 4
      invariant PadZeros(s, 4) == Hex4(v)
      decreases 4 - |s|
    {
      s := "0" + s;
    }
  }

  /** origOp's loop: spaces appended to the segment name until it is six characters long. */
  method PadName(symbol: string) returns (s: string)
    ensures s == PadRight(symbol, 6)
  {
    s := symbol;
    while |s| < 6
      invariant PadRight(s, 6) == PadRight(symbol, 6)
      decreases 6 - |s|
    {
      s := s + " ";
    }
  }

  class Pass2 {
    /** The machine-op and pseudo-op tables, the symbol and literal tables and the segment size. */
    const env: Env
    var lc: Int32
    var isRelocatable: bool
    var initialAddress: string
    var tempExternalTable: map<string, string>
    var segName: string
    /** Everything written to the object file so far. */
    var objectFile: string

    /** The fields the record functions read and update. */
    function St(): State
      reads this
    {
      State(lc, isRelocatable, initialAddress, tempExternalTable, segName)
    }

    /** A new pass starts at LC 0, absolute, with initial address 0000 and nothing written. */
    constructor(env: Env)
      ensures this.env == env && St() == State(0, false, "0000", map[], "") && objectFile == ""
    {
      this.env := env;
      lc := 0;
      isRelocatable := false;
      initialAddress := "0000";
      tempExternalTable := map[];
      segName := "";
      objectFile := "";
    }

    /** Takes over the state a record function computed; the object file is left alone. */
    method SetState(st: State)
      modifies this
      ensures St() == st && objectFile == old(objectFile)
    {
      lc, isRelocatable, initialAddress, tempExternalTable, segName :=
        st.lc, st.isRelocatable, st.initialAddress, st.externals, st.segName;
    }

    /** addressFromLC: the counter as four hex digits, then LC moved on by size modulo 0x10000. */
    method AddressFromLC(size: int) returns (address: string)
      modifies this
      ensures address == Hex4(old(lc))
      ensures St() == Advance(old(St()), size) && objectFile == old(objectFile)
    {
      address := HexDigits4(lc);
      lc := JavaRem(WrapInt(lc + size), 0x10000);
    }

    /** assembleMachineOpLine: the instruction's word after `T`; LC moves on by its size. */
    method AssembleMachineOpLine(opcode: string, operand: string) returns (r: Result<string, Pass2Error>)
      modifies this
      ensures match MachineLine(old(St()), env, opcode, operand)
        case Ok(s) => r == Ok(s.record) && St() == s.st && objectFile == old(objectFile)
        case Err(e) => r == Err(e)
    {
      if opcode !in env.mot {
        return Err(RuntimeFailure);
      }
      var info := env.mot[opcode];
      var word := MachineWord(St(), env, info.ins, info.opcode, Split(operand, ','));
      if word.Err? {
        return Err(word.error);
      }
      var _ := AddressFromLC(info.size);
      r := Ok("T" + word.value + "\n");
    }

    /** entOp: one `N<name>=<value>` record per relative symbol, at most five names. */
    method EntOp(ops: seq<string>) returns (r: Result<string, Pass2Error>)
      ensures r == Ent(St(), env, ops)
    {
      if |ops| > 5 {
        return Err(TooManyEntries);
      }
      var nRecord := "";
      var i := 0;
      while i < |ops|
        invariant 0 <= i <= |ops|
        invariant EntRecords(tempExternalTable, env, ops[..i]) == Ok(nRecord)
      {
        var pos := ops[i];
        assert ops[..i + 1][..i] == ops[..i];
        var relative := IsRelativeSymbol(tempExternalTable, env, pos);
        if relative != Ok(1) {
          r := if relative.Err? then Err(relative.error) else Err(NotRelative(pos));
          EntRecordsFailsAt(tempExternalTable, env, ops, i + 1);
          return;
        }
        var symVal := env.symbols[pos].value;
        if |symVal| == 0 {
          EntRecordsFailsAt(tempExternalTable, env, ops, i + 1);
          return Err(RuntimeFailure);
        }
        nRecord := nRecord + ("N" + pos + "=" + symVal[1..] + "\n");
        i := i + 1;
      }
      assert ops[..i] == ops;
      r := Ok(nRecord);
    }

    /** extOp: each name entered in the temporary external table with x0000; no record. */
    method ExtOp(ops: seq<string>) returns (r: Result<string, Pass2Error>)
      modifies this
      ensures match Ext(old(St()), env, ops)
        case Ok(s) => r == Ok(s.record) && St() == s.st && objectFile == old(objectFile)
        case Err(e) => r == Err(e)
    {
      if |ops| > 5 {
        return Err(TooManyExternals);
      }
      ghost var table0 := tempExternalTable;
      var i := 0;
      while i < |ops|
        invariant 0 <= i <= |ops|
        invariant ExtTable(table0, env, ops[..i]) == Ok(tempExternalTable)
        invariant St() == old(St()).(externals := tempExternalTable) && objectFile == old(objectFile)
      {
        var pos := ops[i];
        assert ops[..i + 1][..i] == ops[..i];
        if pos in env.symbols {
          ExtTableFailsAt(table0, env, ops, i + 1);
          return Err(ExternalAlreadyDefined(pos));
        }
        tempExternalTable := tempExternalTable[pos := "x0000"];
        i := i + 1;
      }
      assert ops[..i] == ops;
      r := Ok("");
    }

    /**
     * origOp: the header record; the name padded to six becomes the segment name, and an
     * address operand becomes LC and the initial address, an empty one makes the segment
     * relocatable.
     */
    method OrigOp(symbol: string, operand: string) returns (r: Result<string, Pass2Error>)
      modifies this
      ensures match Orig(old(St()), env, symbol, operand)
        case Ok(s) => r == Ok(s.record) && St() == s.st && objectFile == old(objectFile)
        case Err(e) => r == Err(e)
    {
      var name := PadName(symbol);
      segName := name;
      var origin := "0000";
      if |operand| < 1 {
        isRelocatable := true;
      } else {
        var address := AddressToHex(operand);
        if address.Err? {
          return Err(address.error);
        }
        var n := ParseUnsignedInt(address.value, 16);
        if n.None? {
          return Err(RuntimeFailure);
        }
        lc := WrapInt(n.value);
        origin := address.value;
        initialAddress := origin;
      }
      if env.segmentSize > 0xFFFF {
        return Err(SegmentTooLarge);
      }
      if isRelocatable && env.segmentSize > 512 {
        return Err(SegmentExceedsPage);
      }
      var segmentLength := HexDigits4(env.segmentSize);
      r := Ok("H" + name + origin + segmentLength + "\n");
    }

    /** strzOp: one text record per character at successive addresses, then the zero word. */
    method StrzOp(operand: string) returns (record: string)
      modifies this
      ensures Step(St(), record) == Strz(old(St()), operand) && objectFile == old(objectFile)
    {
      ghost var st0 := St();
      var finalTextRecord := "";
      var i := 0;
      while i < |operand|
        invariant 0 <= i <= |operand|
        invariant Step(St(), finalTextRecord) == StrzText(st0, operand[..i])
        invariant objectFile == old(objectFile)
      {
        StrzTextNext(st0, operand, i);
        var lcAddress := AddressFromLC(1);
        var hexString := HexDigits4(operand[i] as int);
        finalTextRecord := finalTextRecord + "T" + lcAddress + hexString + "\n";
        i := i + 1;
      }
      assert operand[..i] == operand;
      var lcAddress := AddressFromLC(1);
      record := finalTextRecord + "T" + lcAddress + "0000" + "\n";
    }

    /** assemblePseudoOpLine: the directive's record, or none, and its effect on the fields. */
    method AssemblePseudoOpLine(symbol: string, opcode: string, operand: string) returns (r: Result<string, Pass2Error>)
      requires opcode in env.pot
      modifies this
      ensures match PseudoLine(old(St()), env, symbol, opcode, operand)
        case Ok(s) => r == Ok(s.record) && St() == s.st && objectFile == old(objectFile)
        case Err(e) => r == Err(e)
    {
      match env.pot[opcode].ins
      case ENT =>
        r := EntOp(Split(operand, ','));
      case EXT =>
        r := ExtOp(Split(operand, ','));
      case ORIG =>
        r := OrigOp(symbol, operand);
      case STRZ =>
        var record := StrzOp(operand);
        r := Ok(record);
      case _ =>
        var line := PseudoLine(St(), env, symbol, opcode, operand);
        if line.Err? {
          return Err(line.error);
        }
        SetState(line.value.st);
        r := Ok(line.value.record);
    }

    /**
     * The literal pool: each literal's text record in the table's iteration order, which visits
     * every key of the literal table once, the first record that fails ending it.
     */
    method LiteralPool(order: seq<string>) returns (r: Result<string, Pass2Error>)
      requires IsOrderOf(order, env.literals)
      ensures r == LiteralRecords(env, order)
    {
      var text := "";
      var j := 0;
      while j < |order|
        invariant 0 <= j <= |order|
        invariant LiteralRecords(env, order[..j]) == Ok(text)
      {
        assert order[..j + 1][..j] == order[..j];
        var textRecord := LiteralRecord(env, order[j]);
        if textRecord.Err? {
          LiteralRecordsFailsAt(env, order, j + 1);
          return Err(textRecord.error);
        }
        text := text + textRecord.value;
        j := j + 1;
      }
      assert order[..j] == order;
      r := Ok(text);
    }

    /** One line of parseInput: a directive of the pseudo-op table, otherwise a machine instruction. */
    method AssembleLine(l: AsmValidate.Line) returns (r: Result<string, Pass2Error>)
      modifies this
      ensures match LineStep(old(St()), env, l)
        case Ok(s) => r == Ok(s.record) && St() == s.st && objectFile == old(objectFile)
        case Err(e) => r == Err(e)
    {
      if l.operation in env.pot {
        r := AssemblePseudoOpLine(l.symbol, l.operation, l.operands);
      } else {
        r := AssembleMachineOpLine(l.operation, l.operands);
      }
    }

    /**
     * One turn of parseInput's loop: for the last line the literal pool first, then the line
     * itself, each appended to the object file as it is produced.
     */
    method AssembleNext(lines: seq<AsmValidate.Line>, order: seq<string>, i: nat, ghost st0: State, ghost done: Step)
      returns (r: Result<(), Pass2Error>, ghost added: string)
      requires i < |lines| && Assembled(st0, env, lines, order, i) == Ok(done) && St() == done.st
      requires IsOrderOf(order, env.literals)
      modifies this
      ensures r.Ok? ==> Assembled(st0, env, lines, order, i + 1) == Ok(Step(St(), done.record + added))
      ensures r.Ok? ==> objectFile == old(objectFile) + added
      ensures r.Err? ==> Assembled(st0, env, lines, order, i + 1) == Err(r.error)
    {
      assert LineAfter(st0, env, lines, order, i) == LineStep(St(), env, lines[i]);
      if i == |lines| - 1 {
        var lits := LiteralPool(order);
        if lits.Err? {
          return Err(lits.error), "";
        }
        objectFile := objectFile + lits.value;
        var assembleLine := AssembleLine(lines[i]);
        if assembleLine.Err? {
          return Err(assembleLine.error), "";
        }
        objectFile := objectFile + assembleLine.value;
        Appended(old(objectFile), lits.value, assembleLine.value);
        added := lits.value + assembleLine.value;
      } else {
        var assembleLine := AssembleLine(lines[i]);
        if assembleLine.Err? {
          return Err(assembleLine.error), "";
        }
        objectFile := objectFile + assembleLine.value;
        added := assembleLine.value;
      }
      r := Ok(());
    }

    /**
     * parseInput: every line's records written in order, the literal pool just before the last
     * line's; the pass stops at the first error. It writes to the object file the constructor
     * was handed and closes it at the end, so it runs on a file nothing has been written to.
     */
    method ParseInput(lines: seq<AsmValidate.Line>, order: seq<string>) returns (r: Result<(), Pass2Error>)
      requires objectFile == "" && IsOrderOf(order, env.literals)
      modifies this
      ensures Assembled(old(St()), env, lines, order, |lines|) ==
        if r.Ok? then Ok(Step(St(), objectFile)) else Err(r.error)
    {
      ghost var st0 := St();
      var i := 0;
      while i < |lines|
        invariant 0 <= i <= |lines|
        invariant Assembled(st0, env, lines, order, i) == Ok(Step(St(), objectFile))
      {
        ghost var added;
        r, added := AssembleNext(lines, order, i, st0, Step(St(), objectFile));
        if r.Err? {
          AssembledFailsAt(st0, env, lines, order, i + 1);
          return;
        }
        i := i + 1;
      }
      r := Ok(());
    }
  }
}
