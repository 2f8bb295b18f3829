// The assembler's first pass (Passes/Pass1.java): it walks the validated lines between the
// .ORIG line and the .END line, gives every new label its address (or, on .EQU, its value) and
// class, collects the .EXT names and the literals, advances the location counter, and then lays
// the literal pool out after the program.

module AsmPass1 {
  import opened Wrappers
  import opened JavaText
  import AsmValidate

  /** The run stops when a line starts with more symbols than this, or the pool with more literals. */
  const MAX_SYMBOLS: int := 100
  const MAX_LITERALS: int := 50

  /** A symbol-table entry (String[2]): its value and its class, "A" (absolute) or "R" (relative). */
  datatype Sym = Sym(value: string, cls: string)

  /** Why the pass stops: a System.exit, or an exception from a malformed operand. */
  datatype Pass1Error =
    | TooManySymbols     // "Too many symbols"
    | TooManyLiterals    // "Too many literals"
    | ForwardReference   // an .EQU names a symbol not yet defined or declared external
    | IndexOutOfBounds   // charAt(0) of an empty operand
    | NumberFormat       // parseInt of a .BLKW operand that is not a number

  type SymTable = map<string, Sym>
  type LitTable = map<string, int>

  /** The location counter advanced by n as Java does it: an int sum, then `%= 0x10000`. */
  function AddLoc(loc: Int32, n: int): Int32
  {
    JavaRem(WrapInt(loc + n), 0x10000)
  }

  /** The counter stays strictly inside (-0x10000, 0x10000), and without overflow it is the sum modulo 0x10000. */
  lemma AddLocSpec(loc: Int32, n: int)
    ensures -0x10000 < AddLoc(loc, n) < 0x10000
    ensures 0 <= loc && 0 <= n && loc + n <= INT_MAX ==> AddLoc(loc, n) == (loc + n) % 0x10000
  {
  }

  // ---------------------------------------------------------------- incLoc, fillSymArr, getEQUVal

  /** incLoc: a string takes its length plus one word, a block its operand, .EQU/.ENT/.EXT nothing, all else one word. */
  function IncLoc(instruct: string, operand: string, loc: Int32): (r: Result<Int32, Pass1Error>)
  {
    if instruct == ".STRZ" then Ok(AddLoc(loc, |operand| + 1))
    else if instruct == ".BLKW" then
      if |operand| == 0 then Err(IndexOutOfBounds)
      else
        match ParseInt(operand[1..], if operand[0] == 'x' then 16 else 10)
        case None => Err(NumberFormat)
        case Some(n) => Ok(AddLoc(loc, n))
    else if instruct != ".EQU" && instruct != ".ENT" && instruct != ".EXT" then Ok(AddLoc(loc, 1))
    else Ok(AddLoc(loc, 0))
  }

  /** The words a line occupies, independently of the counter. */
  function Words(instruct: string, operand: string): Result<int, Pass1Error>
  {
    match instruct
    case ".STRZ" => Ok(|operand| + 1)
    case ".BLKW" =>
      if |operand| == 0 then Err(IndexOutOfBounds)
      else if operand[0] == 'x' then
        (match ParseInt(operand[1..], 16) case None => Err(NumberFormat) case Some(n) => Ok(n))
      else (match ParseInt(operand[1..], 10) case None => Err(NumberFormat) case Some(n) => Ok(n))
    case ".EQU" => Ok(0)
    case ".ENT" => Ok(0)
    case ".EXT" => Ok(0)
    case _ => Ok(1)
  }

  /**
   * From a counter inside the 16-bit range, incLoc moves it on by the words the line occupies,
   * modulo 0x10000, and fails exactly where reading those words fails.
   */
  lemma IncLocAdvances(instruct: string, operand: string, loc: Int32)
    requires 0 <= loc < 0x10000
    ensures IncLoc(instruct, operand, loc).Err? <==> Words(instruct, operand).Err?
    ensures IncLoc(instruct, operand, loc).Err? ==> IncLoc(instruct, operand, loc).error == Words(instruct, operand).error
    ensures Words(instruct, operand).Ok? && 0 <= Words(instruct, operand).value <= INT_MAX - loc ==>
      IncLoc(instruct, operand, loc) == Ok((loc + Words(instruct, operand).value) % 0x10000)
  {
    if Words(instruct, operand).Ok? {
      AddLocSpec(loc, Words(instruct, operand).value);
    }
  }

  /** getEQUVal: a number is absolute; a known symbol lends its value and class; an external name is relative. */
  function GetEquVal(operand: string, symTable: SymTable, extSyms: seq<string>): (r: Result<Sym, Pass1Error>)
  {
    if |operand| == 0 then Err(IndexOutOfBounds)
    else if operand[0] == '#' || operand[0] == 'x' then Ok(Sym(operand, "A"))
    else if operand !in symTable && operand !in extSyms then Err(ForwardReference)
    else if operand in symTable then
      Ok(Sym(symTable[operand].value, if symTable[operand].cls == "A" then "A" else "R"))
    else Ok(Sym(operand, "R"))
  }

  /** The .EQU value is always of class A or R; it fails only on an empty operand or a name used before it exists. */
  lemma GetEquValCases(operand: string, symTable: SymTable, extSyms: seq<string>)
    ensures var r := GetEquVal(operand, symTable, extSyms);
      r.Ok? ==> r.value.cls == "A" || r.value.cls == "R"
    ensures var r := GetEquVal(operand, symTable, extSyms);
      r.Err? <==> |operand| == 0 || (operand[0] != '#' && operand[0] != 'x' && operand !in symTable && operand !in extSyms)
    ensures var r := GetEquVal(operand, symTable, extSyms);
      r.Ok? && operand in symTable && operand[0] != '#' && operand[0] != 'x' ==>
        r.value.value == symTable[operand].value && (r.value.cls == "A" <==> symTable[operand].cls == "A")
    ensures var r := GetEquVal(operand, symTable, extSyms);
      r.Ok? && (operand[0] == '#' || operand[0] == 'x') ==> r.value == Sym(operand, "A")
  {
  }

  /** fillSymArr: a label on an ordinary line is the relative address "x"+hex of the counter; .EQU/.EXT labels take getEQUVal. */
  function FillSymArr(instruct: string, operand: string, symTable: SymTable, extSyms: seq<string>, loc: Int32): Result<Sym, Pass1Error>
  {
    if instruct != ".EQU" && instruct != ".EXT" then Ok(Sym("x" + ToHexString(loc), "R"))
    else GetEquVal(operand, symTable, extSyms)
  }

  // ---------------------------------------------------------------- fillSymTable

  /** What fillSymTable carries from line to line. */
  datatype Tables = Tables(symTable: SymTable, extSyms: seq<string>, litArray: seq<string>, loc: Int32)

  /** The line brings a label that is not yet in the table. */
  predicate Defines(symTable: SymTable, l: AsmValidate.Line)
  {
    l.symbol != "" && l.symbol !in symTable
  }

  /** The literal a line carries: its operand from the first '=', unless the line is a .STRZ. */
  function LiteralIn(l: AsmValidate.Line): seq<string>
  {
    if '=' in l.operands && l.operation != ".STRZ" then
      IndexOfSpec(l.operands, '=');
      [l.operands[IndexOf(l.operands, '=')..]]
    else []
  }

  /** The table side of one line: a new label is entered, else an .EXT line's names are noted. */
  function Entered(t: Tables, l: AsmValidate.Line): Result<(SymTable, seq<string>), Pass1Error>
  {
    if Defines(t.symTable, l) then
      match FillSymArr(l.operation, l.operands, t.symTable, t.extSyms, t.loc)
      case Err(e) => Err(e)
      case Ok(entry) => Ok((t.symTable[l.symbol := entry], t.extSyms))
    else if l.operation == ".EXT" then Ok((t.symTable, t.extSyms + Split(l.operands, ',')))
    else Ok((t.symTable, t.extSyms))
  }

  /** A literal is the operand's suffix from its first '=': at most one per line. */
  lemma LiteralInSpec(l: AsmValidate.Line)
    ensures var r := LiteralIn(l);
      |r| <= 1 &&
      (|r| == 1 <==> '=' in l.operands && l.operation != ".STRZ") &&
      (|r| == 1 ==>
        0 < |r[0]| <= |l.operands| && r[0] == l.operands[|l.operands| - |r[0]|..] && r[0][0] == '=' &&
        '=' !in l.operands[..|l.operands| - |r[0]|])
  {
    if '=' in l.operands && l.operation != ".STRZ" {
      IndexOfSpec(l.operands, '=');
    }
  }

  /** One turn of fillSymTable's loop. */
  function ScanLine(t: Tables, l: AsmValidate.Line): Result<Tables, Pass1Error>
  {
    if |t.symTable| > MAX_SYMBOLS then Err(TooManySymbols)
    else
      match Entered(t, l)
      case Err(e) => Err(e)
      case Ok((syms, exts)) =>
        match IncLoc(l.operation, l.operands, t.loc)
        case Err(e) => Err(e)
        case Ok(next) => Ok(Tables(syms, exts, t.litArray + LiteralIn(l), next))
  }

  /** fillSymTable's loop over a run of lines, stopping at the first failure. */
  function ScanLines(t: Tables, lines: seq<AsmValidate.Line>): Result<Tables, Pass1Error>
  {
    if |lines| == 0 then Ok(t)
    else
      match ScanLines(t, lines[..|lines| - 1])
      case Err(e) => Err(e)
      case Ok(u) => ScanLine(u, lines[|lines| - 1])
  }

  /** fillSymTable: only the lines strictly between the first (.ORIG) and the last (.END) are scanned. */
  function SymbolPass(t: Tables, arr: seq<AsmValidate.Line>): Result<Tables, Pass1Error>
  {
    if |arr| < 2 then Ok(t) else ScanLines(t, arr[1..|arr| - 1])
  }

  /** The literals of a run of lines, in source order. */
  function Literals(lines: seq<AsmValidate.Line>): seq<string>
  {
    if |lines| == 0 then [] else LiteralIn(lines[0]) + Literals(lines[1..])
  }

  /** What one line does, when it goes through. */
  lemma ScanLineSpec(t: Tables, l: AsmValidate.Line)
    ensures ScanLine(t, l).Ok? ==> |t.symTable| <= MAX_SYMBOLS
    ensures var r := ScanLine(t, l);
      r.Ok? && Defines(t.symTable, l) ==>
        r.value.symTable == t.symTable[l.symbol := r.value.symTable[l.symbol]] && r.value.extSyms == t.extSyms &&
        (l.operation != ".EQU" && l.operation != ".EXT" ==> r.value.symTable[l.symbol] == Sym("x" + ToHexString(t.loc), "R")) &&
        (l.operation == ".EQU" ==> Ok(r.value.symTable[l.symbol]) == GetEquVal(l.operands, t.symTable, t.extSyms))
    ensures var r := ScanLine(t, l);
      r.Ok? && !Defines(t.symTable, l) ==>
        r.value.symTable == t.symTable &&
        r.value.extSyms == t.extSyms + (if l.operation == ".EXT" then Split(l.operands, ',') else [])
    ensures var r := ScanLine(t, l);
      r.Ok? ==> Ok(r.value.loc) == IncLoc(l.operation, l.operands, t.loc) && r.value.litArray == t.litArray + LiteralIn(l)
  {
  }

  /** Scanning a + b is scanning a, then b from where a left off. */
  lemma {:induction false} ScanLinesAppend(t: Tables, a: seq<AsmValidate.Line>, b: seq<AsmValidate.Line>)
    ensures ScanLines(t, a + b) == match ScanLines(t, a) case Err(e) => Err(e) case Ok(u) => ScanLines(u, b)
    decreases |b|
  {
    if |b| == 0 {
      assert a + b == a;
    } else {
      ScanLinesAppend(t, a, b[..|b| - 1]);
      assert (a + b)[..|a + b| - 1] == a + b[..|b| - 1];
      assert (a + b)[|a + b| - 1] == b[|b| - 1];
    }
  }

  /** A label, once in the table, keeps its entry: the first definition wins. */
  lemma {:induction false} FirstDefinitionWins(t: Tables, lines: seq<AsmValidate.Line>)
    ensures var r := ScanLines(t, lines);
      r.Ok? ==> forall s | s in t.symTable :: s in r.value.symTable && r.value.symTable[s] == t.symTable[s]
  {
    if |lines| > 0 {
      FirstDefinitionWins(t, lines[..|lines| - 1]);
    }
  }

  /** A run that goes through never leaves more than one symbol above the limit. */
  lemma {:induction false} SymbolBound(t: Tables, lines: seq<AsmValidate.Line>)
    requires |t.symTable| <= MAX_SYMBOLS + 1
    ensures ScanLines(t, lines).Ok? ==> |ScanLines(t, lines).value.symTable| <= MAX_SYMBOLS + 1
  {
    if |lines| > 0 {
      SymbolBound(t, lines[..|lines| - 1]);
      match ScanLines(t, lines[..|lines| - 1])
      case Err(_) =>
      case Ok(u) =>
        var l := lines[|lines| - 1];
        if ScanLine(u, l).Ok? && Defines(u.symTable, l) {
          assert |u.symTable[l.symbol := ScanLine(u, l).value.symTable[l.symbol]]| == |u.symTable| + 1;
        }
    }
  }

  /** The literal list grows by the literals of the lines, in source order. */
  lemma {:induction false} LiteralsInOrder(t: Tables, lines: seq<AsmValidate.Line>)
    ensures ScanLines(t, lines).Ok? ==> ScanLines(t, lines).value.litArray == t.litArray + Literals(lines)
  {
    if |lines| > 0 {
      var n := |lines| - 1;
      var init := lines[..n];
      LiteralsInOrder(t, init);
      LiteralsSnoc(init, lines[n]);
      assert init + [lines[n]] == lines;
      if ScanLines(t, init).Ok? {
        ScanLineSpec(ScanLines(t, init).value, lines[n]);
      }
    }
  }

  lemma {:induction false} LiteralsSnoc(lines: seq<AsmValidate.Line>, l: AsmValidate.Line)
    ensures Literals(lines + [l]) == Literals(lines) + LiteralIn(l)
  {
    if |lines| == 0 {
      assert [l][1..] == [];
    } else {
      assert (lines + [l])[1..] == lines[1..] + [l];
      LiteralsSnoc(lines[1..], l);
    }
  }

  /**
   * The address a run gives a label: when line j brings a new label on an ordinary line, the
   * label ends up mapped to "x"+hex of the counter before that line, class R.
   */
  lemma LabelAddress(t: Tables, lines: seq<AsmValidate.Line>, j: nat)
    requires j < |lines| && ScanLines(t, lines).Ok?
    ensures ScanLines(t, lines[..j]).Ok?
    ensures var before := ScanLines(t, lines[..j]).value;
      var l := lines[j];
      Defines(before.symTable, l) && l.operation != ".EQU" && l.operation != ".EXT" ==>
        l.symbol in ScanLines(t, lines).value.symTable &&
        ScanLines(t, lines).value.symTable[l.symbol] == Sym("x" + ToHexString(before.loc), "R")
  {
    ScanThrough(t, lines, j);
    var before := ScanLines(t, lines[..j]).value;
    ScanLineSpec(before, lines[j]);
    FirstDefinitionWins(ScanLines(t, lines[..j + 1]).value, lines[j + 1..]);
  }

  /** A run that goes through passes line j with the tables the lines before it leave, and carries on from there. */
  lemma ScanThrough(t: Tables, lines: seq<AsmValidate.Line>, j: nat)
    requires j < |lines| && ScanLines(t, lines).Ok?
    ensures ScanLines(t, lines[..j]).Ok? && ScanLines(t, lines[..j + 1]).Ok?
    ensures ScanLines(t, lines[..j + 1]) == ScanLine(ScanLines(t, lines[..j]).value, lines[j])
    ensures ScanLines(t, lines) == ScanLines(ScanLines(t, lines[..j + 1]).value, lines[j + 1..])
  {
    var upTo := lines[..j + 1];
    assert upTo + lines[j + 1..] == lines;
    ScanLinesAppend(t, upTo, lines[j + 1..]);
    assert upTo[..j] == lines[..j] && upTo[j] == lines[j];
  }

  // ---------------------------------------------------------------- fillLitTable

  /** fillLitTable: each literal in turn takes the next slot; the run stops when the table already holds more than 50. */
  function LitLayout(table: LitTable, loc: Int32, lits: seq<string>): Result<(LitTable, Int32), Pass1Error>
  {
    if |lits| == 0 then Ok((table, loc))
    else
      match LitLayout(table, loc, lits[..|lits| - 1])
      case Err(e) => Err(e)
      case Ok((t, l)) =>
        if |t| > MAX_LITERALS then Err(TooManyLiterals)
        else Ok((t[lits[|lits| - 1] := l], AddLoc(l, 1)))
  }

  /** Position i holds the last occurrence of its literal. */
  predicate LastAt(lits: seq<string>, i: nat)
    requires i < |lits|
  {
    forall j | i < j < |lits| :: lits[j] != lits[i]
  }

  /** The pool t with next free slot l is lits laid out from loc over table. */
  ghost predicate Laid(table: LitTable, loc: int, lits: seq<string>, t: LitTable, l: int)
  {
    l == (loc + |lits|) % 0x10000 &&
    (forall k :: k in t <==> k in table || k in lits) &&
    (forall k | k in table && k !in lits :: t[k] == table[k]) &&
    (forall i | 0 <= i < |lits| && LastAt(lits, i) :: t[lits[i]] == (loc + i) % 0x10000)
  }

  /** Laying out one more literal keeps the layout. */
  lemma LaidSnoc(table: LitTable, loc: Int32, init: seq<string>, x: string, t: LitTable, l: Int32)
    requires 0 <= loc < 0x10000 && Laid(table, loc, init, t, l)
    ensures Laid(table, loc, init + [x], t[x := l], AddLoc(l, 1))
  {
    var n := |init|;
    var lits := init + [x];
    var u := t[x := l];
    AddLocSpec(l, 1);
    assert AddLoc(l, 1) == (loc + |lits|) % 0x10000;
    forall k
      ensures k in u <==> k in table || k in lits
    {
      assert k in lits <==> k in init || k == x;
    }
    forall k | k in table && k !in lits
      ensures u[k] == table[k]
    {
      assert k !in init && k != x;
    }
    forall i | 0 <= i < n + 1 && LastAt(init + [x], i)
      ensures t[x := l][(init + [x])[i]] == (loc + i) % 0x10000
    {
      if i < n {
        assert (init + [x])[n] == x;
        assert LastAt(init, i) by {
          forall j | i < j < n
            ensures init[j] != init[i]
          {
            assert (init + [x])[j] == init[j];
          }
        }
      }
    }
  }

  /**
   * The pool layout from a counter in range: the counter ends |lits| words on (modulo 0x10000);
   * each literal sits at the slot of its LAST occurrence; other entries are kept.
   */
  lemma {:induction false} LitSlots(table: LitTable, loc: Int32, lits: seq<string>)
    requires 0 <= loc < 0x10000
    ensures var r := LitLayout(table, loc, lits);
      r.Ok? ==> Laid(table, loc, lits, r.value.0, r.value.1)
  {
    if |lits| > 0 {
      var n := |lits| - 1;
      var init := lits[..n];
      LitSlots(table, loc, init);
      match LitLayout(table, loc, init)
      case Err(_) =>
      case Ok((t, l)) =>
        if |t| <= MAX_LITERALS {
          LaidSnoc(table, loc, init, lits[n], t, l);
          assert init + [lits[n]] == lits;
        }
    }
  }

  /** Starting from at most 51 entries, the pool never grows past 51 entries. */
  lemma {:induction false} LiteralBound(table: LitTable, loc: Int32, lits: seq<string>)
    requires |table| <= MAX_LITERALS + 1
    ensures LitLayout(table, loc, lits).Ok? ==> |LitLayout(table, loc, lits).value.0| <= MAX_LITERALS + 1
  {
    if |lits| > 0 {
      LiteralBound(table, loc, lits[..|lits| - 1]);
    }
  }

  // ---------------------------------------------------------------- the pass

  /** Pass1: the symbol and literal tables it fills, and the literal and external lists it collects. */
  class Pass1 {
    var symTable: SymTable
    var litTable: LitTable
    var litArray: seq<string>
    var extSyms: seq<string>

    constructor()
      ensures symTable == map[] && litTable == map[] && litArray == [] && extSyms == []
    {
      symTable := map[];
      litTable := map[];
      litArray := [];
      extSyms := [];
    }

    function Current(loc: Int32): Tables
      reads this
    {
      Tables(symTable, extSyms, litArray, loc)
    }

    /** fillTables: the symbol pass, then the literal pool laid out where it ends. */
    method FillTables(arr: seq<AsmValidate.Line>, loc: Int32) returns (r: Result<Int32, Pass1Error>)
      modifies this
      ensures var s := SymbolPass(old(Current(loc)), arr);
        s.Err? ==> r == Err(s.error)
      ensures var s := SymbolPass(old(Current(loc)), arr);
        s.Ok? ==> (Current(s.value.loc) == s.value &&
          var lt := LitLayout(old(litTable), s.value.loc, s.value.litArray);
          (lt.Err? ==> r == Err(lt.error)) && (lt.Ok? ==> r == Ok(lt.value.1) && litTable == lt.value.0))
    {
      var next := FillSymTable(arr, loc);
      if next.Err? {
        return next;
      }
      r := FillLitTable(litArray, next.value);
    }

    /** fillSymTable: scan lines 1 .. |arr|-2, returning the counter after the last. */
    method FillSymTable(arr: seq<AsmValidate.Line>, loc: Int32) returns (r: Result<Int32, Pass1Error>)
      modifies this
      ensures litTable == old(litTable)
      ensures var s := SymbolPass(old(Current(loc)), arr);
        (s.Err? ==> r == Err(s.error)) && (s.Ok? ==> r == Ok(s.value.loc) && Current(s.value.loc) == s.value)
    {
      if |arr| < 2 {
        return Ok(loc);
      }
      ghost var start := Current(loc);
      ghost var lines := arr[1..|arr| - 1];
      var lc := loc;
      var i := 1;
      while i < |arr| - 1
        invariant 1 <= i <= |arr| - 1
        invariant litTable == old(litTable)
        invariant ScanLines(start, lines[..i - 1]) == Ok(Current(lc))
      {
        ghost var before := Current(lc);
        var next := FillSymLine(arr[i], lc);
        ScanLinesNext(start, lines, i - 1, before);
        if next.Err? {
          ScanLinesFailsAt(start, lines, i);
          return next;
        }
        lc := next.value;
        i := i + 1;
      }
      assert lines[..i - 1] == lines;
      return Ok(lc);
    }

    /** The body of fillSymTable's loop for one line: enter a new label, or note .EXT names; note a literal; advance. */
    method FillSymLine(l: AsmValidate.Line, lc: Int32) returns (r: Result<Int32, Pass1Error>)
      modifies this
      ensures litTable == old(litTable)
      ensures var s := ScanLine(old(Current(lc)), l);
        (s.Err? ==> r == Err(s.error)) && (s.Ok? ==> r == Ok(s.value.loc) && Current(s.value.loc) == s.value)
    {
      if |symTable| > MAX_SYMBOLS {
        return Err(TooManySymbols);
      }
      var entered := EnterLabel(l, lc);
      if entered.Err? {
        return Err(entered.error);
      }
      var instruct := l.operation;
      var operand := l.operands;
      if '=' in operand && instruct != ".STRZ" {
        IndexOfSpec(operand, '=');
        litArray := litArray + [operand[IndexOf(operand, '=')..]];
      }
      r := IncLoc(instruct, operand, lc);
    }

    /** The first part of fillSymTable's loop body: enter a new label, or note an .EXT line's names. */
    method EnterLabel(l: AsmValidate.Line, lc: Int32) returns (r: Result<(), Pass1Error>)
      modifies this
      ensures litTable == old(litTable) && litArray == old(litArray)
      ensures var e := Entered(old(Current(lc)), l);
        (e.Err? ==> r == Err(e.error)) && (e.Ok? ==> r.Ok? && symTable == e.value.0 && extSyms == e.value.1)
    {
      var sym := l.symbol;
      var instruct := l.operation;
      var operand := l.operands;
      if sym != "" && sym !in symTable {
        var symArr := FillSymArr(instruct, operand, symTable, extSyms, lc);
        if symArr.Err? {
          return Err(symArr.error);
        }
        symTable := symTable[sym := symArr.value];
      } else if instruct == ".EXT" {
        var splitOperand := Split(operand, ',');
        var j := 0;
        ghost var exts := extSyms;
        while j < |splitOperand|
          invariant 0 <= j <= |splitOperand|
          invariant extSyms == exts + splitOperand[..j]
          invariant symTable == old(symTable) && litTable == old(litTable) && litArray == old(litArray)
        {
          extSyms := extSyms + [splitOperand[j]];
          j := j + 1;
        }
        assert splitOperand[..j] == splitOperand;
      }
      return Ok(());
    }

    /** fillLitTable: put each literal at the counter, advancing it by one each time. */
    method FillLitTable(lits: seq<string>, locCount: Int32) returns (r: Result<Int32, Pass1Error>)
      modifies this
      ensures symTable == old(symTable) && litArray == old(litArray) && extSyms == old(extSyms)
      ensures var s := LitLayout(old(litTable), locCount, lits);
        (s.Err? ==> r == Err(s.error)) && (s.Ok? ==> r == Ok(s.value.1) && litTable == s.value.0)
    {
      var lc := locCount;
      var i := 0;
      while i < |lits|
        invariant 0 <= i <= |lits|
        invariant symTable == old(symTable) && litArray == old(litArray) && extSyms == old(extSyms)
        invariant LitLayout(old(litTable), locCount, lits[..i]) == Ok((litTable, lc))
      {
        assert lits[..i + 1][..i] == lits[..i];
        if |litTable| > MAX_LITERALS {
          LitLayoutStops(old(litTable), locCount, lits, i + 1);
          return Err(TooManyLiterals);
        }
        litTable := litTable[lits[i] := lc];
        lc := AddLoc(lc, 1);
        i := i + 1;
      }
      assert lits[..i] == lits;
      return Ok(lc);
    }
  }

  /** The scan of one more line continues from where the prefix left off. */
  lemma ScanLinesNext(t: Tables, lines: seq<AsmValidate.Line>, k: nat, u: Tables)
    requires k < |lines| && ScanLines(t, lines[..k]) == Ok(u)
    ensures ScanLines(t, lines[..k + 1]) == ScanLine(u, lines[k])
  {
    assert lines[..k + 1][..k] == lines[..k];
  }

  /** A failure stops the scan: once a prefix fails, the whole run fails the same way. */
  lemma {:induction false} ScanLinesFailsAt(t: Tables, lines: seq<AsmValidate.Line>, k: nat)
    requires k <= |lines| && ScanLines(t, lines[..k]).Err?
    ensures ScanLines(t, lines) == ScanLines(t, lines[..k])
    decreases |lines| - k
  {
    if k < |lines| {
      assert lines[..k + 1][..k] == lines[..k];
      ScanLinesFailsAt(t, lines, k + 1);
    } else {
      assert lines[..k] == lines;
    }
  }

  /** A failure stops the pool layout: once a prefix fails, the whole run fails the same way. */
  lemma {:induction false} LitLayoutStops(table: LitTable, loc: Int32, lits: seq<string>, k: nat)
    requires k <= |lits| && LitLayout(table, loc, lits[..k]).Err?
    ensures LitLayout(table, loc, lits) == LitLayout(table, loc, lits[..k])
    decreases |lits| - k
  {
    if k < |lits| {
      assert lits[..k + 1][..k] == lits[..k];
      LitLayoutStops(table, loc, lits, k + 1);
    } else {
      assert lits[..k] == lits;
    }
  }
}
