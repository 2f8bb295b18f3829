// The assembler's front end (lab2/Validate.java): every source line is classified, checked
// against the fixed column layout (label 0-5, blank 6-8, operation 9-13, blank 14-16, operands
// from 17), its symbol names and operand shapes are checked, and a little state is carried from
// line to line (the kind of the last line, the count of comment/.ENT/.EXT lines, and the
// .ORIG/.END lines seen).

module AsmValidate {
  import opened Wrappers
  import opened JavaText
  import MachineOpTable

  /** Validate.OpType: the kinds of line. */
  datatype OpType = COMMENT | ORIG | END | EQU | FILL | STRZ | BLKW | INSTRUCTION | UNKNOWN | ENT | EXT

  /** Validate.OperandType: the shapes an operand position may be required to have. */
  datatype OperandType = REGISTER | IMMEDIATE | INDEX | ADDRESS | NONE | PSEUDOOP | LITERAL

  /** Why a line is rejected: the exceptions validate lets escape, by kind. */
  datatype ValidateError =
    | EmptyLine            // "An Empty Line is NOT valid"
    | NoOperation          // neither a pseudo-op nor a machine op on the line
    | InvalidLine          // an instruction line of the wrong number of words
    | InvalidSymbol        // checkSymbol threw
    | TooShort             // Exceptions.TooShortException
    | DuplicateSymbol      // checkIfSymExists threw
    | InvalidLabel         // the symbol starts with a non-letter, R or x
    | NonBlankSeparator    // columns 6-8 or 14-16 hold something
    | EntExtNotAfterOrig   // .ENT/.EXT not right after .ORIG
    | LabelOnEntExt        // a symbol on an .ENT/.EXT line
    | InvalidOperand       // the operand does not have the shape the operation wants
    | InvalidOperation     // the operation is neither the expected directive nor a machine op
    | OrigNotFirst         // .ORIG is not the first line
    | MissingLabel         // .EQU/.ORIG without a valid symbol
    | IndexOutOfBounds     // a charAt, substring or array index out of range

  /** The three columns validateAndSplitLine returns (Locations.LABEL, OPERATION, OPERANDS). */
  datatype Columns = Columns(symbol: string, operation: string, operands: string)

  /** A validated line as the passes read it: the three columns and the line number. */
  datatype Line = Line(symbol: string, operation: string, operands: string, number: string)

  /** The machine-op table validate consults (Machine_Op_Table's map). */
  type OpTable = map<string, MachineOpTable.Info>

  /** What the validator carries from one line to the next. */
  datatype Status = Status(pseudoOp: Option<OpType>, origAndEnd: seq<string>, counter: int)

  /** The new state and the answer of one call of validate. */
  datatype Outcome = Outcome(status: Status, result: Result<Option<Line>, ValidateError>)

  /** Enum.toString of an OpType. */
  function TypeName(t: OpType): string
  {
    match t
    case COMMENT => "COMMENT" case ORIG => "ORIG" case END => "END" case EQU => "EQU"
    case FILL => "FILL" case STRZ => "STRZ" case BLKW => "BLKW" case INSTRUCTION => "INSTRUCTION"
    case UNKNOWN => "UNKNOWN" case ENT => "ENT" case EXT => "EXT"
  }

  // ---------------------------------------------------------------- characters and patterns

  /** Character.isAlphabetic, over ASCII. */
  predicate IsLetter(c: char) { 'A' <= c <= 'Z' || 'a' <= c <= 'z' }

  /** The class [A-Za-z0-9]. */
  predicate IsAlnum(c: char) { IsLetter(c) || '0' <= c <= '9' }

  /** The characters the regular expression `.` does not match. */
  predicate IsLineTerminator(c: char)
  {
    c == '\n' || c == '\r' || c == 0x85 as char || c == 0x2028 as char || c == 0x2029 as char
  }

  /** The regular expression [A-Za-z0-9]+ over the whole string, matched character by character. */
  predicate AlnumRun(s: string)
  {
    |s| > 0 && IsAlnum(s[0]) && (|s| == 1 || AlnumRun(s[1..]))
  }

  lemma {:induction false} AlnumRunSpec(s: string)
    ensures AlnumRun(s) <==> |s| > 0 && forall i | 0 <= i < |s| :: IsAlnum(s[i])
  {
    if |s| > 1 {
      AlnumRunSpec(s[1..]);
      assert forall i | 1 <= i < |s| :: s[i] == s[1..][i - 1];
    }
  }

  /** The regular expression ^x[0-9a-fA-F]+$. */
  predicate HexNumeral(s: string)
  {
    |s| >= 2 && s[0] == 'x' && forall i | 1 <= i < |s| :: IsDigit(s[i], 16)
  }

  /** The regular expression ^#-?[0-9]+$. */
  predicate DecNumeral(s: string)
  {
    |s| >= 2 && s[0] == '#' &&
    var k := if s[1] == '-' then 2 else 1;
    |s| > k && forall i | k <= i < |s| :: IsDigit(s[i], 10)
  }

  /** The regular expression ^-?\d+.* : an optional minus, a digit, then anything but line terminators. */
  predicate LeadingNumber(s: string)
  {
    var k := if |s| > 0 && s[0] == '-' then 1 else 0;
    |s| > k && IsDigit(s[k], 10) && forall i | k < i < |s| :: !IsLineTerminator(s[i])
  }

  /** A register operand accepted by checkOperands: R followed by one digit 0-7. */
  predicate IsRegisterName(s: string)
  {
    |s| == 2 && s[0] == 'R' && '0' <= s[1] <= '7'
  }

  // ---------------------------------------------------------------- symbols and comments

  /**
   * checkSymbol: false exactly where Java throws. Too long or starting with x, then an empty
   * name (charAt(0) throws), a non-letter start, and finally the pattern [A-Za-z0-9]+.
   */
  predicate CheckSymbol(symbol: string)
  {
    if |symbol| > 6 || |symbol| == 0 || symbol[0] == 'x' then false
    else if !IsLetter(symbol[0]) then false
    else AlnumRun(symbol)
  }

  /** checkSymbol accepts exactly the names of one to six letters and digits that start with a letter other than x. */
  lemma CheckSymbolSpec(symbol: string)
    ensures CheckSymbol(symbol) <==>
      1 <= |symbol| <= 6 && IsLetter(symbol[0]) && symbol[0] != 'x' &&
      forall i | 0 <= i < |symbol| :: IsAlnum(symbol[i])
  {
    AlnumRunSpec(symbol);
  }

  /** isComment: the trimmed line starts with a semicolon. */
  predicate IsComment(line: string)
  {
    StartsWith(Trim(line), ';')
  }

  /**
   * stripComment: element 0 of line.split(";"). That array is empty (and Java throws) when the
   * line is nothing but semicolons; otherwise element 0 is the text before the first semicolon.
   */
  function StripComment(line: string): Result<string, ValidateError>
  {
    var parts := Split(line, ';');
    if |parts| == 0 then Err(IndexOutOfBounds) else Ok(parts[0])
  }

  /** stripComment keeps the text before the first semicolon, and fails only on a line of semicolons. */
  lemma StripCommentSpec(line: string)
    ensures StripComment(line).Err? <==> |line| > 0 && forall j | 0 <= j < |line| :: line[j] == ';'
    ensures ';' in line && StripComment(line).Ok? ==>
      0 <= IndexOf(line, ';') && StripComment(line).value == line[..IndexOf(line, ';')]
    ensures ';' !in line ==> StripComment(line) == Ok(line)
  {
    SplitHead(line, ';');
  }

  /** checkIfSymExists: some earlier line carries the symbol as its label. */
  predicate SymbolExists(symbol: string, lines: seq<Line>)
  {
    exists i | 0 <= i < |lines| :: lines[i].symbol == symbol
  }

  // ---------------------------------------------------------------- line kind

  /** The pseudo-op names getLineType looks for, in the order it looks for them. */
  const SEARCH_ORDER: seq<OpType> := [STRZ, BLKW, ORIG, EQU, END, FILL, ENT, EXT]

  /** The position in SEARCH_ORDER, from k on, of the first kind whose name occurs in t (8 when none does). */
  function FirstNamed(t: string, k: nat): (m: nat)
    requires k <= |SEARCH_ORDER|
    ensures k <= m <= |SEARCH_ORDER|
    decreases |SEARCH_ORDER| - k
  {
    if k == |SEARCH_ORDER| then k
    else if Contains(t, TypeName(SEARCH_ORDER[k])) then k
    else FirstNamed(t, k + 1)
  }

  /** The search stops at a kind whose name occurs, and no earlier name occurs. */
  lemma {:induction false} FirstNamedSpec(t: string, k: nat)
    requires k <= |SEARCH_ORDER|
    ensures FirstNamed(t, k) < |SEARCH_ORDER| ==> Contains(t, TypeName(SEARCH_ORDER[FirstNamed(t, k)]))
    ensures forall j | k <= j < FirstNamed(t, k) :: !Contains(t, TypeName(SEARCH_ORDER[j]))
    decreases |SEARCH_ORDER| - k
  {
    if k < |SEARCH_ORDER| && !Contains(t, TypeName(SEARCH_ORDER[k])) {
      FirstNamedSpec(t, k + 1);
    }
  }

  /** The kind getLineType reports for a non-comment line: the first named one, else UNKNOWN. */
  function NamedKind(t: string): OpType
  {
    var m := FirstNamed(t, 0);
    if m < |SEARCH_ORDER| then SEARCH_ORDER[m] else UNKNOWN
  }

  /**
   * getLineType: COMMENT when the trimmed line starts with a semicolon; otherwise the first
   * pseudo-op of SEARCH_ORDER whose name occurs anywhere in the line, and UNKNOWN when none
   * does. An empty trimmed line makes charAt(0) throw.
   */
  function GetLineType(line: string): (r: Result<OpType, ValidateError>)
    ensures r.Err? <==> |Trim(line)| == 0
    ensures r == Ok(COMMENT) <==> IsComment(line)
    ensures r.Ok? && r.value != COMMENT ==> r.value == NamedKind(Trim(line))
  {
    var t := Trim(line);
    if |t| == 0 then Err(IndexOutOfBounds)
    else if t[0] == ';' then Ok(COMMENT)
    else if Contains(t, "STRZ") then Ok(STRZ)
    else if Contains(t, "BLKW") then Ok(BLKW)
    else if Contains(t, "ORIG") then Ok(ORIG)
    else if Contains(t, "EQU") then Ok(EQU)
    else if Contains(t, "END") then Ok(END)
    else if Contains(t, "FILL") then Ok(FILL)
    else if Contains(t, "ENT") then Ok(ENT)
    else if Contains(t, "EXT") then Ok(EXT)
    else Ok(UNKNOWN)
  }

  // ---------------------------------------------------------------- columns

  /** The label rule of validateAndSplitLine: empty, or new and starting with a letter other than R and x. */
  predicate LabelAllowed(symbol: string, lines: seq<Line>)
  {
    symbol == "" || (!SymbolExists(symbol, lines) && IsLetter(symbol[0]) && symbol[0] != 'R' && symbol[0] != 'x')
  }

  /**
   * validateAndSplitLine: a line of at least 17 characters whose separator columns 6-8 and
   * 14-16 are blank and whose label passes the label rule, split into the trimmed label
   * (columns 0-5), operation (9-13) and operands (17 on).
   */
  function ValidateAndSplitLine(line: string, lines: seq<Line>): Result<Columns, ValidateError>
  {
    if |line| < 17 then Err(TooShort)
    else
      var symbol := Trim(line[0..6]);
      var firstWhiteSpace := line[6..9];
      var operation := Trim(line[9..14]);
      var secondWhiteSpace := line[14..17];
      var operandsOrComment := Trim(line[17..]);
      if |symbol| > 0 && SymbolExists(symbol, lines) then Err(DuplicateSymbol)
      else if |symbol| > 0 && (!IsLetter(symbol[0]) || symbol[0] == 'R' || symbol[0] == 'x') then Err(InvalidLabel)
      else if !IsBlank(firstWhiteSpace) then Err(NonBlankSeparator)
      else if !IsBlank(secondWhiteSpace) then Err(NonBlankSeparator)
      else Ok(Columns(symbol, operation, operandsOrComment))
  }

  /**
   * validateAndSplitLine fails with TooShort exactly below 17 characters, and succeeds exactly
   * when the separator columns are blank and the label passes the label rule.
   */
  lemma SplitLineSpec(line: string, lines: seq<Line>)
    ensures ValidateAndSplitLine(line, lines) == Err(TooShort) <==> |line| < 17
    ensures ValidateAndSplitLine(line, lines).Ok? <==>
      (|line| >= 17 && LabelAllowed(Trim(line[..6]), lines) && IsBlank(line[6..9]) && IsBlank(line[14..17]))
    ensures ValidateAndSplitLine(line, lines).Ok? ==>
      ValidateAndSplitLine(line, lines).value == Columns(Trim(line[..6]), Trim(line[9..14]), Trim(line[17..]))
  {
    if |line| >= 17 {
      assert line[0..6] == line[..6];
    }
  }

  /** k spaces. */
  function Spaces(k: nat): (r: string)
    ensures |r| == k && forall i | 0 <= i < k :: r[i] == ' '
  {
    if k == 0 then "" else Spaces(k - 1) + " "
  }

  /** A field with nothing Java's trim would remove at either end. */
  predicate Trimmed(s: string)
  {
    |s| == 0 || (!IsTrimmable(s[0]) && !IsTrimmable(s[|s| - 1]))
  }

  /** The line that puts label, operation and operands in their columns. */
  function FixedColumns(symbol: string, operation: string, operands: string): (r: string)
    requires |symbol| <= 6 && |operation| <= 5
    ensures |r| == 17 + |operands|
  {
    symbol + Spaces(6 - |symbol|) + "   " + operation + Spaces(5 - |operation|) + "   " + operands
  }

  lemma TrimOfTrimmed(s: string)
    requires Trimmed(s)
    ensures Trim(s) == s
  {
  }

  lemma {:induction false} TrimEndPadded(s: string, k: nat)
    requires |s| == 0 || !IsTrimmable(s[|s| - 1])
    ensures TrimEnd(s + Spaces(k)) == s
  {
    if k == 0 {
      assert s + Spaces(k) == s;
    } else {
      var p := s + Spaces(k);
      assert p[..|p| - 1] == s + Spaces(k - 1);
      assert p[|p| - 1] == ' ';
      TrimEndPadded(s, k - 1);
    }
  }

  lemma {:induction false} TrimStartSpaces(k: nat)
    ensures TrimStart(Spaces(k)) == ""
  {
    if k > 0 {
      assert Spaces(k)[1..] == Spaces(k - 1) by {
        assert |Spaces(k)[1..]| == k - 1;
      }
      TrimStartSpaces(k - 1);
    }
  }

  lemma TrimPadded(s: string, k: nat)
    requires Trimmed(s)
    ensures Trim(s + Spaces(k)) == s
  {
    if |s| == 0 {
      assert s + Spaces(k) == Spaces(k);
      TrimStartSpaces(k);
    } else {
      var p := s + Spaces(k);
      assert p[0] == s[0];
      assert TrimStart(p) == p;
      TrimEndPadded(s, k);
    }
  }

  /**
   * Splitting undoes the column layout: a line built from a trimmed label that passes the
   * label rule, a trimmed operation and trimmed operands splits back into exactly those three.
   */
  lemma SplitFixedColumns(symbol: string, operation: string, operands: string, lines: seq<Line>)
    requires |symbol| <= 6 && |operation| <= 5
    requires Trimmed(symbol) && Trimmed(operation) && Trimmed(operands)
    requires LabelAllowed(symbol, lines)
    ensures ValidateAndSplitLine(FixedColumns(symbol, operation, operands), lines) ==
      Ok(Columns(symbol, operation, operands))
  {
    var line := FixedColumns(symbol, operation, operands);
    FixedColumnsSlices(symbol, operation, operands);
    TrimPadded(symbol, 6 - |symbol|);
    TrimPadded(operation, 5 - |operation|);
    TrimOfTrimmed(operands);
    assert Trim(line[0..6]) == symbol && Trim(line[9..14]) == operation && Trim(line[17..]) == operands;
    assert IsBlank(line[6..9]) && IsBlank(line[14..17]);
  }

  /** The five column ranges of a line laid out in fixed columns. */
  lemma FixedColumnsSlices(symbol: string, operation: string, operands: string)
    requires |symbol| <= 6 && |operation| <= 5
    ensures var line := FixedColumns(symbol, operation, operands);
      line[0..6] == symbol + Spaces(6 - |symbol|) && line[6..9] == "   " &&
      line[9..14] == operation + Spaces(5 - |operation|) && line[14..17] == "   " && line[17..] == operands
  {
    var line := FixedColumns(symbol, operation, operands);
    assert line[..6] == symbol + Spaces(6 - |symbol|);
    assert line[6..9] == "   ";
    assert line[9..14] == operation + Spaces(5 - |operation|);
    assert line[14..17] == "   ";
    assert line[17..] == operands;
  }

  // ---------------------------------------------------------------- operands

  /**
   * The check checkOperands applies to one trimmed piece s of the operand against its
   * expected shape t. PSEUDOOP checks the whole operand against the kind of the current line.
   * The only way it throws is the register test on "R" alone (charAt(1) out of range).
   */
  function OperandCheck(s: string, t: OperandType, operand: string, pseudo: Option<OpType>): Result<bool, ValidateError>
  {
    var firstCh := if |s| > 0 then s[0] else ' ';
    match t
    case REGISTER =>
      if firstCh == 'R' then
        if |s| > 2 then Ok(false)
        else if |s| < 2 then Err(IndexOutOfBounds)
        else Ok('0' <= s[1] <= '9' && s[1] as int - '0' as int <= 7)
      else Ok(CheckSymbol(s))
    case IMMEDIATE | INDEX | ADDRESS =>
      if firstCh == 'x' || firstCh == '#' then Ok(LeadingNumber(s[1..]))
      else if firstCh == 'R' then Ok(false)
      else Ok(CheckSymbol(s))
    case NONE =>
      Ok(IsBlank(s) || CheckSymbol(s))
    case PSEUDOOP =>
      Ok(PseudoOperandOk(operand, pseudo))
    case LITERAL =>
      if |s| >= 3 && s[0] == '=' then Ok(HexNumeral(s[1..]) || DecNumeral(s[1..]))
      else Ok(false)
  }

  /**
   * The shapes: a register is R0-R7 or a symbol not starting with R; an immediate, index or
   * address is x or # followed by an optional minus and a digit, or such a symbol; a literal
   * is = followed by an x-hex or #-decimal numeral; NONE is blank or a symbol. Only "R" alone
   * makes the check throw.
   */
  lemma OperandCheckShapes(s: string, t: OperandType, operand: string, pseudo: Option<OpType>)
    ensures OperandCheck(s, t, operand, pseudo).Err? <==> t == REGISTER && s == "R"
    ensures t == REGISTER ==> (OperandCheck(s, t, operand, pseudo) == Ok(true) <==>
      IsRegisterName(s) || (!StartsWith(s, 'R') && CheckSymbol(s)))
    ensures t in {IMMEDIATE, INDEX, ADDRESS} ==> (OperandCheck(s, t, operand, pseudo) == Ok(true) <==>
      if StartsWith(s, 'x') || StartsWith(s, '#') then LeadingNumber(s[1..])
      else !StartsWith(s, 'R') && CheckSymbol(s))
    ensures t == LITERAL ==> (OperandCheck(s, t, operand, pseudo) == Ok(true) <==>
      |s| >= 3 && s[0] == '=' && (HexNumeral(s[1..]) || DecNumeral(s[1..])))
    ensures t == NONE ==> (OperandCheck(s, t, operand, pseudo) == Ok(true) <==> IsBlank(s) || CheckSymbol(s))
  {
  }

  /**
   * The PSEUDOOP shape: a number (x-hex or #-decimal) or a symbol for .EQU and .BLKW; for
   * .ORIG a number, nothing or a comment; for .END also a symbol; for .FILL a number or a
   * symbol; anything for the other kinds.
   */
  predicate PseudoOperandOk(operand: string, pseudo: Option<OpType>)
  {
    var numeric := HexNumeral(operand) || DecNumeral(operand);
    if pseudo == Some(EQU) || pseudo == Some(BLKW) then numeric || CheckSymbol(operand)
    else if pseudo == Some(ORIG) then numeric || IsBlank(operand) || IsComment(operand)
    else if pseudo == Some(END) then numeric || IsBlank(operand) || IsComment(operand) || CheckSymbol(operand)
    else if pseudo == Some(FILL) then numeric || CheckSymbol(operand)
    else true
  }

  /** The loop of checkOperands from position i on: stop at the first piece that fails or throws. */
  function OperandsFrom(pieces: seq<string>, desired: seq<OperandType>, operand: string,
                        pseudo: Option<OpType>, i: nat): Result<bool, ValidateError>
    requires i <= |desired|
    decreases |desired| - i
  {
    if i == |desired| then Ok(true)
    else if i >= |pieces| then Err(IndexOutOfBounds)
    else
      match OperandCheck(Trim(pieces[i]), desired[i], operand, pseudo)
      case Err(e) => Err(e)
      case Ok(ok) => if !ok then Ok(false) else OperandsFrom(pieces, desired, operand, pseudo, i + 1)
  }

  /**
   * checkOperands: the operand split at commas must have one piece per expected shape (unless
   * the first shape is NONE), and each trimmed piece must have its shape.
   */
  function OperandsVerdict(operand: string, desired: seq<OperandType>, pseudo: Option<OpType>): (r: Result<bool, ValidateError>)
    ensures |desired| > 0 && desired[0] != NONE && |Split(operand, ',')| != |desired| ==> r == Ok(false)
  {
    var pieces := Split(operand, ',');
    if |pieces| != |desired| && (|desired| == 0 || desired[0] != NONE) then
      if |desired| == 0 then Err(IndexOutOfBounds) else Ok(false)
    else OperandsFrom(pieces, desired, operand, pseudo, 0)
  }

  lemma {:induction false} OperandsFromAccepts(pieces: seq<string>, desired: seq<OperandType>, operand: string,
                                               pseudo: Option<OpType>, i: nat)
    requires i <= |desired|
    ensures OperandsFrom(pieces, desired, operand, pseudo, i) == Ok(true) <==>
      (i < |desired| ==> |desired| <= |pieces|) &&
      forall k | i <= k < |desired| :: OperandCheck(Trim(pieces[k]), desired[k], operand, pseudo) == Ok(true)
    decreases |desired| - i
  {
    if i < |desired| && i < |pieces| {
      var c := OperandCheck(Trim(pieces[i]), desired[i], operand, pseudo);
      OperandsFromAccepts(pieces, desired, operand, pseudo, i + 1);
      if c == Ok(true) {
        assert OperandsFrom(pieces, desired, operand, pseudo, i) == OperandsFrom(pieces, desired, operand, pseudo, i + 1);
      } else {
        assert OperandsFrom(pieces, desired, operand, pseudo, i) != Ok(true);
      }
    }
  }

  /**
   * checkOperands accepts exactly when the piece count matches (or the first shape is NONE)
   * and every expected position has a piece of its shape.
   */
  lemma OperandsAccepted(operand: string, desired: seq<OperandType>, pseudo: Option<OpType>)
    ensures OperandsVerdict(operand, desired, pseudo) == Ok(true) <==>
      (|Split(operand, ',')| == |desired| || (|desired| > 0 && desired[0] == NONE)) &&
      |desired| <= |Split(operand, ',')| &&
      forall k | 0 <= k < |desired| :: OperandCheck(Trim(Split(operand, ',')[k]), desired[k], operand, pseudo) == Ok(true)
  {
    OperandsFromAccepts(Split(operand, ','), desired, operand, pseudo, 0);
  }

  /** The operand shapes validateOperand tries for each machine operation, in order. */
  function Forms(operation: string): Option<seq<seq<OperandType>>>
  {
    if operation in {"ADD", "AND"} then Some([[REGISTER, REGISTER, REGISTER], [REGISTER, REGISTER, IMMEDIATE]])
    else if operation in {"BR", "BRN", "BRZ", "BRP", "BRNZ", "BRNP", "BRZP", "BRNZP", "JSR", "JMP"} then
      Some([[ADDRESS]])
    else if operation in {"DBUG", "RET"} then Some([[NONE]])
    else if operation in {"JSRR", "JMPR"} then Some([[REGISTER, IMMEDIATE]])
    else if operation in {"LDI", "LEA", "ST", "STI"} then Some([[REGISTER, ADDRESS]])
    else if operation == "LD" then Some([[REGISTER, ADDRESS], [REGISTER, LITERAL]])
    else if operation in {"LDR", "STR"} then Some([[REGISTER, REGISTER, INDEX]])
    else if operation == "NOT" then Some([[REGISTER, REGISTER]])
    else if operation == "TRAP" then Some([[IMMEDIATE]])
    else None
  }

  /** Try the shapes in order: the first that accepts wins, and a throw ends the search. */
  function FirstAccepted(operand: string, forms: seq<seq<OperandType>>, pseudo: Option<OpType>): Result<bool, ValidateError>
  {
    if |forms| == 0 then Ok(false)
    else
      match OperandsVerdict(operand, forms[0], pseudo)
      case Err(e) => Err(e)
      case Ok(ok) => if ok then Ok(true) else FirstAccepted(operand, forms[1..], pseudo)
  }

  lemma {:induction false} FirstAcceptedSpec(operand: string, forms: seq<seq<OperandType>>, pseudo: Option<OpType>)
    ensures FirstAccepted(operand, forms, pseudo) == Ok(true) <==>
      exists k | 0 <= k < |forms| :: OperandsVerdict(operand, forms[k], pseudo) == Ok(true) &&
        forall j | 0 <= j < k :: OperandsVerdict(operand, forms[j], pseudo) == Ok(false)
  {
    if |forms| > 0 {
      FirstAcceptedSpec(operand, forms[1..], pseudo);
      var v := OperandsVerdict(operand, forms[0], pseudo);
      if v == Ok(false) {
        if FirstAccepted(operand, forms, pseudo) == Ok(true) {
          var k :| 0 <= k < |forms[1..]| && OperandsVerdict(operand, forms[1..][k], pseudo) == Ok(true) &&
            forall j | 0 <= j < k :: OperandsVerdict(operand, forms[1..][j], pseudo) == Ok(false);
          assert forall j | 0 <= j < k + 1 :: OperandsVerdict(operand, forms[j], pseudo) == Ok(false) by {
            forall j | 0 <= j < k + 1 ensures OperandsVerdict(operand, forms[j], pseudo) == Ok(false) {
              if j > 0 { assert forms[j] == forms[1..][j - 1]; }
            }
          }
          assert OperandsVerdict(operand, forms[k + 1], pseudo) == Ok(true);
        }
        if exists k | 0 <= k < |forms| :: OperandsVerdict(operand, forms[k], pseudo) == Ok(true) &&
             forall j | 0 <= j < k :: OperandsVerdict(operand, forms[j], pseudo) == Ok(false) {
          var k :| 0 <= k < |forms| && OperandsVerdict(operand, forms[k], pseudo) == Ok(true) &&
            forall j | 0 <= j < k :: OperandsVerdict(operand, forms[j], pseudo) == Ok(false);
          assert k > 0;
          assert forms[k] == forms[1..][k - 1];
          assert forall j | 0 <= j < k - 1 :: forms[1..][j] == forms[j + 1];
        }
      }
    }
  }

  /**
   * validateOperand: a non-empty operand (after trim) for a machine operation, accepted by one
   * of the operation's shapes with every earlier shape rejecting it.
   */
  function ValidateOperand(operand: string, operation: string, pseudo: Option<OpType>): Result<(), ValidateError>
  {
    var o := Trim(operand);
    if o == "" && !(operation == ".ORIG" || operation == ".END") then Err(InvalidOperand)
    else
      match Forms(operation)
      case None => Err(InvalidOperation)
      case Some(forms) =>
        match FirstAccepted(o, forms, pseudo)
        case Err(e) => Err(e)
        case Ok(ok) => if ok then Ok(()) else Err(InvalidOperand)
  }

  /**
   * validateOperand accepts exactly a non-empty operand of a machine operation that one of the
   * operation's shapes accepts, every earlier shape rejecting it without throwing.
   */
  lemma ValidateOperandSpec(operand: string, operation: string, pseudo: Option<OpType>)
    ensures ValidateOperand(operand, operation, pseudo).Ok? <==> (Trim(operand) != "" && Forms(operation).Some? &&
      exists k | 0 <= k < |Forms(operation).value| ::
        OperandsVerdict(Trim(operand), Forms(operation).value[k], pseudo) == Ok(true) &&
        forall j | 0 <= j < k :: OperandsVerdict(Trim(operand), Forms(operation).value[j], pseudo) == Ok(false))
  {
    if Forms(operation).Some? {
      FirstAcceptedSpec(Trim(operand), Forms(operation).value, pseudo);
    }
  }

  /** stripArray: the trimmed words up to the first one that starts a comment. */
  function StripArray(words: seq<string>): (r: seq<string>)
    ensures |r| <= |words|
    ensures forall i | 0 <= i < |r| :: r[i] == Trim(words[i]) && !StartsWith(r[i], ';')
    ensures |r| < |words| ==> StartsWith(Trim(words[|r|]), ';')
  {
    if |words| == 0 then []
    else
      var s := Trim(words[0]);
      if StartsWith(s, ';') then [] else [s] + StripArray(words[1..])
  }

  /** containsAnyKey: some space-separated word of the trimmed line, trimmed, is a machine op. */
  predicate ContainsAnyKey(table: OpTable, input: string)
  {
    var words := Split(Trim(input), ' ');
    exists i | 0 <= i < |words| :: Trim(words[i]) in table
  }

  /** isDebugOrRet: some space-separated word is DBUG or RET and a machine op. */
  predicate IsDebugOrRet(table: OpTable, input: string)
  {
    var words := Split(Trim(input), ' ');
    exists i | 0 <= i < |words| :: Trim(words[i]) in table && Trim(words[i]) in {"DBUG", "RET"}
  }

  /**
   * validateInstruction: the words before the comment are label, operation and operand, or
   * operation and operand, or a lone DBUG/RET.
   */
  function ValidateInstruction(table: OpTable, line: string, pseudo: Option<OpType>): Result<(), ValidateError>
  {
    var lineArr := SplitSpaces(Trim(line));
    var arr := StripArray(lineArr);
    if |arr| == 3 then
      if !CheckSymbol(arr[0]) then Err(InvalidSymbol)
      else ValidateOperand(Trim(arr[2]), Trim(arr[1]), pseudo)
    else if |arr| == 2 then ValidateOperand(Trim(arr[1]), Trim(arr[0]), pseudo)
    else if |lineArr| == 0 then Err(IndexOutOfBounds)
    else if !IsDebugOrRet(table, lineArr[0]) then Err(InvalidLine)
    else Ok(())
  }

  /** validateOperation: the operation is the line kind's directive or a machine op. */
  predicate ValidOperation(table: OpTable, operation: string, t: OpType)
  {
    var op := Trim(operation);
    op == "." + TypeName(t) || op in table
  }

  /**
   * validateEntOrExt: no label; and unless the operation column starts a comment, every
   * comma-separated operand is a symbol.
   */
  function ValidateEntOrExt(columns: Columns): Result<(), ValidateError>
  {
    if !IsBlank(columns.symbol) then Err(LabelOnEntExt)
    else
      var op := Trim(columns.operation);
      if |op| == 0 then Err(IndexOutOfBounds)
      else if op[0] != ';' then
        var symbols := Split(columns.operands, ',');
        if forall i | 0 <= i < |symbols| :: CheckSymbol(Trim(symbols[i])) then Ok(()) else Err(InvalidSymbol)
      else Ok(())
  }

  // ---------------------------------------------------------------- one call of validate

  /** The operands with their first and last character dropped when they hold a double quote. */
  function Unquoted(operands: string): Result<string, ValidateError>
  {
    if '"' in operands then
      if |operands| < 2 then Err(IndexOutOfBounds) else Ok(operands[1..|operands| - 1])
    else Ok(operands)
  }

  /**
   * validate: the new state and the answer for one source line. State changes made before a
   * later check throws are kept, as in the Java fields.
   */
  function Validation(st: Status, table: OpTable, line: string, lines: seq<Line>, lineCount: int): Outcome
  {
    if IsBlank(line) then Outcome(st, Err(EmptyLine))
    else
      match GetLineType(line)
      case Err(e) => Outcome(st, Err(e))
      case Ok(t) =>
        var st1 := st.(pseudoOp := Some(t));
        if t == COMMENT then Outcome(st1.(counter := st.counter + 1), Ok(None))
        else if t == UNKNOWN && !ContainsAnyKey(table, line) then Outcome(st1, Err(NoOperation))
        else
          var inst := if t == UNKNOWN then ValidateInstruction(table, line, Some(t)) else Ok(());
          if inst.Err? then Outcome(st1, Err(inst.error))
          else Classified(st1, t, table, line, lines, lineCount)
  }

  /** validate after the line kind is known: strip the comment, split, check .ENT/.EXT or the pseudo-op operand. */
  function Classified(st: Status, t: OpType, table: OpTable, line: string, lines: seq<Line>, lineCount: int): (o: Outcome)
    requires st.pseudoOp == Some(t) && t != COMMENT
  {
    match StripComment(line)
    case Err(e) => Outcome(st, Err(e))
    case Ok(stripped) =>
      match ValidateAndSplitLine(stripped, lines)
      case Err(e) => Outcome(st, Err(e))
      case Ok(columns) => Checked(st, t, table, columns, lineCount)
  }

  /** validate on the split columns: .ENT/.EXT placement, then the pseudo-op operand check. */
  function Checked(st: Status, t: OpType, table: OpTable, columns: Columns, lineCount: int): (o: Outcome)
    requires st.pseudoOp == Some(t) && t != COMMENT
  {
    if t == ENT || t == EXT then
      if lineCount - st.counter != 2 then Outcome(st, Err(EntExtNotAfterOrig))
      else
        match ValidateEntOrExt(columns)
        case Err(e) => Outcome(st, Err(e))
        case Ok(_) => Finished(st.(counter := st.counter + 1), t, table, columns, lineCount)
    else if t != INSTRUCTION && t != UNKNOWN then
      match OperandsVerdict(columns.operands, [PSEUDOOP], st.pseudoOp)
      case Err(e) => Outcome(st, Err(e))
      case Ok(ok) => if !ok then Outcome(st, Err(InvalidOperand)) else Finished(st, t, table, columns, lineCount)
    else Finished(st, t, table, columns, lineCount)
  }

  /** validate's last steps: unquote, check the operation, record .ORIG/.END, check the .EQU/.ORIG label. */
  function Finished(st: Status, t: OpType, table: OpTable, columns: Columns, lineCount: int): (o: Outcome)
    requires st.pseudoOp == Some(t) && t != COMMENT
  {
    match Unquoted(columns.operands)
    case Err(e) => Outcome(st, Err(e))
    case Ok(operands) =>
      var l := Line(columns.symbol, columns.operation, operands, DecString(lineCount));
      if !ValidOperation(table, columns.operation, t) then Outcome(st, Err(InvalidOperation))
      else if t == ORIG && lineCount - st.counter != 1 then Outcome(st, Err(OrigNotFirst))
      else
        var st2 := if t == END || t == ORIG then st.(origAndEnd := st.origAndEnd + [TypeName(t)]) else st;
        if (t == EQU || t == ORIG) && !CheckSymbol(Trim(columns.symbol)) then Outcome(st2, Err(MissingLabel))
        else Outcome(st2, Ok(Some(l)))
  }

  /** Finished keeps the kind and the counter, records at most the line's own .ORIG/.END, and accepts the unquoted columns. */
  lemma FinishedSpec(st: Status, t: OpType, table: OpTable, columns: Columns, lineCount: int)
    requires st.pseudoOp == Some(t) && t != COMMENT
    ensures var o := Finished(st, t, table, columns, lineCount);
      o.status.pseudoOp == st.pseudoOp && o.status.counter == st.counter &&
      (o.status.origAndEnd == st.origAndEnd || ((t == ORIG || t == END) && o.status.origAndEnd == st.origAndEnd + [TypeName(t)]))
    ensures var o := Finished(st, t, table, columns, lineCount);
      o.result.Ok? ==> (Unquoted(columns.operands).Ok? &&
        o.result.value == Some(Line(columns.symbol, columns.operation, Unquoted(columns.operands).value, DecString(lineCount))))
    ensures var o := Finished(st, t, table, columns, lineCount);
      o.result.Ok? && t == ORIG ==>
        lineCount - st.counter == 1 && o.status.origAndEnd == st.origAndEnd + ["ORIG"] && CheckSymbol(Trim(columns.symbol))
  {
  }

  /** Checked: the same facts one stage earlier, where .ENT/.EXT lines are placed and counted. */
  lemma CheckedSpec(st: Status, t: OpType, table: OpTable, columns: Columns, lineCount: int)
    requires st.pseudoOp == Some(t) && t != COMMENT
    ensures var o := Checked(st, t, table, columns, lineCount);
      o.status.pseudoOp == Some(t) &&
      (o.status.counter == st.counter || ((t == ENT || t == EXT) && o.status.counter == st.counter + 1)) &&
      (o.status.origAndEnd == st.origAndEnd || ((t == ORIG || t == END) && o.status.origAndEnd == st.origAndEnd + [TypeName(t)]))
    ensures var o := Checked(st, t, table, columns, lineCount);
      o.result.Ok? ==> (Unquoted(columns.operands).Ok? &&
        o.result.value == Some(Line(columns.symbol, columns.operation, Unquoted(columns.operands).value, DecString(lineCount))))
    ensures var o := Checked(st, t, table, columns, lineCount);
      o.result.Ok? && (t == ENT || t == EXT) ==> lineCount - st.counter == 2 && o.status.counter == st.counter + 1
    ensures var o := Checked(st, t, table, columns, lineCount);
      o.result.Ok? && t == ORIG ==>
        lineCount - st.counter == 1 && o.status.origAndEnd == st.origAndEnd + ["ORIG"] && CheckSymbol(Trim(columns.symbol))
  {
    if t == ENT || t == EXT {
      if lineCount - st.counter == 2 && ValidateEntOrExt(columns).Ok? {
        FinishedSpec(st.(counter := st.counter + 1), t, table, columns, lineCount);
      }
    } else {
      FinishedSpec(st, t, table, columns, lineCount);
    }
  }

  /** Classified: the same facts once the comment is stripped and the line split into columns. */
  lemma ClassifiedSpec(st: Status, t: OpType, table: OpTable, line: string, lines: seq<Line>, lineCount: int)
    requires st.pseudoOp == Some(t) && t != COMMENT
    ensures var o := Classified(st, t, table, line, lines, lineCount);
      o.status.pseudoOp == Some(t) &&
      (o.status.counter == st.counter || ((t == ENT || t == EXT) && o.status.counter == st.counter + 1)) &&
      (o.status.origAndEnd == st.origAndEnd || ((t == ORIG || t == END) && o.status.origAndEnd == st.origAndEnd + [TypeName(t)]))
    ensures var o := Classified(st, t, table, line, lines, lineCount);
      o.result.Ok? ==>
        StripComment(line).Ok? && ValidateAndSplitLine(StripComment(line).value, lines).Ok? &&
        var c := ValidateAndSplitLine(StripComment(line).value, lines).value;
        Unquoted(c.operands).Ok? &&
        o.result.value == Some(Line(c.symbol, c.operation, Unquoted(c.operands).value, DecString(lineCount)))
    ensures var o := Classified(st, t, table, line, lines, lineCount);
      o.result.Ok? && (t == ENT || t == EXT) ==> lineCount - st.counter == 2 && o.status.counter == st.counter + 1
    ensures var o := Classified(st, t, table, line, lines, lineCount);
      o.result.Ok? && t == ORIG ==>
        lineCount - st.counter == 1 && o.status.origAndEnd == st.origAndEnd + ["ORIG"] &&
        CheckSymbol(Trim(o.result.value.value.symbol))
  {
    match StripComment(line)
    case Err(_) =>
    case Ok(stripped) =>
      match ValidateAndSplitLine(stripped, lines)
      case Err(_) =>
      case Ok(columns) => CheckedSpec(st, t, table, columns, lineCount);
  }

  /**
   * What one call may change: a blank line changes nothing; a comment line only sets the kind
   * and counts itself; otherwise the counter grows by at most one and the .ORIG/.END record by
   * at most one ORIG or END.
   */
  lemma ValidationFrame(st: Status, table: OpTable, line: string, lines: seq<Line>, lineCount: int)
    ensures IsBlank(line) ==> Validation(st, table, line, lines, lineCount) == Outcome(st, Err(EmptyLine))
    ensures (!IsBlank(line) && IsComment(line)) ==>
      (Validation(st, table, line, lines, lineCount) == Outcome(Status(Some(COMMENT), st.origAndEnd, st.counter + 1), Ok(None)))
    ensures var o := Validation(st, table, line, lines, lineCount);
      (o.status.counter == st.counter || o.status.counter == st.counter + 1) &&
      (o.status.origAndEnd == st.origAndEnd ||
       o.status.origAndEnd == st.origAndEnd + ["ORIG"] || o.status.origAndEnd == st.origAndEnd + ["END"])
  {
    if !IsBlank(line) && GetLineType(line).Ok? {
      var t := GetLineType(line).value;
      if t != COMMENT {
        ClassifiedSpec(st.(pseudoOp := Some(t)), t, table, line, lines, lineCount);
      }
    }
  }

  /**
   * An accepted line is the comment-stripped line split into its columns: the trimmed label
   * (passing the label rule), the trimmed operation and the trimmed operands with surrounding
   * quotes removed, plus the line number.
   */
  lemma AcceptedColumns(st: Status, table: OpTable, line: string, lines: seq<Line>, lineCount: int)
    requires Validation(st, table, line, lines, lineCount).result.Ok?
    requires Validation(st, table, line, lines, lineCount).result.value.Some?
    ensures var l := Validation(st, table, line, lines, lineCount).result.value.value;
      var s := StripComment(line);
      s.Ok? && |s.value| >= 17 && IsBlank(s.value[6..9]) && IsBlank(s.value[14..17]) &&
      l.symbol == Trim(s.value[..6]) && LabelAllowed(l.symbol, lines) &&
      l.operation == Trim(s.value[9..14]) &&
      Unquoted(Trim(s.value[17..])) == Ok(l.operands) && l.number == DecString(lineCount)
  {
    var t := GetLineType(line).value;
    ClassifiedSpec(st.(pseudoOp := Some(t)), t, table, line, lines, lineCount);
    SplitLineSpec(StripComment(line).value, lines);
  }

  /**
   * Placement rules: an accepted .ENT/.EXT line comes two lines after the last comment/.ENT/.EXT
   * count and is counted itself; an accepted .ORIG line comes first, has a valid label and is
   * recorded.
   */
  lemma AcceptedPlacement(st: Status, table: OpTable, line: string, lines: seq<Line>, lineCount: int)
    ensures var o := Validation(st, table, line, lines, lineCount);
      o.result.Ok? && (o.status.pseudoOp == Some(ENT) || o.status.pseudoOp == Some(EXT)) ==>
        lineCount - st.counter == 2 && o.status.counter == st.counter + 1
    ensures var o := Validation(st, table, line, lines, lineCount);
      o.result.Ok? && o.status.pseudoOp == Some(ORIG) ==>
        lineCount - st.counter == 1 && o.status.origAndEnd == st.origAndEnd + ["ORIG"] &&
        o.result.value.Some? && CheckSymbol(Trim(o.result.value.value.symbol))
  {
    if !IsBlank(line) && GetLineType(line).Ok? {
      var t := GetLineType(line).value;
      var st1 := st.(pseudoOp := Some(t));
      if t != COMMENT {
        ClassifiedSpec(st1, t, table, line, lines, lineCount);
        assert Validation(st, table, line, lines, lineCount).result.Ok? ==>
          Validation(st, table, line, lines, lineCount) == Classified(st1, t, table, line, lines, lineCount);
      }
    }
  }

  /** Validate: the per-file validator and the state it keeps between lines. */
  class Validate {
    const mot: MachineOpTable.MachineOpTable
    var psudeoOP: Option<OpType>
    var fileContainsOrigAndEnd: seq<string>
    var commentOrEntExtCounter: int

    /** Only .ORIG and .END lines are ever recorded. */
    predicate Valid()
      reads this
    {
      forall i | 0 <= i < |fileContainsOrigAndEnd| :: fileContainsOrigAndEnd[i] in {"ORIG", "END"}
    }

    function Snapshot(): Status
      reads this
    {
      Status(psudeoOP, fileContainsOrigAndEnd, commentOrEntExtCounter)
    }

    constructor(mot: MachineOpTable.MachineOpTable)
      ensures this.mot == mot && Valid()
      ensures psudeoOP == None && fileContainsOrigAndEnd == [] && commentOrEntExtCounter == 1
    {
      this.mot := mot;
      psudeoOP := None;
      fileContainsOrigAndEnd := [];
      commentOrEntExtCounter := 1;
    }

    /** checkOperands, reading the kind of the current line. */
    method CheckOperands(operand: string, desiredOps: seq<OperandType>) returns (r: Result<bool, ValidateError>)
      ensures r == OperandsVerdict(operand, desiredOps, psudeoOP)
    {
      var op := Split(operand, ',');
      if |op| != |desiredOps| && (|desiredOps| == 0 || desiredOps[0] != NONE) {
        if |desiredOps| == 0 {
          return Err(IndexOutOfBounds);
        }
        return Ok(false);
      }
      var i := 0;
      while i < |desiredOps|
        invariant 0 <= i <= |desiredOps|
        invariant OperandsFrom(op, desiredOps, operand, psudeoOP, i) == OperandsVerdict(operand, desiredOps, psudeoOP)
      {
        if i >= |op| {
          return Err(IndexOutOfBounds);
        }
        var currentString := Trim(op[i]);
        var check := OperandCheck(currentString, desiredOps[i], operand, psudeoOP);
        if check.Err? {
          return Err(check.error);
        }
        if !check.value {
          return Ok(false);
        }
        i := i + 1;
      }
      return Ok(true);
    }

    /** validate: check one line, updating the kind, the counter and the .ORIG/.END record. */
    method Validate(line: string, lines: seq<Line>, lineCount: int) returns (r: Result<Option<Line>, ValidateError>)
      requires Valid()
      modifies this
      ensures Valid()
      ensures Outcome(Snapshot(), r) == Validation(old(Snapshot()), mot.table, line, lines, lineCount)
    {
      if IsBlank(line) {
        return Err(EmptyLine);
      }
      var lineType := GetLineType(line);
      if lineType.Err? {
        return Err(lineType.error);
      }
      var t := lineType.value;
      psudeoOP := Some(t);
      if t == COMMENT {
        commentOrEntExtCounter := commentOrEntExtCounter + 1;
        return Ok(None);
      } else if t == UNKNOWN {
        if !ContainsAnyKey(mot.table, line) {
          return Err(NoOperation);
        }
        var inst := ValidateInstruction(mot.table, line, psudeoOP);
        if inst.Err? {
          return Err(inst.error);
        }
      }
      var stripped := StripComment(line);
      if stripped.Err? {
        return Err(stripped.error);
      }
      var split := ValidateAndSplitLine(stripped.value, lines);
      if split.Err? {
        return Err(split.error);
      }
      r := CheckColumns(t, split.value, lineCount);
    }

    /** validate once the line is split: place and count .ENT/.EXT, check a pseudo-op's operand, then finish. */
    method CheckColumns(t: OpType, result: Columns, lineCount: int) returns (r: Result<Option<Line>, ValidateError>)
      requires Valid() && psudeoOP == Some(t) && t != COMMENT
      modifies this
      ensures Valid()
      ensures Outcome(Snapshot(), r) == Checked(old(Snapshot()), t, mot.table, result, lineCount)
    {
      if t == ENT || t == EXT {
        if lineCount - commentOrEntExtCounter != 2 {
          return Err(EntExtNotAfterOrig);
        }
        var entExt := ValidateEntOrExt(result);
        if entExt.Err? {
          return Err(entExt.error);
        }
        commentOrEntExtCounter := commentOrEntExtCounter + 1;
      } else if t != INSTRUCTION && t != UNKNOWN {
        var isValidOperand := CheckOperands(result.operands, [PSEUDOOP]);
        if isValidOperand.Err? {
          return Err(isValidOperand.error);
        }
        if !isValidOperand.value {
          return Err(InvalidOperand);
        }
      }
      r := FinishLine(t, result, lineCount);
    }

    /** validate's last steps, once the columns are known: unquote, check the operation, record .ORIG/.END, check the label. */
    method FinishLine(t: OpType, result: Columns, lineCount: int) returns (r: Result<Option<Line>, ValidateError>)
      requires Valid() && psudeoOP == Some(t) && t != COMMENT
      modifies this
      ensures Valid()
      ensures Outcome(Snapshot(), r) == Finished(old(Snapshot()), t, mot.table, result, lineCount)
    {
      var operands := Unquoted(result.operands);
      if operands.Err? {
        return Err(operands.error);
      }
      var l := Line(result.symbol, result.operation, operands.value, DecString(lineCount));
      if !ValidOperation(mot.table, result.operation, t) {
        return Err(InvalidOperation);
      }
      if t == END || t == ORIG {
        if lineCount - commentOrEntExtCounter != 1 && t == ORIG {
          return Err(OrigNotFirst);
        }
        fileContainsOrigAndEnd := fileContainsOrigAndEnd + [TypeName(t)];
      }
      if t == EQU || t == ORIG {
        if !CheckSymbol(Trim(result.symbol)) {
          return Err(MissingLabel);
        }
      }
      return Ok(Some(l));
    }

    /** doesFileContainsOrigAndEnd: exactly two .ORIG/.END lines were recorded. */
    function DoesFileContainsOrigAndEnd(): (r: bool)
      reads this
      ensures Valid() ==> (r <==>
        |fileContainsOrigAndEnd| == 2 && forall i | 0 <= i < 2 :: fileContainsOrigAndEnd[i] in {"ORIG", "END"})
    {
      |fileContainsOrigAndEnd| == 2
    }
  }
}
