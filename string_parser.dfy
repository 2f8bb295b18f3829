/**
 * String_Parser: the assembler's stateless number codec. Tokens are `#dec`, `xhex` or a
 * literal `=#dec` / `=xhex`. The parsers range-check them against the machine's field families
 * (imm5, index6, trapvect8, address, word), and the renderers produce the fixed-width binary and
 * hex strings Pass 2 assembles words from, including the 9-bit page offset.
 *
 * Pass2Exception becomes Err(Pass2Error); a Java runtime exception that escapes a method
 * (NumberFormatException from Integer.parseInt, StringIndexOutOfBoundsException from charAt)
 * becomes Err(RuntimeFailure).
 */
module StringParser {
  import opened Wrappers
  import opened JavaText

  const INVALID_NUMBER: int := -0xFFFF

  const IMMEDIATE_HEX_MAX: int := 0x1F
  const IMMEDIATE_DEC_MIN: int := -16
  const IMMEDIATE_DEC_MAX: int := 15
  const INDEX_HEX_MAX: int := 0x3F
  const INDEX_DEC_MAX: int := 63
  const TRAP_HEX_MAX: int := 0xFF
  const TRAP_DEC_MAX: int := 255
  const ADDRESS_HEX_MAX: int := 0xFFFF
  const ADDRESS_DEC_MAX: int := 65535
  const WORD_MIN: int := -32768
  const WORD_MAX: int := 32767

  /** The operand fields a value can be rendered into. */
  datatype Field = Immediate | Index | Trapvect | Address | Register | FillValue | EquValue

  /** Why Pass 2 stops: the Pass2Exception messages, by kind. */
  datatype Pass2Error =
    | InvalidValue(field: Field)
    | ValueOutOfRange(field: Field)
    | PageMismatch(pcPage: int, addressPage: int)
    | LiteralNotFound(literal: string)
    | LiteralOutOfRange
    | InvalidLiteral
    | ForwardReference(symbol: string)
    | InvalidBlockLength
    | TooManyEntries
    | NotRelative(symbol: string)
    | TooManyExternals
    | ExternalAlreadyDefined(symbol: string)
    | SegmentTooLarge
    | SegmentExceedsPage
    | ExternalAsAbsolute(symbol: string)
    | SymbolNotFound(symbol: string)
    | NotAbsolute(symbol: string)
    | RuntimeFailure

  predicate IsHex(input: string, index: nat) { |input| > index && input[index] == 'x' }

  predicate IsDecimal(input: string, index: nat) { |input| > index && input[index] == '#' }

  /** A hex token: `x...`, or a literal `=x...` of more than two characters. */
  predicate HexToken(input: string)
  {
    IsHex(input, 0) || (|input| > 2 && input[0] == '=' && IsHex(input, 1))
  }

  /** A decimal token: `#...`, or a literal `=#...` of more than two characters. */
  predicate DecimalToken(input: string)
  {
    IsDecimal(input, 0) || (|input| > 2 && input[0] == '=' && IsDecimal(input, 1))
  }

  function FromOption(o: Option<int>): (r: Result<int, Pass2Error>)
    ensures r.Ok? <==> o.Some?
    ensures r.Ok? ==> r.value == o.value
  {
    match o
    case None => Err(RuntimeFailure)
    case Some(v) => Ok(v)
  }

  /** isInteger: the digits parse, within [0, 0xFFFF] for hex and [-32768, 65535] for decimal. */
  predicate IsInteger(input: string, radix: nat)
  {
    match ParseInt(input, radix)
    case None => false
    case Some(v) => if radix == 16 then 0 <= v <= ADDRESS_HEX_MAX else WORD_MIN <= v <= ADDRESS_DEC_MAX
  }

  /** canParseInt. */
  predicate CanParseInt(input: string)
  {
    if |input| < 2 then false
    else if input[0] == '=' && |input| > 2 then
      if input[1] == 'x' then IsInteger(input[2..], 16)
      else if input[1] == '#' then IsInteger(input[2..], 10)
      else false
    else if input[0] == 'x' then IsInteger(input[1..], 16)
    else if input[0] == '#' then IsInteger(input[1..], 10)
    else false
  }

  /**
   * The private parseInt: the value of a token, INVALID_NUMBER for a string that is not one,
   * and RuntimeFailure where Java throws (fewer than two characters, bad digits, overflow).
   */
  function ParseNumber(input: string): (r: Result<int, Pass2Error>)
    ensures r.Ok? ==> r.value == INVALID_NUMBER || IsInt32(r.value)
    ensures r.Ok? && !HexToken(input) && !DecimalToken(input) ==> r.value == INVALID_NUMBER
  {
    if |input| < 2 then Err(RuntimeFailure)
    else if input[0] == '=' && |input| > 2 then
      if input[1] == 'x' then FromOption(ParseInt(input[2..], 16))
      else if input[1] == '#' then FromOption(ParseInt(input[2..], 10))
      else Ok(INVALID_NUMBER)
    else if input[0] == 'x' then FromOption(ParseInt(input[1..], 16))
    else if input[0] == '#' then FromOption(ParseInt(input[1..], 10))
    else Ok(INVALID_NUMBER)
  }

  /**
   * canParseInt holds exactly for tokens that parse, hex ones within [0, 0xFFFF] and decimal
   * ones within [-32768, 65535]; in particular it is false below two characters.
   */
  lemma CanParseIntMeaning(input: string)
    ensures CanParseInt(input) <==>
      |input| >= 2 && ParseNumber(input).Ok? &&
      ((HexToken(input) && 0 <= ParseNumber(input).value <= ADDRESS_HEX_MAX) ||
       (DecimalToken(input) && WORD_MIN <= ParseNumber(input).value <= ADDRESS_DEC_MAX))
  {
  }

  /** The shared shape of parseImmediate / parseIndex / parseTrapvect / parseAddress / parseUnionRange. */
  function ParseInRange(input: string, hexMax: int, decMin: int, decMax: int): (r: Result<int, Pass2Error>)
    ensures r.Ok? <==> ParseNumber(input).Ok?
    ensures r.Ok? && r.value != INVALID_NUMBER ==> r.value == ParseNumber(input).value
    ensures r.Ok? && r.value != INVALID_NUMBER ==>
      (IsHex(input, 0) && 0 <= r.value <= hexMax) || (IsDecimal(input, 0) && decMin <= r.value <= decMax)
  {
    var val :- ParseNumber(input);
    if (IsHex(input, 0) && 0 <= val <= hexMax) || (IsDecimal(input, 0) && decMin <= val <= decMax) then
      Ok(val)
    else
      Ok(INVALID_NUMBER)
  }

  function ParseImmediate(input: string): (r: Result<int, Pass2Error>)
    ensures r.Ok? <==> ParseNumber(input).Ok?
    ensures r.Ok? && r.value != INVALID_NUMBER ==> r.value == ParseNumber(input).value
    ensures r.Ok? && r.value != INVALID_NUMBER ==>
      (IsHex(input, 0) && 0 <= r.value <= IMMEDIATE_HEX_MAX) ||
      (IsDecimal(input, 0) && IMMEDIATE_DEC_MIN <= r.value <= IMMEDIATE_DEC_MAX)
  {
    ParseInRange(input, IMMEDIATE_HEX_MAX, IMMEDIATE_DEC_MIN, IMMEDIATE_DEC_MAX)
  }

  function ParseIndex(input: string): (r: Result<int, Pass2Error>)
    ensures r.Ok? <==> ParseNumber(input).Ok?
    ensures r.Ok? && r.value != INVALID_NUMBER ==> r.value == ParseNumber(input).value
    ensures r.Ok? && r.value != INVALID_NUMBER ==> 0 <= r.value <= INDEX_DEC_MAX
  {
    ParseInRange(input, INDEX_HEX_MAX, 0, INDEX_DEC_MAX)
  }

  function ParseTrapvect(input: string): (r: Result<int, Pass2Error>)
    ensures r.Ok? <==> ParseNumber(input).Ok?
    ensures r.Ok? && r.value != INVALID_NUMBER ==> r.value == ParseNumber(input).value
    ensures r.Ok? && r.value != INVALID_NUMBER ==> 0 <= r.value <= TRAP_DEC_MAX
  {
    ParseInRange(input, TRAP_HEX_MAX, 0, TRAP_DEC_MAX)
  }

  function ParseAddress(input: string): (r: Result<int, Pass2Error>)
    ensures r.Ok? <==> ParseNumber(input).Ok?
    ensures r.Ok? && r.value != INVALID_NUMBER ==> r.value == ParseNumber(input).value
    ensures r.Ok? && r.value != INVALID_NUMBER ==> 0 <= r.value <= ADDRESS_DEC_MAX
  {
    ParseInRange(input, ADDRESS_HEX_MAX, 0, ADDRESS_DEC_MAX)
  }

  function ParseUnionRange(input: string): (r: Result<int, Pass2Error>)
    ensures r.Ok? <==> ParseNumber(input).Ok?
    ensures r.Ok? && r.value != INVALID_NUMBER ==> r.value == ParseNumber(input).value
    ensures r.Ok? && r.value != INVALID_NUMBER ==>
      (IsHex(input, 0) && 0 <= r.value <= ADDRESS_HEX_MAX) ||
      (IsDecimal(input, 0) && WORD_MIN <= r.value <= WORD_MAX)
  {
    ParseInRange(input, ADDRESS_HEX_MAX, WORD_MIN, WORD_MAX)
  }

  /** A `#` token of an int: its value when within the decimal range, INVALID_NUMBER otherwise. */
  lemma ParseInRangeDecimal(v: int, hexMax: int, decMin: int, decMax: int)
    requires IsInt32(v)
    ensures ParseInRange("#" + DecString(v), hexMax, decMin, decMax)
      == Ok(if decMin <= v <= decMax then v else INVALID_NUMBER)
  {
    var s := DecString(v);
    ParseDecString(v);
    assert ("#" + s)[1..] == s;
  }

  /** An `x` token of a non-negative int: its value when at most hexMax, INVALID_NUMBER otherwise. */
  lemma ParseInRangeHex(v: nat, hexMax: int, decMin: int, decMax: int)
    requires v <= INT_MAX
    ensures ParseInRange("x" + ToHexString(v), hexMax, decMin, decMax)
      == Ok(if v <= hexMax then v else INVALID_NUMBER)
  {
    var s := ToHexString(v);
    ParseHexString(v);
    assert ("x" + s)[1..] == s;
  }

  /** parseImmediate returns exactly the values in [-16, 15] (decimal) and [0, 0x1F] (hex). */
  lemma ImmediateRoundTrip(v: int)
    requires IsInt32(v)
    ensures ParseImmediate("#" + DecString(v)) == Ok(if -16 <= v <= 15 then v else INVALID_NUMBER)
    ensures v >= 0 ==> ParseImmediate("x" + ToHexString(v)) == Ok(if v <= 0x1F then v else INVALID_NUMBER)
  {
    ParseInRangeDecimal(v, IMMEDIATE_HEX_MAX, IMMEDIATE_DEC_MIN, IMMEDIATE_DEC_MAX);
    if v >= 0 {
      ParseInRangeHex(v, IMMEDIATE_HEX_MAX, IMMEDIATE_DEC_MIN, IMMEDIATE_DEC_MAX);
    }
  }

  /** parseIndex returns exactly the values in [0, 63], in either notation. */
  lemma IndexRoundTrip(v: int)
    requires IsInt32(v)
    ensures ParseIndex("#" + DecString(v)) == Ok(if 0 <= v <= 63 then v else INVALID_NUMBER)
    ensures v >= 0 ==> ParseIndex("x" + ToHexString(v)) == Ok(if v <= 63 then v else INVALID_NUMBER)
  {
    ParseInRangeDecimal(v, INDEX_HEX_MAX, 0, INDEX_DEC_MAX);
    if v >= 0 {
      ParseInRangeHex(v, INDEX_HEX_MAX, 0, INDEX_DEC_MAX);
    }
  }

  /** parseTrapvect returns exactly the values in [0, 255], in either notation. */
  lemma TrapvectRoundTrip(v: int)
    requires IsInt32(v)
    ensures ParseTrapvect("#" + DecString(v)) == Ok(if 0 <= v <= 255 then v else INVALID_NUMBER)
    ensures v >= 0 ==> ParseTrapvect("x" + ToHexString(v)) == Ok(if v <= 255 then v else INVALID_NUMBER)
  {
    ParseInRangeDecimal(v, TRAP_HEX_MAX, 0, TRAP_DEC_MAX);
    if v >= 0 {
      ParseInRangeHex(v, TRAP_HEX_MAX, 0, TRAP_DEC_MAX);
    }
  }

  /** parseAddress returns exactly the values in [0, 65535], in either notation. */
  lemma AddressRoundTrip(v: int)
    requires IsInt32(v)
    ensures ParseAddress("#" + DecString(v)) == Ok(if 0 <= v <= 65535 then v else INVALID_NUMBER)
    ensures v >= 0 ==> ParseAddress("x" + ToHexString(v)) == Ok(if v <= 0xFFFF then v else INVALID_NUMBER)
  {
    ParseInRangeDecimal(v, ADDRESS_HEX_MAX, 0, ADDRESS_DEC_MAX);
    if v >= 0 {
      ParseInRangeHex(v, ADDRESS_HEX_MAX, 0, ADDRESS_DEC_MAX);
    }
  }

  /** parseUnionRange returns exactly [-32768, 32767] in decimal and [0, 0xFFFF] in hex. */
  lemma UnionRangeRoundTrip(v: int)
    requires IsInt32(v)
    ensures ParseUnionRange("#" + DecString(v)) == Ok(if WORD_MIN <= v <= WORD_MAX then v else INVALID_NUMBER)
    ensures v >= 0 ==> ParseUnionRange("x" + ToHexString(v)) == Ok(if v <= 0xFFFF then v else INVALID_NUMBER)
  {
    ParseInRangeDecimal(v, ADDRESS_HEX_MAX, WORD_MIN, WORD_MAX);
    if v >= 0 {
      ParseInRangeHex(v, ADDRESS_HEX_MAX, WORD_MIN, WORD_MAX);
    }
  }

  /** An address written as `x` and four hex digits (as addressFromLC makes them) parses back. */
  lemma ParseAddressHexWord(v: nat)
    requires v < 0x10000
    ensures ParseAddress("x" + HexWord(v)) == Ok(v)
  {
    ParseHexWord(v);
    assert ("x" + HexWord(v))[1..] == HexWord(v);
  }

  /** isLiteral. */
  predicate IsLiteral(input: string)
  {
    |input| > 2 && input[0] == '=' && CanParseInt(input) &&
    match ParseNumber(input)
    case Err(_) => false
    case Ok(val) =>
      (IsHex(input, 1) && 0 <= val <= ADDRESS_HEX_MAX) || (IsDecimal(input, 1) && WORD_MIN <= val <= WORD_MAX)
  }

  /** The shape of a literal `=c body`: its first two characters and the rest. */
  lemma LiteralShape(lit: string, c: char, body: string)
    requires |body| >= 1 && lit == ['=', c] + body
    ensures |lit| > 2 && lit[0] == '=' && lit[1] == c && lit[2..] == body
  {
  }

  /** A decimal literal `=#v` is accepted exactly when v is in [-32768, 32767]. */
  lemma DecimalLiteralRoundTrip(v: int)
    requires IsInt32(v)
    ensures IsLiteral("=#" + DecString(v)) <==> WORD_MIN <= v <= WORD_MAX
    ensures ParseNumber("=#" + DecString(v)) == Ok(v)
  {
    var d := DecString(v);
    var lit := "=#" + d;
    ParseDecString(v);
    assert |d| >= 1;
    LiteralShape(lit, '#', d);
    assert ParseNumber(lit) == FromOption(ParseInt(d, 10));
    assert ParseNumber(lit) == Ok(v);
    assert CanParseInt(lit) <==> WORD_MIN <= v <= ADDRESS_DEC_MAX by {
      assert CanParseInt(lit) == IsInteger(d, 10);
    }
    assert IsDecimal(lit, 1) && !IsHex(lit, 1);
  }

  /** A hex literal `=x...` of a non-negative int is accepted exactly when it is at most 0xFFFF. */
  lemma HexLiteralRoundTrip(v: nat)
    requires v <= INT_MAX
    ensures IsLiteral("=x" + ToHexString(v)) <==> v <= 0xFFFF
    ensures ParseNumber("=x" + ToHexString(v)) == Ok(v)
  {
    var h := ToHexString(v);
    var lit := "=x" + h;
    ParseHexString(v);
    assert |h| >= 1;
    LiteralShape(lit, 'x', h);
    assert ParseNumber(lit) == FromOption(ParseInt(h, 16));
    assert ParseNumber(lit) == Ok(v);
    assert CanParseInt(lit) <==> v <= ADDRESS_HEX_MAX by {
      assert CanParseInt(lit) == IsInteger(h, 16);
    }
    assert IsHex(lit, 1) && !IsDecimal(lit, 1);
  }

  /**
   * parseLiteralString: for a literal in range, its value as four lower-case hex digits (the
   * low 16 bits of the two's complement); otherwise None (Java's null).
   */
  function ParseLiteralString(input: string): (r: Result<Option<string>, Pass2Error>)
    ensures IsLiteral(input) ==> r.Ok? && r.value.Some?
    ensures r.Ok? && r.value.Some? ==>
      ParseNumber(input).Ok? && r.value.value == Digits(ParseNumber(input).value % 0x10000, 16, 4)
  {
    var val :- ParseNumber(input);
    if (IsHex(input, 1) && 0 <= val <= ADDRESS_HEX_MAX) || (IsDecimal(input, 1) && WORD_MIN <= val <= WORD_MAX) then
      HexStringLow16(val);
      Ok(Some(PadOrLast(ToHexString(val), 4)))
    else
      Ok(None)
  }

  /** s is exactly w binary digits whose value is v. */
  predicate IsBinaryField(s: string, w: nat, v: int)
  {
    |s| == w && AllDigits(s, 2) && DigitsValue(s, 2) == v
  }

  /** Zero-padding toBinaryString of a value that fits gives the w-bit field of that value. */
  lemma BinaryFieldOf(v: nat, w: nat)
    requires 1 <= w && v <= INT_MAX && v < Pow(2, w)
    ensures PadZeros(ToBinaryString(v), w) == Digits(v, 2, w)
    ensures IsBinaryField(Digits(v, 2, w), w, v)
  {
    PaddedBinary(v, w);
    DigitsFit(v, 2, w);
  }

  /** indexToBinaryString: six binary digits of an index6 value. */
  function IndexToBinaryString(ind: string): (r: Result<string, Pass2Error>)
    ensures r.Ok? <==> CanParseInt(ind) && ParseIndex(ind).Ok? && ParseIndex(ind).value != INVALID_NUMBER
    ensures r.Ok? ==> IsBinaryField(r.value, 6, ParseIndex(ind).value)
  {
    if !CanParseInt(ind) then Err(InvalidValue(Index))
    else
      var index :- ParseIndex(ind);
      if index < -0x8000 then Err(ValueOutOfRange(Index))
      else
        PowFacts();
        BinaryFieldOf(index, 6);
        Ok(PadZeros(ToBinaryString(index), 6))
  }

  /** The page the source computes for an address: (a / 512) % 128 with Java's operators. */
  function Page(a: int): int
  {
    JavaRem(JavaDiv(a, 512), 128)
  }

  /**
   * pageRangeAndOffset: the target address must be on the page of PC = LC + 1; the result is
   * its nine low bits.
   */
  function PageRangeAndOffset(lc: string, address: string): (r: Result<string, Pass2Error>)
    ensures r.Ok? ==> ParseAddress(address).Ok? && 0 <= ParseAddress(address).value <= 0xFFFF
    ensures r.Ok? ==> IsBinaryField(r.value, 9, ParseAddress(address).value % 512)
  {
    if !CanParseInt(address) then Err(InvalidValue(Address))
    else
      match ParseAddress(address)
      case Err(e) => Err(e)
      case Ok(addVal) =>
        if addVal < -0x8000 then Err(ValueOutOfRange(Address))
        else
          match ParseAddress("x" + lc)
          case Err(e) => Err(e)
          case Ok(lcParsed) =>
            var pageLc := Page(JavaRem(lcParsed + 1, 0x10000));
            var pageAddress := Page(addVal);
            if pageLc != pageAddress then Err(PageMismatch(pageLc, pageAddress))
            else Ok(OffsetBits(addVal))
  }

  /**
   * When pageRangeAndOffset succeeds, the address token parses to a 16-bit address on the page
   * of LC + 1, and the result is the nine-bit offset of the address within its page.
   */
  lemma PageRangeAndOffsetOk(lc: string, address: string)
    requires PageRangeAndOffset(lc, address).Ok?
    ensures CanParseInt(address) && ParseAddress(address).Ok? && ParseAddress("x" + lc).Ok?
    ensures 0 <= ParseAddress(address).value <= 0xFFFF
    ensures Page(JavaRem(ParseAddress("x" + lc).value + 1, 0x10000)) == Page(ParseAddress(address).value)
    ensures PageRangeAndOffset(lc, address).value == Digits(ParseAddress(address).value % 512, 2, 9)
  {
  }

  /** The last nine of sixteen zero-padded binary digits of an address: its offset within its page. */
  function OffsetBits(a: nat): (r: string)
    requires a < 0x10000
    ensures r == Digits(a % 512, 2, 9)
    ensures IsBinaryField(r, 9, a % 512)
  {
    PageOffsetBits(a);
    NineBitField(a);
    PadZeros(ToBinaryString(a), 16)[7..]
  }

  /**
   * With LC written as four hex digits (as addressFromLC writes it) and an address token in
   * range, pageRangeAndOffset succeeds exactly when the address lies on the page of LC + 1, and
   * then gives the nine-bit offset of the address within its page.
   */
  lemma PageRangeAndOffsetSpec(lc: nat, address: string)
    requires lc < 0x10000
    requires CanParseInt(address) && ParseAddress(address).Ok?
    requires 0 <= ParseAddress(address).value <= 0xFFFF
    ensures PageRangeAndOffset(HexWord(lc), address).Ok? <==>
      ((lc + 1) % 0x10000) / 512 == ParseAddress(address).value / 512
  {
    ParseAddressHexWord(lc);
    var pc := (lc + 1) % 0x10000;
    var a := ParseAddress(address).value;
    assert JavaRem(lc + 1, 0x10000) == pc;
    PageOfWord(pc);
    PageOfWord(a);
    if pc / 512 == a / 512 {
      assert a >= -0x8000;
      assert Page(JavaRem(ParseAddress("x" + HexWord(lc)).value + 1, 0x10000)) == Page(a);
      assert PageRangeAndOffset(HexWord(lc), address).Ok?;
    }
  }

  /** The offset field: nine bits holding a % 512. */
  lemma NineBitField(a: nat)
    ensures IsBinaryField(Digits(a % 512, 2, 9), 9, a % 512)
  {
    PowFacts();
    DigitsFit(a % 512, 2, 9);
  }

  /** For a 16-bit address the page is simply the address divided by 512. */
  lemma PageOfWord(x: int)
    requires 0 <= x < 0x10000
    ensures Page(x) == x / 512 && 0 <= Page(x) < 128
  {
  }

  /** opcodeBinaryString: four binary digits of an opcode. */
  function OpcodeBinaryString(opcode: int): (r: string)
    ensures 0 <= opcode < 16 ==> IsBinaryField(r, 4, opcode)
  {
    if 0 <= opcode < 16 then
      PowFacts();
      BinaryFieldOf(opcode, 4);
      PadZeros(ToBinaryString(opcode), 4)
    else if IsInt32(opcode) then
      PadZeros(ToBinaryString(opcode), 4)
    else
      "" // no Java int has this value
  }

  /** registerToBinaryString: three binary digits of a register number 0..7. */
  function RegisterToBinaryString(reg: string): (r: Result<string, Pass2Error>)
    ensures r.Ok? <==> CanParseInt(reg) && ParseIndex(reg).Ok? && 0 <= ParseIndex(reg).value <= 7
    ensures r.Ok? ==> IsBinaryField(r.value, 3, ParseIndex(reg).value)
  {
    if !CanParseInt(reg) then Err(InvalidValue(Register))
    else
      var regVal :- ParseIndex(reg);
      if regVal < 0 || regVal > 7 then Err(ValueOutOfRange(Register))
      else
        PowFacts();
        BinaryFieldOf(regVal, 3);
        Ok(PadZeros(ToBinaryString(regVal), 3))
  }

  /**
   * convertBinaryToHexString: a binary word becomes its hex digits, upper case, padded to four.
   * Integer.parseUnsignedInt rejects anything that is not binary (RuntimeFailure).
   */
  function ConvertBinaryToHexString(binString: string): (r: Result<string, Pass2Error>)
    ensures r.Ok? <==> ParseUnsignedInt(binString, 2).Some?
    ensures 1 <= |binString| <= 16 && AllDigits(binString, 2) ==>
      r == Ok(HexWord(DigitsValue(binString, 2)))
  {
    BinaryToHexWord(binString);
    match ParseUnsignedInt(binString, 2)
    case None => Err(RuntimeFailure)
    case Some(binVal) =>
      var hexValue := Upper(NatToDigits(binVal, 16));
      Ok(PadZeros(hexValue, 4))
  }

  /** Reading w bits as a two's-complement number. */
  function SignedValue(u: int, w: nat): int
    requires w >= 1
  {
    if u >= Pow(2, w - 1) then u - Pow(2, w) else u
  }

  /**
   * immediateToBinaryString: the five low bits of the immediate's two's complement
   * (toBinaryString padded, or cut to its last five characters).
   */
  function ImmediateToBinaryString(imm: string): (r: Result<string, Pass2Error>)
    ensures r.Ok? <==> CanParseInt(imm) && ParseImmediate(imm).Ok? && ParseImmediate(imm).value != INVALID_NUMBER
    ensures r.Ok? ==> IsBinaryField(r.value, 5, ParseImmediate(imm).value % 32)
  {
    if !CanParseInt(imm) then Err(InvalidValue(Immediate))
    else
      var immediate :- ParseImmediate(imm);
      if immediate < -0x8000 then Err(ValueOutOfRange(Immediate))
      else
        BinaryStringLow5(immediate);
        PowFacts();
        DigitsFit(immediate % 32, 2, 5);
        Ok(PadOrLast(ToBinaryString(immediate), 5))
  }

  /** A decimal immediate comes back from its five bits read as a signed number. */
  lemma ImmediateSignDecode(imm: string)
    requires ImmediateToBinaryString(imm).Ok? && IsDecimal(imm, 0)
    ensures SignedValue(DigitsValue(ImmediateToBinaryString(imm).value, 2), 5) == ParseImmediate(imm).value
  {
    var v := ParseImmediate(imm).value;
    var bits := ImmediateToBinaryString(imm).value;
    assert IMMEDIATE_DEC_MIN <= v <= IMMEDIATE_DEC_MAX;
    assert DigitsValue(bits, 2) == v % 32;
    SignedFive(v);
  }

  /** Five bits read as a signed number give back any value in [-16, 15]. */
  lemma SignedFive(v: int)
    requires -16 <= v <= 15
    ensures SignedValue(v % 32, 5) == v
  {
    PowFacts();
    if v < 0 {
      assert v % 32 == v + 32;
    }
  }

  /** trapToBinaryString: eight binary digits of a trap vector. */
  function TrapToBinaryString(trap: string): (r: Result<string, Pass2Error>)
    ensures r.Ok? <==> CanParseInt(trap) && ParseTrapvect(trap).Ok? && ParseTrapvect(trap).value != INVALID_NUMBER
    ensures r.Ok? ==> IsBinaryField(r.value, 8, ParseTrapvect(trap).value)
  {
    if !CanParseInt(trap) then Err(InvalidValue(Trapvect))
    else
      var trapVect :- ParseTrapvect(trap);
      if trapVect < -0x8000 then Err(ValueOutOfRange(Trapvect))
      else
        PowFacts();
        BinaryFieldOf(trapVect, 8);
        Ok(PadZeros(ToBinaryString(trapVect), 8))
  }

  /** literalValue: the literal's address from the literal table, as `x` and four hex digits. */
  function LiteralValue(literalTable: map<string, Int32>, address: string): (r: Result<string, Pass2Error>)
    ensures r.Ok? <==> address in literalTable && IsLiteral(address)
    ensures r.Ok? ==> |r.value| > 0 && r.value[0] == 'x'
    ensures r.Ok? && 0 <= literalTable[address] < 0x10000 ==> r.value == "x" + HexWord(literalTable[address])
  {
    if address !in literalTable then Err(LiteralNotFound(address))
    else if !IsLiteral(address) then Err(LiteralOutOfRange)
    else
      var litVal := literalTable[address];
      var litHex := PadZeros(ToHexString(litVal), 4);
      if 0 <= litVal < 0x10000 then
        PowFacts();
        PadNatToDigits(litVal, 16, 4);
        Ok("x" + Upper(litHex))
      else
        Ok("x" + Upper(litHex))
  }

  /** addressToHex: an address token as four upper-case hex digits. */
  function AddressToHex(operand: string): (r: Result<string, Pass2Error>)
    ensures r.Ok? <==> CanParseInt(operand) && ParseAddress(operand).Ok? && ParseAddress(operand).value != INVALID_NUMBER
    ensures r.Ok? ==> r.value == HexWord(ParseAddress(operand).value)
  {
    if !CanParseInt(operand) then Err(InvalidValue(Address))
    else
      var address :- ParseAddress(operand);
      if address < -0x8000 then Err(ValueOutOfRange(Address))
      else
        PowFacts();
        PadNatToDigits(address, 16, 4);
        PadZerosUpper(ToHexString(address), 4);
        Ok(PadZeros(Upper(ToHexString(address)), 4))
  }

  /** fillHexString: a .FILL value as four upper-case hex digits of its low 16 bits. */
  function FillHexString(operand: string): (r: Result<string, Pass2Error>)
    ensures r.Ok? <==> CanParseInt(operand) && ParseUnionRange(operand).Ok? && ParseUnionRange(operand).value != INVALID_NUMBER
    ensures r.Ok? ==> r.value == HexWord(ParseUnionRange(operand).value % 0x10000)
  {
    if !CanParseInt(operand) then Err(InvalidValue(FillValue))
    else
      var address :- ParseUnionRange(operand);
      if address < -0x8000 then Err(ValueOutOfRange(FillValue))
      else
        HexStringLow16(address);
        Ok(Upper(PadOrLast(ToHexString(address), 4)))
  }
}
