/**
 * The linker's second pass: it writes the linked object file. The header names the program
 * "Main  " and gives the initial load address and the total size; every T record of every
 * segment is moved by its segment's program load address and, when it carries an X9 or X16
 * suffix, patched with the value of the external symbol the suffix names; the end record gives
 * the address of "Main  ".
 *
 * The file arrives as the sequence of lines written to it. A StringIndexOutOfBoundsException
 * or NumberFormatException on a record becomes Err(MalformedRecord); the RuntimeExceptions for a
 * missing symbol and a missing "Main  " become Err(SymbolNotDefined(name)) and Err(NoMainSegment).
 */
module LinkerPassTwo {
  import opened Wrappers
  import opened JavaText
  import opened SimMachine
  import opened LinkerPassOne
  import SimLoader

  /** The modification a T record asks for: none, the low nine bits, or the whole word. */
  datatype Patch = NoPatch | X9(symbol: string) | X16(symbol: string)

  /**
   * The two suffix tests: `X9` at columns 9-10 names the symbol from column 11, `X16` at
   * columns 9-11 the symbol from column 12. A line that ends inside a test fails at charAt.
   */
  function PatchOf(line: string): (r: Result<Patch, LinkError>)
    ensures r.Ok? && r.value.X9? ==> |line| >= 11 && line[9..11] == "X9" && r.value.symbol == line[11..]
    ensures r.Ok? && r.value.X16? ==> |line| >= 12 && line[9..12] == "X16" && r.value.symbol == line[12..]
    ensures r.Err? ==> r.error == MalformedRecord
  {
    if |line| > 9 && line[9] == 'X' then
      if |line| == 10 then Err(MalformedRecord)
      else if line[10] == '9' then Ok(X9(line[11..]))
      else if line[10] == '1' then
        if |line| == 11 then Err(MalformedRecord)
        else if line[11] == '6' then Ok(X16(line[12..]))
        else Ok(NoPatch)
      else Ok(NoPatch)
    else Ok(NoPatch)
  }

  /**
   * The word after the patch: X9 adds the low nine bits of the symbol's value (the short cast
   * and `& 0x1FF`) to the word as a short, X16 replaces the word with the value cast to short.
   */
  function Patched(val: Short, patch: Patch, symTable: map<string, int>): (r: Result<Short, LinkError>)
    ensures patch.NoPatch? ==> r == Ok(val)
    ensures !patch.NoPatch? ==> (r.Ok? <==> patch.symbol in symTable)
    ensures r.Err? ==> r.error == SymbolNotDefined(patch.symbol)
  {
    match patch
    case NoPatch => Ok(val)
    case X9(sym) =>
      if sym !in symTable then Err(SymbolNotDefined(sym)) else Ok(ToShort(val + symTable[sym] % 512))
    case X16(sym) =>
      if sym !in symTable then Err(SymbolNotDefined(sym)) else Ok(ToShort(symTable[sym]))
  }

  /** A relocated T record: its address and its word. */
  datatype Text = Text(loc: int, val: Short)

  /** A T record as written: `T`, the address as `%04X` of an int, the word as `%04x` of a short. */
  function TextRecord(loc: int, val: Short): string
  {
    "T" + FormatHex(loc) + Digits(ToUnsigned(val), 16, 4)
  }

  /** The lines written for a run of relocated records. */
  function Render(texts: seq<Text>): (r: seq<string>)
    ensures |r| == |texts|
  {
    seq(|texts|, k requires 0 <= k < |texts| => TextRecord(texts[k].loc, texts[k].val))
  }

  lemma RenderAppend(a: seq<Text>, b: seq<Text>)
    ensures Render(a + b) == Render(a) + Render(b)
  {
    assert forall k | 0 <= k < |a| + |b| :: Render(a + b)[k] == (Render(a) + Render(b))[k];
  }

  /** Records rendered after output already written extend it as rendering them all at once does. */
  lemma RenderGrows(written: seq<string>, a: seq<Text>, b: seq<Text>)
    ensures written + Render(a) + Render(b) == written + Render(a + b)
  {
    RenderAppend(a, b);
  }

  /**
   * One line of a segment: a T line becomes one relocated record, any other line none; an empty
   * line fails at charAt(0).
   */
  function Relocate(line: string, pla: int, symTable: map<string, int>): (r: Result<Option<Text>, LinkError>)
    ensures |line| > 0 && line[0] != 'T' ==> r == Ok(None)
    ensures r.Ok? && r.value.Some? ==> |line| >= 9 && line[0] == 'T'
  {
    if |line| == 0 then Err(MalformedRecord)
    else if line[0] != 'T' then Ok(None)
    else if |line| < 9 then Err(MalformedRecord)
    else
      match ParseInt(line[1..5], 16)
      case None => Err(MalformedRecord)
      case Some(address) =>
        match ParseInt(line[5..9], 16)
        case None => Err(MalformedRecord)
        case Some(word) =>
          match PatchOf(line)
          case Err(e) => Err(e)
          case Ok(patch) =>
            match Patched(ToShort(word), patch, symTable)
            case Err(e) => Err(e)
            case Ok(val) => Ok(Some(Text(address + pla, val)))
  }

  // ---------------------------------------------------------------- collecting records

  /** The records one line contributes: none or one. */
  function LineRecords(line: string, pla: int, symTable: map<string, int>): Result<seq<Text>, LinkError>
  {
    match Relocate(line, pla, symTable)
    case Err(e) => Err(e)
    case Ok(None) => Ok([])
    case Ok(Some(record)) => Ok([record])
  }

  /** The records of a segment's lines in order, stopping at the first line that fails. */
  function SegmentRecords(lines: seq<string>, pla: int, symTable: map<string, int>): Result<seq<Text>, LinkError>
    decreases |lines|
  {
    if |lines| == 0 then Ok([])
    else
      match SegmentRecords(lines[..|lines| - 1], pla, symTable)
      case Err(e) => Err(e)
      case Ok(out) =>
        match LineRecords(lines[|lines| - 1], pla, symTable)
        case Err(e) => Err(e)
        case Ok(more) => Ok(out + more)
  }

  /** The records of all segments in order, each relocated by its own pla. */
  function LinkRecords(segments: seq<Segment>, symTable: map<string, int>): Result<seq<Text>, LinkError>
    decreases |segments|
  {
    if |segments| == 0 then Ok([])
    else
      var last := segments[|segments| - 1];
      match LinkRecords(segments[..|segments| - 1], symTable)
      case Err(e) => Err(e)
      case Ok(out) =>
        match SegmentRecords(last.input, last.pla, symTable)
        case Err(e) => Err(e)
        case Ok(more) => Ok(out + more)
  }

  /** A line that fails fails its segment with its error: the first error wins. */
  lemma {:induction false} SegmentRecordsErrStays(lines: seq<string>, k: int, pla: int, symTable: map<string, int>)
    requires 0 <= k <= |lines| && SegmentRecords(lines[..k], pla, symTable).Err?
    ensures SegmentRecords(lines, pla, symTable) == SegmentRecords(lines[..k], pla, symTable)
    decreases |lines| - k
  {
    if k < |lines| {
      assert lines[..k + 1][..k] == lines[..k];
      SegmentRecordsErrStays(lines, k + 1, pla, symTable);
    } else {
      assert lines[..k] == lines;
    }
  }

  /** One more line: its records follow those before it, or its error ends the segment. */
  lemma SegmentRecordsSnoc(lines: seq<string>, j: int, pla: int, symTable: map<string, int>)
    requires 0 <= j < |lines| && SegmentRecords(lines[..j], pla, symTable).Ok?
    ensures var more := LineRecords(lines[j], pla, symTable);
      SegmentRecords(lines[..j + 1], pla, symTable) ==
        if more.Err? then Err(more.error) else Ok(SegmentRecords(lines[..j], pla, symTable).value + more.value)
  {
    assert lines[..j + 1][..j] == lines[..j];
  }

  /** One more segment: its records follow those before it, or its error ends the link. */
  lemma LinkRecordsSnoc(segments: seq<Segment>, i: int, symTable: map<string, int>)
    requires 0 <= i < |segments| && LinkRecords(segments[..i], symTable).Ok?
    ensures var more := SegmentRecords(segments[i].input, segments[i].pla, symTable);
      LinkRecords(segments[..i + 1], symTable) ==
        if more.Err? then Err(more.error) else Ok(LinkRecords(segments[..i], symTable).value + more.value)
  {
    assert segments[..i + 1][..i] == segments[..i];
  }

  /** A segment that fails fails the link with its error. */
  lemma {:induction false} LinkRecordsErrStays(segments: seq<Segment>, k: int, symTable: map<string, int>)
    requires 0 <= k <= |segments| && LinkRecords(segments[..k], symTable).Err?
    ensures LinkRecords(segments, symTable) == LinkRecords(segments[..k], symTable)
    decreases |segments| - k
  {
    if k < |segments| {
      assert segments[..k + 1][..k] == segments[..k];
      LinkRecordsErrStays(segments, k + 1, symTable);
    } else {
      assert segments[..k] == segments;
    }
  }

  /** The header: the name "Main  ", the initial load address and the total size, each as `%04X`. */
  function Header(ipla: int, totalSize: int): string
  {
    "HMain  " + FormatHex(ipla) + FormatHex(totalSize)
  }

  const MAIN: string := "Main  "

  /** The file executePassTwo writes: the header, every segment's records in order, the end record. */
  function PassTwoSpec(passOneResult: PassOneResult, ipla: int): Result<seq<string>, LinkError>
  {
    match LinkRecords(passOneResult.segments, passOneResult.symTable)
    case Err(e) => Err(e)
    case Ok(records) =>
      if MAIN !in passOneResult.symTable then Err(NoMainSegment)
      else Ok([Header(ipla, passOneResult.totalSize)] + Render(records) + ["E" + FormatHex(passOneResult.symTable[MAIN])])
  }

  // ---------------------------------------------------------------- records and the loader

  /** A T line whose fields parse is relocated as its patch says. */
  lemma RelocateFields(line: string, address: int, word: int, patch: Patch, pla: int, symTable: map<string, int>)
    requires |line| >= 9 && line[0] == 'T'
    requires ParseInt(line[1..5], 16) == Some(address) && ParseInt(line[5..9], 16) == Some(word)
    requires PatchOf(line) == Ok(patch)
    ensures Relocate(line, pla, symTable) ==
            match Patched(ToShort(word), patch, symTable)
            case Err(e) => Err(e)
            case Ok(val) => Ok(Some(Text(address + pla, val)))
  {
  }

  /**
   * A T line as the assembler writes it (`T`, two four-digit hex fields, nothing more) is moved
   * by pla and keeps its word.
   */
  lemma RelocatePlain(a: int, w: int, pla: int, symTable: map<string, int>)
    requires 0 <= a < UPPER_LIMIT && 0 <= w < UPPER_LIMIT
    ensures Relocate("T" + HexWord(a) + HexWord(w), pla, symTable) == Ok(Some(Text(a + pla, ToShort(w))))
  {
    var line := "T" + HexWord(a) + HexWord(w);
    HexFields(a, w, line, "");
    assert PatchOf(line) == Ok(NoPatch);
    RelocateFields(line, a, w, NoPatch, pla, symTable);
  }

  /**
   * A T line with an X9 suffix adds the low nine bits of the symbol's value to its word, and
   * fails when the symbol is not in the table.
   */
  lemma RelocateX9(a: int, w: int, pla: int, symTable: map<string, int>, sym: string)
    requires 0 <= a < UPPER_LIMIT && 0 <= w < UPPER_LIMIT
    ensures Relocate("T" + HexWord(a) + HexWord(w) + "X9" + sym, pla, symTable) ==
            if sym in symTable then Ok(Some(Text(a + pla, ToShort(ToShort(w) + symTable[sym] % 512))))
            else Err(SymbolNotDefined(sym))
  {
    var line := "T" + HexWord(a) + HexWord(w) + "X9" + sym;
    HexFields(a, w, line, "X9" + sym);
    assert line[9] == 'X' && line[10] == '9' && line[11..] == sym;
    assert PatchOf(line) == Ok(X9(sym));
    RelocateFields(line, a, w, X9(sym), pla, symTable);
  }

  /** A T line with an X16 suffix takes the symbol's value as its word, or fails without it. */
  lemma RelocateX16(a: int, w: int, pla: int, symTable: map<string, int>, sym: string)
    requires 0 <= a < UPPER_LIMIT && 0 <= w < UPPER_LIMIT
    ensures Relocate("T" + HexWord(a) + HexWord(w) + "X16" + sym, pla, symTable) ==
            if sym in symTable then Ok(Some(Text(a + pla, ToShort(symTable[sym]))))
            else Err(SymbolNotDefined(sym))
  {
    var line := "T" + HexWord(a) + HexWord(w) + "X16" + sym;
    HexFields(a, w, line, "X16" + sym);
    assert line[9] == 'X' && line[10] == '1' && line[11] == '6' && line[12..] == sym;
    assert PatchOf(line) == Ok(X16(sym));
    RelocateFields(line, a, w, X16(sym), pla, symTable);
  }

  /** The address and word fields of a T line read back as the values written into them. */
  lemma HexFields(a: int, w: int, line: string, suffix: string)
    requires 0 <= a < UPPER_LIMIT && 0 <= w < UPPER_LIMIT
    requires line == "T" + HexWord(a) + HexWord(w) + suffix
    ensures |line| == 9 + |suffix| && line[0] == 'T' && line[9..] == suffix
    ensures ParseInt(line[1..5], 16) == Some(a) && ParseInt(line[5..9], 16) == Some(w)
  {
    HexWordValue(a);
    HexWordValue(w);
    assert line[1..5] == HexWord(a);
    assert line[5..9] == HexWord(w);
    ParseHexWord(a);
    ParseHexWord(w);
  }

  /**
   * On a word whose low nine bits are clear (the assembler's placeholder for an X9 offset) the
   * X9 patch keeps the upper seven bits and puts the symbol's low nine bits below them.
   */
  lemma X9PatchFillsOffset(w: int, v: int)
    requires 0 <= w < UPPER_LIMIT && w % 512 == 0
    ensures var u := ToUnsigned(ToShort(ToShort(w) + v % 512));
      u / 512 == w / 512 && u % 512 == v % 512
  {
    var u := ToUnsigned(ToShort(ToShort(w) + v % 512));
    ShortRoundTrip(ToShort(w), w);
    assert w + v % 512 < UPPER_LIMIT;
    assert (ToShort(w) + v % 512 - (w + v % 512)) % UPPER_LIMIT == 0;
    ShortRoundTrip(0, w + v % 512);
    assert ToShort(ToShort(w) + v % 512) == ToShort(w + v % 512);
    assert u == w + v % 512;
  }

  /**
   * A relocated record inside memory passes the loader's textLineValidation and loads its word
   * at its address; a record outside memory gets more than four address digits.
   */
  lemma TextRecordLoads(loc: int, val: Short)
    ensures 0 <= loc < UPPER_LIMIT ==>
      SimLoader.TextLineValid(TextRecord(loc, val)) &&
      SimLoader.TextAddress(TextRecord(loc, val)) == loc && SimLoader.TextWord(TextRecord(loc, val)) == val
  {
    if 0 <= loc < UPPER_LIMIT {
      FormatHexWord(loc);
      SimLoader.TextRecordRoundTrip(loc, val, "x");
    }
  }

  /** The header of a link whose load address and size fit in 16 bits passes headerLineValidation. */
  lemma HeaderLoads(ipla: int, totalSize: int)
    requires 0 <= ipla < UPPER_LIMIT && 0 <= totalSize < UPPER_LIMIT
    ensures var h := Header(ipla, totalSize);
      SimLoader.HeaderLineValid(h) && SimLoader.HeaderName(h) == MAIN &&
      SimLoader.HeaderStart(h) == ipla && SimLoader.HeaderLength(h) == totalSize
  {
    FormatHexWord(ipla);
    FormatHexWord(totalSize);
    SimLoader.HexWordField(ipla);
    SimLoader.HexWordField(totalSize);
    HeaderFields(HexWord(ipla), HexWord(totalSize));
  }

  lemma HeaderFields(start: string, length: string)
    requires |start| == 4 && SimLoader.AllHex(start) && |length| == 4 && SimLoader.AllHex(length)
    ensures var h := "HMain  " + start + length;
      SimLoader.HeaderLineValid(h) && h[1..7] == MAIN && h[7..11] == start && h[11..] == length
  {
    var h := "HMain  " + start + length;
    assert h[7..] == start + length;
    assert h[7..11] == start && h[11..] == length && h[1..7] == MAIN;
    assert forall i | 1 <= i < 7 :: SimLoader.IsNameChar(h[i]);
    assert forall i | 0 <= i < 8 :: SimLoader.IsHexChar(h[7..][i]) by {
      forall i | 0 <= i < 8
        ensures SimLoader.IsHexChar(h[7..][i])
      {
        if i < 4 {
          assert h[7..][i] == start[i];
        } else {
          assert h[7..][i] == length[i - 4];
        }
      }
    }
  }

  /**
   * A link that succeeds writes the header first and the end record of "Main  " last; once the
   * records are written, a table without "Main  " fails the link. The end record of a Main inside
   * memory passes endLineValidation and gives Main's address back.
   */
  lemma PassTwoFrame(passOneResult: PassOneResult, ipla: int)
    ensures var out := PassTwoSpec(passOneResult, ipla);
      var symTable := passOneResult.symTable;
      (out.Ok? ==> MAIN in symTable && |out.value| >= 2 && out.value[0] == Header(ipla, passOneResult.totalSize) &&
                   out.value[|out.value| - 1] == "E" + FormatHex(symTable[MAIN])) &&
      (LinkRecords(passOneResult.segments, symTable).Ok? && MAIN !in symTable ==> out == Err(NoMainSegment)) &&
      (MAIN in symTable && 0 <= symTable[MAIN] < UPPER_LIMIT ==>
         SimLoader.EndLineValid("E" + FormatHex(symTable[MAIN])) &&
         SimLoader.EndAddress("E" + FormatHex(symTable[MAIN])) == symTable[MAIN])
  {
    var symTable := passOneResult.symTable;
    if MAIN in symTable && 0 <= symTable[MAIN] < UPPER_LIMIT {
      FormatHexWord(symTable[MAIN]);
      SimLoader.EndAddressRoundTrip(symTable[MAIN]);
    }
  }

  // ---------------------------------------------------------------- the pass

  class PassTwo {
    const passOneResult: PassOneResult
    /** The lines written to the output file so far. */
    var output: seq<string>

    constructor(passOneResult: PassOneResult)
      ensures this.passOneResult == passOneResult && output == []
    {
      this.passOneResult := passOneResult;
      output := [];
    }

    /**
     * The lines of one segment in turn, each T line written relocated; on success the output
     * grows by the segment's records, otherwise the error is the first line's that failed.
     */
    method WriteSegment(segment: Segment) returns (err: Option<LinkError>)
      modifies this
      ensures var expected := SegmentRecords(segment.input, segment.pla, passOneResult.symTable);
        (err.None? <==> expected.Ok?) &&
        (err.None? ==> output == old(output) + Render(expected.value)) &&
        (err.Some? ==> err.value == expected.error)
    {
      var symTable := passOneResult.symTable;
      var lines := segment.input;
      ghost var written: seq<Text> := [];
      var j := 0;
      assert lines[..0] == [];
      while j < |lines|
        invariant 0 <= j <= |lines|
        invariant SegmentRecords(lines[..j], segment.pla, symTable) == Ok(written)
        invariant output == old(output) + Render(written)
      {
        SegmentRecordsSnoc(lines, j, segment.pla, symTable);
        var line := Relocate(lines[j], segment.pla, symTable);
        if line.Err? {
          SegmentRecordsErrStays(lines, j + 1, segment.pla, symTable);
          return Some(line.error);
        }
        if line.value.Some? {
          var text := line.value.value;
          output := output + [TextRecord(text.loc, text.val)];
          assert Render([text]) == [TextRecord(text.loc, text.val)];
          RenderGrows(old(output), written, [text]);
          written := written + [text];
        } else {
          assert written + [] == written;
        }
        j := j + 1;
      }
      assert lines[..j] == lines;
      return None;
    }

    /** Every segment's lines in turn: the output grows by all the records, or the first error ends the pass. */
    method WriteSegments() returns (err: Option<LinkError>)
      modifies this
      ensures var expected := LinkRecords(passOneResult.segments, passOneResult.symTable);
        (err.None? <==> expected.Ok?) &&
        (err.None? ==> output == old(output) + Render(expected.value)) &&
        (err.Some? ==> err.value == expected.error)
    {
      var segments := passOneResult.segments;
      var symTable := passOneResult.symTable;
      ghost var records: seq<Text> := [];
      var i := 0;
      assert segments[..0] == [];
      while i < |segments|
        invariant 0 <= i <= |segments|
        invariant LinkRecords(segments[..i], symTable) == Ok(records)
        invariant output == old(output) + Render(records)
      {
        LinkRecordsSnoc(segments, i, symTable);
        var segmentErr := WriteSegment(segments[i]);
        if segmentErr.Some? {
          LinkRecordsErrStays(segments, i + 1, symTable);
          return segmentErr;
        }
        RenderGrows(old(output), records, SegmentRecords(segments[i].input, segments[i].pla, symTable).value);
        records := records + SegmentRecords(segments[i].input, segments[i].pla, symTable).value;
        i := i + 1;
      }
      assert segments[..i] == segments;
      return None;
    }

    /**
     * executePassTwo: the header, then each segment's lines in turn, then the end record. On
     * success the output is the linked file; otherwise the error is the first one met.
     */
    method ExecutePassTwo(ipla: int) returns (err: Option<LinkError>)
      modifies this
      ensures err.None? <==> PassTwoSpec(passOneResult, ipla).Ok?
      ensures err.None? ==> output == PassTwoSpec(passOneResult, ipla).value
      ensures err.Some? ==> err.value == PassTwoSpec(passOneResult, ipla).error
    {
      var symTable := passOneResult.symTable;
      output := [Header(ipla, passOneResult.totalSize)];
      err := WriteSegments();
      if err.Some? {
        return;
      }
      if MAIN !in symTable {
        return Some(NoMainSegment);
      }
      output := output + ["E" + FormatHex(symTable[MAIN])];
    }
  }
}
