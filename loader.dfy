/**
 * The loader: it checks the shape of each record of an object file (one header record, text
 * records, one end record), stores every text record's word into the machine's memory, names
 * the machine after the header and starts it at the end record's address.
 *
 * The regular expressions of the three validation methods are written as character-class
 * predicates. A call of System.exit, and a Java exception that escapes parseInputFile, become
 * a false result of ParseInputFile. The object file arrives as its sequence of lines.
 */
module SimLoader {
  import opened Wrappers
  import opened JavaText
  import opened SimMachine
  import Simulator

  // ---------------------------------------------------------------- record shapes

  /** The regex class [0-9A-Fa-f]. */
  predicate IsHexChar(c: char)
  {
    '0' <= c <= '9' || 'A' <= c <= 'F' || 'a' <= c <= 'f'
  }

  /** The regex class [A-Za-z0-9 _] of a header's name field. */
  predicate IsNameChar(c: char)
  {
    'A' <= c <= 'Z' || 'a' <= c <= 'z' || '0' <= c <= '9' || c == ' ' || c == '_'
  }

  predicate AllHex(s: string)
  {
    forall i | 0 <= i < |s| :: IsHexChar(s[i])
  }

  /** headerLineValidation: H, six name characters, four hex digits, four hex digits, nothing more. */
  predicate HeaderLineValid(line: string)
  {
    |line| == 15 && line[0] == 'H' && (forall i | 1 <= i < 7 :: IsNameChar(line[i])) && AllHex(line[7..])
  }

  /** textLineValidation: T and exactly eight hex digits. */
  predicate TextLineValid(line: string)
  {
    |line| == 9 && line[0] == 'T' && AllHex(line[1..])
  }

  /** endLineValidation: E and exactly four hex digits. */
  predicate EndLineValid(line: string)
  {
    |line| == 5 && line[0] == 'E' && AllHex(line[1..])
  }

  /** The character class is exactly the digits Integer.parseInt accepts in radix 16. */
  lemma HexClass(s: string)
    ensures AllHex(s) <==> AllDigits(s, 16)
  {
    forall i | 0 <= i < |s|
      ensures IsHexChar(s[i]) <==> IsDigit(s[i], 16)
    {
    }
  }

  /** The value of a four-digit hex field, as Integer.parseInt(field, 16) gives it. */
  function Hex4(field: string): (r: int)
    requires |field| == 4 && AllHex(field)
    ensures 0 <= r < UPPER_LIMIT
    ensures ParseInt(field, 16) == Some(r)
  {
    HexClass(field);
    DigitsValueBound(field, 16);
    assert Pow(16, 4) == UPPER_LIMIT;
    ParseIntDigits(field, 16);
    DigitsValue(field, 16)
  }

  function HeaderName(line: string): string
    requires HeaderLineValid(line)
  {
    line[1..7]
  }

  function HeaderStart(line: string): int
    requires HeaderLineValid(line)
  {
    Hex4(line[7..11])
  }

  function HeaderLength(line: string): int
    requires HeaderLineValid(line)
  {
    Hex4(line[11..])
  }

  function TextAddress(line: string): int
    requires TextLineValid(line)
  {
    Hex4(line[1..5])
  }

  /** The data field cast to short. */
  function TextWord(line: string): Short
    requires TextLineValid(line)
  {
    ToShort(Hex4(line[5..]))
  }

  /** The upper case hex word of an address is a four-digit field that reads back as it. */
  lemma HexWordField(a: int)
    requires 0 <= a < UPPER_LIMIT
    ensures |HexWord(a)| == 4 && AllHex(HexWord(a)) && Hex4(HexWord(a)) == a
  {
    HexWordValue(a);
    HexClass(HexWord(a));
  }

  /** So is the lower case word `%04x` prints. */
  lemma LowerHexField(u: int)
    requires 0 <= u < UPPER_LIMIT
    ensures |Digits(u, 16, 4)| == 4 && AllHex(Digits(u, 16, 4)) && Hex4(Digits(u, 16, 4)) == u
  {
    HexClass(Digits(u, 16, 4));
    assert Pow(16, 4) == UPPER_LIMIT;
    DigitsFit(u, 16, 4);
  }

  /**
   * The text record the linker writes for a word at an address (`T`, the address as four upper
   * case hex digits, the word as four lower case hex digits) passes textLineValidation and loads
   * back as that word at that address; a record that keeps an X9 or X16 suffix never passes.
   */
  lemma TextRecordRoundTrip(a: int, w: Short, suffix: string)
    requires 0 <= a < UPPER_LIMIT && |suffix| > 0
    ensures var line := "T" + HexWord(a) + Digits(ToUnsigned(w), 16, 4);
      TextLineValid(line) && TextAddress(line) == a && TextWord(line) == w &&
      !TextLineValid(line + suffix)
  {
    var address := HexWord(a);
    var data := Digits(ToUnsigned(w), 16, 4);
    var line := "T" + address + data;
    HexWordField(a);
    LowerHexField(ToUnsigned(w));
    assert line[1..] == address + data;
    assert line[1..5] == address && line[5..] == data;
    assert TextLineValid(line);
    assert TextWord(line) == w by {
      ShortRoundTrip(w, 0);
    }
  }

  // ---------------------------------------------------------------- the end record

  /** Short.parseShort(s, radix): Integer.parseInt, then a range check against short. */
  function ParseShort(s: string, radix: nat): (r: Option<Short>)
    ensures r.Some? <==> ParseInt(s, radix).Some? && -0x8000 <= ParseInt(s, radix).value < 0x8000
    ensures r.Some? ==> r.value == ParseInt(s, radix).value
  {
    match ParseInt(s, radix)
    case None => None
    case Some(v) => if -0x8000 <= v < 0x8000 then Some(v) else None
  }

  /**
   * The start address as loadEndRecordContent reads it, with Short.parseShort: None (the
   * NumberFormatException that ends the program) for every address of the upper half of memory.
   */
  function EndAddressAsWritten(line: string): (r: Option<int>)
    requires EndLineValid(line)
    ensures r.Some? <==> Hex4(line[1..]) < 0x8000
    ensures r.Some? ==> r.value == Hex4(line[1..])
  {
    ParseShort(line[1..], 16)
  }

  /**
   * The linker's end record for a start address at or above 0x8000 passes endLineValidation and
   * is then refused by the Short.parseShort reading.
   */
  lemma EndAddressAsWrittenRejectsUpperHalf(a: int)
    requires 0x8000 <= a < UPPER_LIMIT
    ensures EndLineValid("E" + HexWord(a)) && EndAddressAsWritten("E" + HexWord(a)) == None
  {
    var line := "E" + HexWord(a);
    HexWordField(a);
    assert line[1..] == HexWord(a);
  }

  /** The start address read as the full 16-bit hex value (Integer.parseInt, radix 16). */
  function EndAddress(line: string): int
    requires EndLineValid(line)
  {
    Hex4(line[1..])
  }

  /** Every address of memory can be a start address: the end record for it reads back as it. */
  lemma EndAddressRoundTrip(a: int)
    requires 0 <= a < UPPER_LIMIT
    ensures EndLineValid("E" + HexWord(a)) && EndAddress("E" + HexWord(a)) == a
  {
    var line := "E" + HexWord(a);
    HexWordField(a);
    assert line[1..] == HexWord(a);
  }

  // ---------------------------------------------------------------- file shape and contents

  /**
   * A loadable object file: a valid header first, a valid end record last and only valid text
   * records between them.
   */
  predicate LoadableFile(lines: seq<string>)
  {
    |lines| >= 2 && HeaderLineValid(lines[0]) && EndLineValid(lines[|lines| - 1]) &&
    forall k | 0 < k < |lines| - 1 :: TextLineValid(lines[k])
  }

  /** The switch of parseInputFile on the record at index k: its verdict when nothing failed before. */
  predicate RecordAccepted(lines: seq<string>, k: int)
    requires 0 <= k < |lines|
  {
    |lines[k]| > 0 &&
    match lines[k][0]
    case 'H' => HeaderLineValid(lines[k]) && k == 0
    case 'T' => TextLineValid(lines[k])
    case 'E' => EndLineValid(lines[k]) && k == |lines| - 1
    case _ => false
  }

  /** The first n records all pass the switch. */
  predicate AllAccepted(lines: seq<string>, n: int)
    requires 0 <= n <= |lines|
  {
    forall k | 0 <= k < n :: RecordAccepted(lines, k)
  }

  lemma AllAcceptedStep(lines: seq<string>, n: int)
    requires 0 <= n < |lines| && AllAccepted(lines, n) && RecordAccepted(lines, n)
    ensures AllAccepted(lines, n + 1)
  {
  }

  /** An accepted header is the first record, an accepted end record the last. */
  lemma AcceptedLetters(lines: seq<string>, k: int)
    requires 0 <= k < |lines| && RecordAccepted(lines, k)
    ensures StartsWith(lines[k], 'H') ==> k == 0 && HeaderLineValid(lines[k])
    ensures StartsWith(lines[k], 'E') ==> k == |lines| - 1 && EndLineValid(lines[k])
  {
  }

  /**
   * The record-order rules: every record passes the switch and a header and an end record were
   * both seen exactly when the file is loadable; so the header is the first record and the end
   * record the last.
   */
  lemma {:induction false} LoadableIffAccepted(lines: seq<string>)
    ensures LoadableFile(lines) <==>
      (|lines| > 0 && AllAccepted(lines, |lines|) &&
       StartsWith(lines[0], 'H') && StartsWith(lines[|lines| - 1], 'E'))
  {
    if LoadableFile(lines) {
      forall k | 0 <= k < |lines|
        ensures RecordAccepted(lines, k)
      {
        if k == 0 {
          assert lines[k][0] == 'H';
        } else if k == |lines| - 1 {
          assert lines[k][0] == 'E';
        } else {
          assert TextLineValid(lines[k]) && lines[k][0] == 'T';
        }
      }
    }
    if |lines| > 0 && AllAccepted(lines, |lines|) &&
       StartsWith(lines[0], 'H') && StartsWith(lines[|lines| - 1], 'E')
    {
      assert RecordAccepted(lines, 0);
      assert |lines| >= 2;
      assert RecordAccepted(lines, |lines| - 1);
      forall k | 0 < k < |lines| - 1
        ensures TextLineValid(lines[k])
      {
        assert RecordAccepted(lines, k);
      }
    }
  }

  /** Memory after the text records among lines are stored in order, each into its own cell. */
  function LoadTexts(mem: seq<Short>, lines: seq<string>): (r: seq<Short>)
    requires |mem| == UPPER_LIMIT
    ensures |r| == UPPER_LIMIT
    decreases |lines|
  {
    if |lines| == 0 then mem
    else
      var before := LoadTexts(mem, lines[..|lines| - 1]);
      var last := lines[|lines| - 1];
      if TextLineValid(last) then before[TextAddress(last) := TextWord(last)] else before
  }

  /** Taking one more line into LoadTexts stores its word when it is a text record. */
  lemma LoadTextsStep(mem: seq<Short>, lines: seq<string>, i: int)
    requires |mem| == UPPER_LIMIT && 0 <= i < |lines|
    ensures LoadTexts(mem, lines[..i + 1]) ==
      if TextLineValid(lines[i]) then LoadTexts(mem, lines[..i])[TextAddress(lines[i]) := TextWord(lines[i])]
      else LoadTexts(mem, lines[..i])
  {
    assert lines[..i + 1][..i] == lines[..i];
  }

  /** The index of the last text record for address a, or -1 when there is none. */
  function LastWriter(lines: seq<string>, a: int): (k: int)
    ensures -1 <= k < |lines|
    ensures k >= 0 ==> TextLineValid(lines[k]) && TextAddress(lines[k]) == a
    ensures forall j | k < j < |lines| :: !(TextLineValid(lines[j]) && TextAddress(lines[j]) == a)
    decreases |lines|
  {
    if |lines| == 0 then -1
    else
      var last := lines[|lines| - 1];
      if TextLineValid(last) && TextAddress(last) == a then |lines| - 1
      else
        var init := lines[..|lines| - 1];
        assert forall j | 0 <= j < |init| :: init[j] == lines[j];
        LastWriter(init, a)
  }

  /** Each cell holds the word of the last text record for it, or its old value when none names it. */
  lemma {:induction false} LoadTextsLastWins(mem: seq<Short>, lines: seq<string>, a: int)
    requires |mem| == UPPER_LIMIT && 0 <= a < UPPER_LIMIT
    ensures var k := LastWriter(lines, a);
      LoadTexts(mem, lines)[a] == if k < 0 then mem[a] else TextWord(lines[k])
    decreases |lines|
  {
    if |lines| > 0 {
      var init := lines[..|lines| - 1];
      LoadTextsLastWins(mem, init, a);
      var last := lines[|lines| - 1];
      if !(TextLineValid(last) && TextAddress(last) == a) {
        var k := LastWriter(init, a);
        assert LastWriter(lines, a) == k;
        if k >= 0 {
          assert lines[k] == init[k];
        }
      }
    }
  }

  // ---------------------------------------------------------------- loading

  /** The two static fields of the loader, owned by one load. */
  class Loader {
    var initialLoadAddress: int
    var upperBound: int

    constructor()
      ensures initialLoadAddress == 0 && upperBound == 0
    {
      initialLoadAddress := 0;
      upperBound := 0;
    }

    /**
     * loadHeaderRecordContent: the machine is named after chars 1-6, and the upper bound is the
     * load address plus the length.
     */
    method LoadHeaderRecordContent(line: string, m: Machine)
      requires HeaderLineValid(line) && m.Valid()
      modifies this, m
      ensures m.Valid() && m.name == HeaderName(line)
      ensures m.pc == old(m.pc) && m.prevPc == old(m.prevPc)
      ensures initialLoadAddress == HeaderStart(line)
      ensures upperBound == HeaderStart(line) + HeaderLength(line)
    {
      m.name := line[1..7];
      var start := ParseInt(line[7..11], 16);
      assert start == Some(Hex4(line[7..11]));
      initialLoadAddress := start.value;
      var machineLength := ParseInt(line[11..], 16);
      assert machineLength == Some(Hex4(line[11..]));
      upperBound := machineLength.value + initialLoadAddress;
    }

    /** loadTextRecordContent: the cell at the record's address := (short) data; no other cell changes. */
    method LoadTextRecordContent(line: string, m: Machine)
      requires TextLineValid(line) && m.Valid()
      modifies m.memory
      ensures m.Cell(TextAddress(line)) == TextWord(line)
      ensures forall a | 0 <= a < UPPER_LIMIT && a != TextAddress(line) :: m.Cell(a) == old(m.Cell(a))
      ensures Simulator.Image(m) == old(Simulator.Image(m))[TextAddress(line) := TextWord(line)]
    {
      ghost var before := Simulator.Image(m);
      var dataToStore := ParseInt(line[5..], 16);
      assert dataToStore == Some(Hex4(line[5..]));
      var addressToStoreAt := ParseInt(line[1..5], 16);
      assert addressToStoreAt == Some(Hex4(line[1..5]));
      m.Store(addressToStoreAt.value, ToShort(dataToStore.value));
      Simulator.StoredImage(m, before, TextAddress(line), TextWord(line));
    }

    /** loadEndRecordContent: PC := the start address of the end record. */
    method LoadEndRecordContent(line: string, m: Machine)
      requires EndLineValid(line) && m.Valid()
      modifies m
      ensures m.Valid() && m.pc == EndAddress(line)
      ensures m.prevPc == old(m.prevPc) && m.name == old(m.name)
    {
      var start := ParseInt(line[1..], 16);
      assert start == Some(Hex4(line[1..]));
      m.SetPc(start.value);
    }

    /**
     * One pass of the switch in parseInputFile over the record at index i: it is accepted exactly
     * when RecordAccepted says so, and an accepted record is loaded by its load method.
     */
    method LoadRecord(lines: seq<string>, i: int, m: Machine, ghost image: seq<Short>) returns (accepted: bool)
      requires 0 <= i < |lines| && m.Valid() && |image| == UPPER_LIMIT
      requires Simulator.Image(m) == LoadTexts(image, lines[..i])
      modifies this, m, m.memory
      ensures m.Valid() && m.prevPc == old(m.prevPc)
      ensures accepted <==> RecordAccepted(lines, i)
      ensures accepted && StartsWith(lines[i], 'H') ==>
        m.name == HeaderName(lines[i]) && initialLoadAddress == HeaderStart(lines[i]) &&
        upperBound == HeaderStart(lines[i]) + HeaderLength(lines[i])
      ensures accepted && !StartsWith(lines[i], 'H') ==>
        m.name == old(m.name) && initialLoadAddress == old(initialLoadAddress) && upperBound == old(upperBound)
      ensures accepted ==> m.pc == if StartsWith(lines[i], 'E') then EndAddress(lines[i]) else old(m.pc)
      ensures accepted ==> Simulator.Image(m) == LoadTexts(image, lines[..i + 1])
    {
      LoadTextsStep(image, lines, i);
      var data := lines[i];
      if |data| == 0 {
        // charAt(0) throws
        return false;
      }
      accepted := true;
      if data[0] == 'H' {
        if HeaderLineValid(data) && i == 0 {
          LoadHeaderRecordContent(data, m);
        } else {
          accepted := false;
        }
      } else if data[0] == 'T' {
        if TextLineValid(data) {
          LoadTextRecordContent(data, m);
        } else {
          accepted := false;
        }
      } else if data[0] == 'E' {
        if EndLineValid(data) && i == |lines| - 1 {
          LoadEndRecordContent(data, m);
        } else {
          accepted := false;
        }
      } else {
        accepted := false;
      }
    }

    /**
     * parseInputFile: the records are taken in order and the first one that fails its check ends
     * the load with false. A loadable file ends with the machine named after the header, every text
     * word stored, and PC at the end record's address.
     */
    method ParseInputFile(lines: seq<string>, m: Machine) returns (ok: bool)
      requires m.Valid()
      modifies this, m, m.memory
      ensures m.Valid()
      ensures ok <==> LoadableFile(lines)
      ensures ok ==> m.name == HeaderName(lines[0]) && m.pc == EndAddress(lines[|lines| - 1])
      ensures ok ==> initialLoadAddress == HeaderStart(lines[0])
      ensures ok ==> upperBound == HeaderStart(lines[0]) + HeaderLength(lines[0])
      ensures ok ==> Simulator.Image(m) == LoadTexts(old(Simulator.Image(m)), lines)
      ensures m.prevPc == old(m.prevPc)
    {
      ghost var image := Simulator.Image(m);
      var hFlag := false;
      var eFlag := false;
      var i := 0;
      while i < |lines|
        invariant 0 <= i <= |lines|
        invariant AllAccepted(lines, i)
        invariant hFlag <==> i > 0 && StartsWith(lines[0], 'H')
        invariant eFlag <==> i == |lines| && i > 0 && StartsWith(lines[i - 1], 'E')
        invariant m.Valid() && m.prevPc == old(m.prevPc)
        invariant hFlag ==> RecordAccepted(lines, 0) && HeaderLineValid(lines[0])
        invariant hFlag ==> m.name == HeaderName(lines[0]) && initialLoadAddress == HeaderStart(lines[0])
        invariant hFlag ==> upperBound == HeaderStart(lines[0]) + HeaderLength(lines[0])
        invariant eFlag ==> RecordAccepted(lines, |lines| - 1) && EndLineValid(lines[|lines| - 1])
        invariant eFlag ==> m.pc == EndAddress(lines[|lines| - 1])
        invariant Simulator.Image(m) == LoadTexts(image, lines[..i])
      {
        var accepted := LoadRecord(lines, i, m, image);
        if !accepted {
          assert !LoadableFile(lines) by {
            LoadableIffAccepted(lines);
          }
          return false;
        }
        assert AllAccepted(lines, i + 1) by { AllAcceptedStep(lines, i); }
        AcceptedLetters(lines, i);
        hFlag := hFlag || StartsWith(lines[i], 'H');
        eFlag := eFlag || StartsWith(lines[i], 'E');
        i := i + 1;
      }
      assert lines[..i] == lines;
      ok := hFlag && eFlag;
      assert ok <==> LoadableFile(lines) by {
        LoadableIffAccepted(lines);
      }
    }
  }
}
