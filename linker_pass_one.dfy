/**
 * The linker's first pass: every object file (segment) is read up to its first record that is
 * not an N record; the segments are laid out one after another from the initial program load
 * address (ipla), and the segment names and N-record symbols are merged into one external
 * symbol table.
 *
 * A segment arrives as its sequence of lines. An exception that escapes processSegment or
 * executePassOne (a missing line, charAt or substring out of range, a NumberFormatException)
 * becomes Err(MalformedRecord); the RuntimeException for a symbol outside its segment becomes
 * Err(SymbolOutsideSegment(name)).
 */
module LinkerPassOne {
  import opened Wrappers
  import opened JavaText

  datatype LinkError =
    | MalformedRecord
    | SymbolOutsideSegment(symbol: string)
    | SymbolNotDefined(symbol: string)
    | NoMainSegment

  /**
   * A segment: its name, the lines left after its N records, its size, its program load address
   * and the symbols it defines.
   */
  datatype Segment = Segment(segmentName: string, input: seq<string>, size: int, pla: int,
                             extSymbols: map<string, int>)

  datatype PassOneResult = PassOneResult(symTable: map<string, int>, totalSize: int, segments: seq<Segment>)

  // ---------------------------------------------------------------- one segment

  /** An N record: the name between N and the first '=', and the hex value after it plus pla. */
  function NRecord(line: string, pla: int): Result<(string, int), LinkError>
  {
    var end := IndexOf(line, '=');
    if end < 1 then Err(MalformedRecord)
    else
      match ParseInt(line[end + 1..], 16)
      case None => Err(MalformedRecord)
      case Some(v) => Ok((line[1..end], v + pla))
  }

  /**
   * The N record the assembler writes for a symbol at an offset (`N`, the name, `=`, the offset
   * as four hex digits) defines that name at the offset plus pla.
   */
  lemma {:induction false} NRecordRoundTrip(name: string, offset: int, pla: int)
    requires '=' !in name && 0 <= offset < 0x10000
    ensures NRecord("N" + name + "=" + HexWord(offset), pla) == Ok((name, offset + pla))
  {
    var line := "N" + name + "=" + HexWord(offset);
    var end := |name| + 1;
    assert line[..end] == "N" + name;
    assert line[end] == '=';
    assert IndexOf(line, '=') == end by {
      IndexOfFirst(line, '=', end);
    }
    assert line[end + 1..] == HexWord(offset);
    assert line[1..end] == name;
    ParseHexWord(offset);
  }

  /**
   * The loop of processSegment from line j: N records are read until the first other line;
   * each defines its symbol, replacing an earlier definition, and a value beyond pla + size
   * stops the link. The result is the symbols and the index of the line that ended the loop.
   */
  function NRecords(lines: seq<string>, j: int, pla: int, size: int, syms: map<string, int>)
    : (r: Result<(map<string, int>, int), LinkError>)
    requires 0 <= j <= |lines|
    ensures r.Ok? ==> j <= r.value.1 < |lines|
    decreases |lines| - j
  {
    if j == |lines| || |lines[j]| == 0 then Err(MalformedRecord)
    else if lines[j][0] != 'N' then Ok((syms, j))
    else
      match NRecord(lines[j], pla)
      case Err(e) => Err(e)
      case Ok(record) =>
        if record.1 > pla + size then Err(SymbolOutsideSegment(record.0))
        else NRecords(lines, j + 1, pla, size, syms[record.0 := record.1])
  }

  /**
   * processSegment: the header gives the name (chars 1-6), which is defined at pla, and the size
   * (chars 11 on, hex); then the N records; the segment's input resumes at the first other line.
   */
  function SegmentSpec(lines: seq<string>, pla: int): Result<Segment, LinkError>
  {
    if |lines| == 0 || |lines[0]| < 11 then Err(MalformedRecord)
    else
      var name := lines[0][1..7];
      match ParseInt(lines[0][11..], 16)
      case None => Err(MalformedRecord)
      case Some(size) =>
        match NRecords(lines, 1, pla, size, map[name := pla])
        case Err(e) => Err(e)
        case Ok(rest) => Ok(Segment(name, lines[rest.1..], size, pla, rest.0))
  }

  /** Every line lo..hi-1 is an N record that parses and lies within the segment. */
  predicate SymbolsFit(lines: seq<string>, lo: int, hi: int, pla: int, size: int)
    requires 0 <= lo <= hi <= |lines|
  {
    forall i | lo <= i < hi ::
      StartsWith(lines[i], 'N') && NRecord(lines[i], pla).Ok? && NRecord(lines[i], pla).value.1 <= pla + size
  }

  /** The (name, value) pairs of the N records lines[lo..hi]. */
  function Definitions(lines: seq<string>, lo: int, hi: int, pla: int): (r: seq<(string, int)>)
    requires 0 <= lo <= hi <= |lines|
    requires forall i {:trigger NRecord(lines[i], pla)} | lo <= i < hi :: NRecord(lines[i], pla).Ok?
    ensures |r| == hi - lo
    decreases hi - lo
  {
    if lo == hi then [] else [NRecord(lines[lo], pla).value] + Definitions(lines, lo + 1, hi, pla)
  }

  /** HashMap.put of each pair in order: a later pair replaces an earlier one with the same name. */
  function Overlay(syms: map<string, int>, pairs: seq<(string, int)>): map<string, int>
    decreases |pairs|
  {
    if |pairs| == 0 then syms
    else
      var last := pairs[|pairs| - 1];
      Overlay(syms, pairs[..|pairs| - 1])[last.0 := last.1]
  }

  lemma {:induction false} OverlayCons(syms: map<string, int>, p: (string, int), ps: seq<(string, int)>)
    ensures Overlay(syms, [p] + ps) == Overlay(syms[p.0 := p.1], ps)
    decreases |ps|
  {
    if |ps| == 0 {
      assert [p] + ps == [p];
      assert [p][..0] == [];
    } else {
      var last := ps[|ps| - 1];
      var init := ps[..|ps| - 1];
      assert ([p] + ps)[..|ps|] == [p] + init;
      OverlayCons(syms, p, init);
    }
  }

  /** A name no pair carries keeps its starting entry. */
  lemma {:induction false} OverlayUntouched(syms: map<string, int>, pairs: seq<(string, int)>, s: string)
    requires forall k | 0 <= k < |pairs| :: pairs[k].0 != s
    ensures var d := Overlay(syms, pairs);
      (s in d <==> s in syms) && (s in syms ==> d[s] == syms[s])
    decreases |pairs|
  {
    if |pairs| > 0 {
      OverlayUntouched(syms, pairs[..|pairs| - 1], s);
    }
  }

  /** The last pair for a name gives its value. */
  lemma {:induction false} OverlayLast(syms: map<string, int>, pairs: seq<(string, int)>, i: int)
    requires 0 <= i < |pairs| && forall k | i < k < |pairs| :: pairs[k].0 != pairs[i].0
    ensures pairs[i].0 in Overlay(syms, pairs) && Overlay(syms, pairs)[pairs[i].0] == pairs[i].1
    decreases |pairs|
  {
    if i < |pairs| - 1 {
      var init := pairs[..|pairs| - 1];
      assert init[i] == pairs[i];
      OverlayLast(syms, init, i);
    }
  }

  /**
   * What the N-record loop reads: it stops at index k on a non-empty line that is not an N
   * record, every line before it is an N record inside the segment, and the symbols are those
   * records laid over the starting table.
   */
  lemma {:induction false} NRecordsShape(lines: seq<string>, j: int, pla: int, size: int, syms: map<string, int>)
    requires 0 <= j <= |lines| && NRecords(lines, j, pla, size, syms).Ok?
    ensures var k := NRecords(lines, j, pla, size, syms).value.1;
      j <= k < |lines| && |lines[k]| > 0 && lines[k][0] != 'N' && SymbolsFit(lines, j, k, pla, size) &&
      NRecords(lines, j, pla, size, syms).value.0 == Overlay(syms, Definitions(lines, j, k, pla))
    decreases |lines| - j
  {
    if lines[j][0] == 'N' {
      var record := NRecord(lines[j], pla).value;
      var next := syms[record.0 := record.1];
      var rest := NRecords(lines, j + 1, pla, size, next);
      assert NRecords(lines, j, pla, size, syms) == rest;
      NRecordsShape(lines, j + 1, pla, size, next);
      var k := rest.value.1;
      assert SymbolsFit(lines, j, k, pla, size) by {
        assert SymbolsFit(lines, j + 1, k, pla, size);
        assert StartsWith(lines[j], 'N') && NRecord(lines[j], pla).Ok? && record.1 <= pla + size;
      }
      var tail := Definitions(lines, j + 1, k, pla);
      assert Definitions(lines, j, k, pla) == [record] + tail;
      assert rest.value.0 == Overlay(next, tail);
      OverlayCons(syms, record, tail);
    }
  }

  /**
   * A segment that processSegment accepts: the header line is long enough and its size parses,
   * the lines up to the segment's input are N records that each define a symbol no further than
   * pla + size, and the input starts at a non-empty line that is not an N record.
   */
  lemma {:induction false} SegmentShape(lines: seq<string>, pla: int)
    requires SegmentSpec(lines, pla).Ok?
    ensures var seg := SegmentSpec(lines, pla).value;
      var k := |lines| - |seg.input|;
      |lines[0]| >= 11 && ParseInt(lines[0][11..], 16) == Some(seg.size) &&
      seg.segmentName == lines[0][1..7] && seg.pla == pla &&
      1 <= k < |lines| && seg.input == lines[k..] && |lines[k]| > 0 && lines[k][0] != 'N' &&
      SymbolsFit(lines, 1, k, pla, seg.size) &&
      seg.extSymbols == Overlay(map[seg.segmentName := pla], Definitions(lines, 1, k, pla))
  {
    var name := lines[0][1..7];
    var size := ParseInt(lines[0][11..], 16).value;
    NRecordsShape(lines, 1, pla, size, map[name := pla]);
  }

  /** processSegment records the pla it was given. */
  lemma {:induction false} SegmentPla(lines: seq<string>, pla: int)
    requires SegmentSpec(lines, pla).Ok?
    ensures SegmentSpec(lines, pla).value.pla == pla
  {
  }

  /**
   * The N-record loop fails when, before any other line, it meets an N record whose value lies
   * beyond pla + size.
   */
  lemma {:induction false} NRecordsOutside(lines: seq<string>, j: int, pla: int, size: int,
                                           syms: map<string, int>, i: int)
    requires 0 <= j <= i < |lines| && forall k | j <= k <= i :: StartsWith(lines[k], 'N')
    requires NRecord(lines[i], pla).Ok? && NRecord(lines[i], pla).value.1 > pla + size
    ensures NRecords(lines, j, pla, size, syms).Err?
    decreases i - j
  {
    assert StartsWith(lines[j], 'N');
    if j < i && NRecord(lines[j], pla).Ok? && NRecord(lines[j], pla).value.1 <= pla + size {
      var record := NRecord(lines[j], pla).value;
      NRecordsOutside(lines, j + 1, pla, size, syms[record.0 := record.1], i);
    }
  }

  /** A symbol beyond pla + size among the segment's leading N records makes processSegment fail. */
  lemma {:induction false} SymbolOutsideFails(lines: seq<string>, pla: int, i: int)
    requires 1 <= i < |lines| && forall j | 1 <= j <= i :: StartsWith(lines[j], 'N')
    requires |lines[0]| >= 11 && ParseInt(lines[0][11..], 16).Some?
    requires NRecord(lines[i], pla).Ok?
    requires NRecord(lines[i], pla).value.1 > pla + ParseInt(lines[0][11..], 16).value
    ensures SegmentSpec(lines, pla).Err?
  {
    var size := ParseInt(lines[0][11..], 16).value;
    NRecordsOutside(lines, 1, pla, size, map[lines[0][1..7] := pla], i);
  }

  lemma {:induction false} ProcessSegmentLoopStep(lines: seq<string>, j: int, pla: int, size: int, syms: map<string, int>)
    requires 1 <= j < |lines| && StartsWith(lines[j], 'N')
    requires NRecord(lines[j], pla).Ok? && NRecord(lines[j], pla).value.1 <= pla + size
    ensures var record := NRecord(lines[j], pla).value;
      NRecords(lines, j, pla, size, syms) == NRecords(lines, j + 1, pla, size, syms[record.0 := record.1])
  {
  }

  // ---------------------------------------------------------------- all segments

  /** The total size of the segments. */
  function SumSizes(segments: seq<Segment>): int
  {
    if |segments| == 0 then 0 else SumSizes(segments[..|segments| - 1]) + segments[|segments| - 1].size
  }

  /** putAll of every segment's symbols in order: a later segment's symbol replaces an earlier one. */
  function MergeSymbols(segments: seq<Segment>): map<string, int>
  {
    if |segments| == 0 then map[]
    else MergeSymbols(segments[..|segments| - 1]) + segments[|segments| - 1].extSymbols
  }

  /** The segments already processed followed by the rest, or the rest's error. */
  function After(done: seq<Segment>, rest: Result<seq<Segment>, LinkError>): Result<seq<Segment>, LinkError>
  {
    match rest
    case Err(e) => Err(e)
    case Ok(more) => Ok(done + more)
  }

  /**
   * The segments of the inputs, the first loaded at pla and each next one at the pla left by the
   * one before it; the first input that fails stops the pass with its error. The per-segment step
   * is a parameter, so that what is proved here holds whatever it does; the pass uses SegmentSpec.
   */
  function Layout(inputs: seq<seq<string>>, pla: int, process: (seq<string>, int) -> Result<Segment, LinkError>)
    : Result<seq<Segment>, LinkError>
    decreases |inputs|
  {
    if |inputs| == 0 then Ok([])
    else
      match process(inputs[0], pla)
      case Err(e) => Err(e)
      case Ok(segment) => After([segment], Layout(inputs[1..], pla + segment.size, process))
  }

  /** executePassOne's result, built from the layout of processSegment's results starting at ipla. */
  function PassOneSpec(inputs: seq<seq<string>>, ipla: int): Result<PassOneResult, LinkError>
  {
    match Layout(inputs, ipla, SegmentSpec)
    case Err(e) => Err(e)
    case Ok(segments) => Ok(PassOneResult(MergeSymbols(segments), SumSizes(segments), segments))
  }

  /** The layout of the inputs from i on: input i at pla, then the rest after it. */
  lemma {:induction false} LayoutStep(inputs: seq<seq<string>>, i: int, pla: int, process: (seq<string>, int) -> Result<Segment, LinkError>)
    requires 0 <= i < |inputs|
    ensures var seg := process(inputs[i], pla);
      (seg.Err? ==> Layout(inputs[i..], pla, process) == Err(seg.error)) &&
      (seg.Ok? ==> Layout(inputs[i..], pla, process) ==
                   After([seg.value], Layout(inputs[i + 1..], pla + seg.value.size, process)))
  {
    assert inputs[i..][0] == inputs[i];
    assert inputs[i..][1..] == inputs[i + 1..];
  }

  lemma {:induction false} SumSizesCons(s: Segment, t: seq<Segment>)
    ensures SumSizes([s] + t) == s.size + SumSizes(t)
    decreases |t|
  {
    if |t| > 0 {
      assert ([s] + t)[..|t|] == [s] + t[..|t| - 1];
      SumSizesCons(s, t[..|t| - 1]);
    }
  }

  /** A layout that succeeds has one segment per input. */
  lemma {:induction false} LayoutLength(inputs: seq<seq<string>>, pla: int,
                                        process: (seq<string>, int) -> Result<Segment, LinkError>)
    requires Layout(inputs, pla, process).Ok?
    ensures |Layout(inputs, pla, process).value| == |inputs|
    decreases |inputs|
  {
    if |inputs| > 0 {
      var seg := process(inputs[0], pla).value;
      LayoutLength(inputs[1..], pla + seg.size, process);
    }
  }

  /** One more input processed where the ones before it end extends the layout by its segment. */
  lemma {:induction false} LayoutSnoc(inputs: seq<seq<string>>, i: int, pla: int,
                                      process: (seq<string>, int) -> Result<Segment, LinkError>,
                                      segments: seq<Segment>, seg: Segment)
    requires 0 <= i < |inputs| && Layout(inputs[..i], pla, process) == Ok(segments)
    requires process(inputs[i], pla + SumSizes(segments)) == Ok(seg)
    ensures Layout(inputs[..i + 1], pla, process) == Ok(segments + [seg])
    decreases i, 0
  {
    var pre := inputs[..i + 1];
    assert pre[0] == inputs[0];
    if i == 0 {
      assert segments == [];
      assert pre[1..] == [];
      assert [seg] + [] == segments + [seg];
    } else {
      LayoutSnocLater(inputs, i, pla, process, segments, seg);
    }
  }

  /** LayoutSnoc past the first input: the first segment stays in front of the longer rest. */
  lemma {:induction false} LayoutSnocLater(inputs: seq<seq<string>>, i: int, pla: int,
                                           process: (seq<string>, int) -> Result<Segment, LinkError>,
                                           segments: seq<Segment>, seg: Segment)
    requires 0 < i < |inputs| && Layout(inputs[..i], pla, process) == Ok(segments)
    requires process(inputs[i], pla + SumSizes(segments)) == Ok(seg)
    ensures Layout(inputs[..i + 1], pla, process) == Ok(segments + [seg])
    decreases i - 1, 1
  {
    var pre := inputs[..i + 1];
    assert pre[0] == inputs[0] && inputs[..i][0] == inputs[0];
    var first := process(inputs[0], pla).value;
    var next := pla + first.size;
    var tail := inputs[1..];
    assert inputs[..i][1..] == tail[..i - 1];
    var rest := Layout(tail[..i - 1], next, process).value;
    assert segments == [first] + rest;
    SumSizesCons(first, rest);
    assert pla + SumSizes(segments) == next + SumSizes(rest);
    assert tail[i - 1] == inputs[i];
    LayoutSnoc(tail, i - 1, next, process, rest, seg);
    assert pre[1..] == tail[..i];
    assert Layout(pre, pla, process) == After([first], Layout(tail[..i], next, process));
    assert [first] + (rest + [seg]) == segments + [seg];
  }

  /** Segment k is input k processed at the starting pla plus the sizes of segments 0..k-1. */
  lemma {:induction false} LayoutPlacedAt(inputs: seq<seq<string>>, pla: int,
                                          process: (seq<string>, int) -> Result<Segment, LinkError>, k: int)
    requires Layout(inputs, pla, process).Ok? && 0 <= k < |inputs|
    ensures var segments := Layout(inputs, pla, process).value;
      |segments| == |inputs| && process(inputs[k], pla + SumSizes(segments[..k])) == Ok(segments[k])
    decreases k
  {
    LayoutLength(inputs, pla, process);
    var seg := process(inputs[0], pla).value;
    var tail := inputs[1..];
    var next := pla + seg.size;
    var rest := Layout(tail, next, process).value;
    var segments := Layout(inputs, pla, process).value;
    assert segments == [seg] + rest;
    if k == 0 {
      assert segments[..0] == [];
    } else {
      LayoutPlacedAt(tail, next, process, k - 1);
      assert inputs[k] == tail[k - 1] && segments[k] == rest[k - 1];
      assert segments[..k] == [seg] + rest[..k - 1];
      SumSizesCons(seg, rest[..k - 1]);
    }
  }

  /** The first input that fails stops the pass with its error. */
  lemma {:induction false} LayoutFirstError(inputs: seq<seq<string>>, pla: int,
                                            process: (seq<string>, int) -> Result<Segment, LinkError>, k: int)
    requires 0 <= k < |inputs| && Layout(inputs[..k], pla, process).Ok?
    requires process(inputs[k], pla + SumSizes(Layout(inputs[..k], pla, process).value)).Err?
    ensures Layout(inputs, pla, process) ==
            Err(process(inputs[k], pla + SumSizes(Layout(inputs[..k], pla, process).value)).error)
    decreases k
  {
    if k == 0 {
      assert SumSizes(Layout(inputs[..0], pla, process).value) == 0;
    } else {
      var seg := process(inputs[0], pla).value;
      var tail := inputs[1..];
      assert inputs[..k][1..] == tail[..k - 1];
      var before := Layout(tail[..k - 1], pla + seg.size, process).value;
      assert Layout(inputs[..k], pla, process).value == [seg] + before;
      SumSizesCons(seg, before);
      assert tail[k - 1] == inputs[k];
      LayoutFirstError(tail, pla + seg.size, process, k - 1);
    }
  }

  /** The first input processSegment rejects is the first pass's error. */
  lemma PassOneFailsAt(inputs: seq<seq<string>>, ipla: int, i: int, segments: seq<Segment>, pla: int)
    requires 0 <= i < |inputs| && Layout(inputs[..i], ipla, SegmentSpec) == Ok(segments)
    requires pla == ipla + SumSizes(segments) && SegmentSpec(inputs[i], pla).Err?
    ensures PassOneSpec(inputs, ipla) == Err(SegmentSpec(inputs[i], pla).error)
  {
    LayoutFirstError(inputs, ipla, SegmentSpec, i);
  }

  /**
   * After a successful first pass, segment k is input k processed at ipla plus the sizes of the
   * segments before it, and the total size is the sum of all sizes.
   */
  lemma {:induction false} PassOnePlacement(inputs: seq<seq<string>>, ipla: int)
    requires PassOneSpec(inputs, ipla).Ok?
    ensures var result := PassOneSpec(inputs, ipla).value;
      |result.segments| == |inputs| && result.totalSize == SumSizes(result.segments) &&
      forall k | 0 <= k < |inputs| ::
        result.segments[k].pla == ipla + SumSizes(result.segments[..k]) &&
        SegmentSpec(inputs[k], result.segments[k].pla) == Ok(result.segments[k])
  {
    var segments := Layout(inputs, ipla, SegmentSpec).value;
    assert PassOneSpec(inputs, ipla).value == PassOneResult(MergeSymbols(segments), SumSizes(segments), segments);
    if |inputs| == 0 {
      assert segments == [];
    } else {
      LayoutPlacedAt(inputs, ipla, SegmentSpec, 0);
    }
    forall k | 0 <= k < |inputs|
      ensures segments[k].pla == ipla + SumSizes(segments[..k])
      ensures SegmentSpec(inputs[k], segments[k].pla) == Ok(segments[k])
    {
      SegmentPlacedAt(inputs, ipla, k);
    }
  }

  /** PassOnePlacement for one segment. */
  lemma SegmentPlacedAt(inputs: seq<seq<string>>, ipla: int, k: int)
    requires Layout(inputs, ipla, SegmentSpec).Ok? && 0 <= k < |inputs|
    ensures var segments := Layout(inputs, ipla, SegmentSpec).value;
      |segments| == |inputs| && segments[k].pla == ipla + SumSizes(segments[..k]) &&
      SegmentSpec(inputs[k], segments[k].pla) == Ok(segments[k])
  {
    var segments := Layout(inputs, ipla, SegmentSpec).value;
    LayoutLength(inputs, ipla, SegmentSpec);
    var pla := ipla + SumSizes(segments[..k]);
    LayoutPlacedAt(inputs, ipla, SegmentSpec, k);
    SegmentPla(inputs[k], pla);
  }

  /**
   * In the merged table a symbol has the value of the last segment that defines it, and a
   * symbol no segment defines is absent.
   */
  lemma {:induction false} MergeLastWins(segments: seq<Segment>, s: string)
    ensures (forall k | 0 <= k < |segments| :: s !in segments[k].extSymbols) ==> s !in MergeSymbols(segments)
    ensures forall k | 0 <= k < |segments| && s in segments[k].extSymbols ::
      (forall j | k < j < |segments| :: s !in segments[j].extSymbols) ==>
        s in MergeSymbols(segments) && MergeSymbols(segments)[s] == segments[k].extSymbols[s]
    decreases |segments|
  {
    if |segments| > 0 {
      var init := segments[..|segments| - 1];
      MergeLastWins(init, s);
      forall k | 0 <= k < |init| ensures init[k] == segments[k] { }
    }
  }

  // ---------------------------------------------------------------- the pass

  class PassOne {
    const ipla: int

    constructor(ipla: int)
      ensures this.ipla == ipla
    {
      this.ipla := ipla;
    }

    /** processSegment: reads the header and the N records of one segment loaded at pla. */
    method ProcessSegment(lines: seq<string>, pla: int) returns (r: Result<Segment, LinkError>)
      ensures r == SegmentSpec(lines, pla)
    {
      if |lines| == 0 || |lines[0]| < 11 {
        return Err(MalformedRecord);
      }
      var line := lines[0];
      var name := line[1..7];
      var extSymbols := map[name := pla];
      var parsed := ParseInt(line[11..], 16);
      if parsed.None? {
        return Err(MalformedRecord);
      }
      var size := parsed.value;
      var j := 1;
      while j < |lines| && StartsWith(lines[j], 'N')
        invariant 1 <= j <= |lines|
        invariant NRecords(lines, 1, pla, size, map[name := pla]) == NRecords(lines, j, pla, size, extSymbols)
        decreases |lines| - j
      {
        var record := NRecord(lines[j], pla);
        if record.Err? {
          return Err(record.error);
        }
        var symbolName := record.value.0;
        var symbolVal := record.value.1;
        if symbolVal > pla + size {
          return Err(SymbolOutsideSegment(symbolName));
        }
        ProcessSegmentLoopStep(lines, j, pla, size, extSymbols);
        extSymbols := extSymbols[symbolName := symbolVal];
        j := j + 1;
      }
      if j == |lines| || |lines[j]| == 0 {
        return Err(MalformedRecord);
      }
      r := Ok(Segment(name, lines[j..], size, pla, extSymbols));
    }

    /**
     * executePassOne: processes the inputs in order, each at the running pla, which then grows
     * by the segment's size, and merges each segment's symbols into the table.
     */
    method ExecutePassOne(inputs: seq<seq<string>>) returns (r: Result<PassOneResult, LinkError>)
      ensures r == PassOneSpec(inputs, ipla)
    {
      var symTable: map<string, int> := map[];
      var segments: seq<Segment> := [];
      var pla := ipla;
      var i := 0;
      assert inputs[..0] == [];
      while i < |inputs|
        invariant 0 <= i <= |inputs|
        invariant Layout(inputs[..i], ipla, SegmentSpec) == Ok(segments)
        invariant pla == ipla + SumSizes(segments)
        invariant symTable == MergeSymbols(segments)
      {
        var seg := ProcessSegment(inputs[i], pla);
        if seg.Err? {
          PassOneFailsAt(inputs, ipla, i, segments, pla);
          return Err(seg.error);
        }
        assert Layout(inputs[..i + 1], ipla, SegmentSpec) == Ok(segments + [seg.value]) by {
          LayoutSnoc(inputs, i, ipla, SegmentSpec, segments, seg.value);
        }
        assert (segments + [seg.value])[..|segments|] == segments;
        segments := segments + [seg.value];
        pla := pla + seg.value.size;
        symTable := symTable + seg.value.extSymbols;
        i := i + 1;
      }
      assert inputs[..i] == inputs;
      var totalSize := pla - ipla;
      r := Ok(PassOneResult(symTable, totalSize, segments));
    }
  }
}
