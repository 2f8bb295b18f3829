/**
 * Pseudo_Op_Table: the assembler directives with their fixed word length and whether that
 * length is definite or depends on the operand, plus blockLength for `.BLKW`.
 */
module PseudoOpTable {
  import opened Wrappers
  import opened JavaText
  import opened StringParser

  const ZERO: int := 0
  const ONE: int := 1
  const INVALID: int := -1

  /** Pseudo_Op_Ins_Enum. */
  datatype Ins = ORIG | EQU | END | ENT | EXT | FILL | BLKW | STRZ

  /** Pseudo_Op_Format. */
  datatype Format = DEFINITE | VARIABLE

  /** Pseudo_Op_Info. */
  datatype Info = Info(ins: Ins, length: int, format: Format)

  /** The directive as written in a program: a dot and the enum constant's name. */
  function Directive(i: Ins): string
  {
    match i
    case ORIG => ".ORIG" case EQU => ".EQU" case END => ".END" case ENT => ".ENT"
    case EXT => ".EXT" case FILL => ".FILL" case BLKW => ".BLKW" case STRZ => ".STRZ"
  }

  predicate IsDirective(key: string)
  {
    exists i: Ins :: Directive(i) == key
  }

  /** The table after loadTable's eight puts into m, in the source's order. */
  function Load(m: map<string, Info>): map<string, Info>
  {
    m[".ORIG" := Info(ORIG, ZERO, DEFINITE)][".EQU" := Info(EQU, ZERO, DEFINITE)]
     [".END" := Info(END, ZERO, DEFINITE)][".ENT" := Info(ENT, ZERO, DEFINITE)]
     [".EXT" := Info(EXT, ZERO, DEFINITE)][".FILL" := Info(FILL, ONE, DEFINITE)]
     [".BLKW" := Info(BLKW, ZERO, VARIABLE)][".STRZ" := Info(STRZ, ZERO, VARIABLE)]
  }

  /** The table a fresh Pseudo_Op_Table holds. */
  function Loaded(): map<string, Info>
  {
    Load(map[])
  }

  /** Directive(i) is stored with i; only .FILL has length one, only .BLKW and .STRZ are variable. */
  predicate StoredAsLoaded(i: Ins)
  {
    Directive(i) in Loaded() &&
    Loaded()[Directive(i)] ==
      Info(i, if i == FILL then ONE else ZERO, if i == BLKW || i == STRZ then VARIABLE else DEFINITE)
  }

  lemma LoadedGroup1()
    ensures StoredAsLoaded(ORIG) && StoredAsLoaded(EQU) && StoredAsLoaded(END) && StoredAsLoaded(ENT)
  {
  }

  lemma LoadedGroup2()
    ensures StoredAsLoaded(EXT) && StoredAsLoaded(FILL) && StoredAsLoaded(BLKW) && StoredAsLoaded(STRZ)
  {
  }

  lemma LoadedEntries()
    ensures forall i: Ins :: StoredAsLoaded(i)
  {
    LoadedGroup1();
    LoadedGroup2();
    forall i: Ins ensures StoredAsLoaded(i) {
      match i
      case ORIG => case EQU => case END => case ENT => case EXT => case FILL => case BLKW =>
      case STRZ =>
    }
  }

  /** Every key of the loaded table is one of the eight directives. */
  lemma LoadedKeys()
    ensures forall k | k in Loaded() :: IsDirective(k)
  {
    assert Loaded().Keys == {".ORIG", ".EQU", ".END", ".ENT", ".EXT", ".FILL", ".BLKW", ".STRZ"};
    forall k | k in Loaded() ensures IsDirective(k) {
      if k == ".ORIG" { assert k == Directive(ORIG); }
      else if k == ".EQU" { assert k == Directive(EQU); }
      else if k == ".END" { assert k == Directive(END); }
      else if k == ".ENT" { assert k == Directive(ENT); }
      else if k == ".EXT" { assert k == Directive(EXT); }
      else if k == ".FILL" { assert k == Directive(FILL); }
      else if k == ".BLKW" { assert k == Directive(BLKW); }
      else { assert k == Directive(STRZ); }
    }
  }

  /** No two directives share a name. */
  lemma DirectivesDistinct()
    ensures forall i: Ins, j: Ins :: Directive(i) == Directive(j) ==> i == j
  {
    forall i: Ins, j: Ins | Directive(i) == Directive(j) ensures i == j {
      assert Directive(i)[1..] == Directive(j)[1..];
    }
  }

  /** What each key of the loaded table is stored with. */
  lemma LoadedByKey()
    ensures forall k | k in Loaded() :: Directive(Loaded()[k].ins) == k
    ensures forall k | k in Loaded() :: Loaded()[k].length == (if k == ".FILL" then ONE else ZERO)
    ensures forall k | k in Loaded() ::
      Loaded()[k].format == (if k == ".BLKW" || k == ".STRZ" then VARIABLE else DEFINITE)
  {
    LoadedEntries();
    LoadedKeys();
    forall k | k in Loaded()
      ensures Directive(Loaded()[k].ins) == k
      ensures Loaded()[k].length == (if k == ".FILL" then ONE else ZERO)
      ensures Loaded()[k].format == (if k == ".BLKW" || k == ".STRZ" then VARIABLE else DEFINITE)
    {
      var i :| Directive(i) == k;
      assert StoredAsLoaded(i);
      assert i == FILL <==> k == ".FILL";
      assert (i == BLKW || i == STRZ) <==> (k == ".BLKW" || k == ".STRZ");
    }
  }

  /**
   * The loaded table is exactly the eight directives, distinct and each stored with its own enum constant;
   * only .FILL has length one, and only .BLKW and .STRZ have a variable length.
   */
  lemma LoadedTable()
    ensures forall k | k in Loaded() :: Directive(Loaded()[k].ins) == k
    ensures forall i: Ins :: Directive(i) in Loaded() && Loaded()[Directive(i)].ins == i
    ensures forall k :: k in Loaded() <==> IsDirective(k)
    ensures forall i: Ins, j: Ins :: Directive(i) == Directive(j) ==> i == j
    ensures forall k | k in Loaded() :: Loaded()[k].length == (if k == ".FILL" then ONE else ZERO)
    ensures forall k | k in Loaded() ::
      Loaded()[k].format == (if k == ".BLKW" || k == ".STRZ" then VARIABLE else DEFINITE)
  {
    LoadedEntries();
    LoadedKeys();
    DirectivesDistinct();
    LoadedByKey();
  }

  /**
   * blockLength: the `.BLKW` operand's word count, or -1 when the operand does not parse or
   * parseAddress does not give a positive value.
   */
  function BlockLength(str: string): (r: int)
    ensures r == INVALID || 1 <= r <= 65535
    ensures r >= 1 <==> CanParseInt(str) && ParseAddress(str).Ok? && ParseAddress(str).value >= 1
    ensures r >= 1 ==> r == ParseAddress(str).value
  {
    if !CanParseInt(str) then INVALID
    else
      CanParseIntMeaning(str);
      match ParseAddress(str)
      case Err(_) => assert false; INVALID
      case Ok(val) => if val < ONE then INVALID else val
  }

  /** A `#` or `x` block length is accepted exactly when it lies in [1, 65535]. */
  lemma BlockLengthRoundTrip(v: int)
    requires IsInt32(v)
    ensures BlockLength("#" + DecString(v)) == if 1 <= v <= 65535 then v else INVALID
    ensures v >= 0 ==> BlockLength("x" + ToHexString(v)) == if 1 <= v <= 65535 then v else INVALID
  {
    AddressRoundTrip(v);
    var d := "#" + DecString(v);
    ParseDecString(v);
    assert d[1..] == DecString(v);
    if v >= 0 {
      var h := "x" + ToHexString(v);
      ParseHexString(v);
      assert h[1..] == ToHexString(v);
    }
  }

  class PseudoOpTable {
    var table: map<string, Info>

    predicate Valid()
      reads this
    {
      table == Loaded()
    }

    constructor()
      ensures Valid()
    {
      table := map[];
      new;
      LoadTable();
    }

    /** loadTable: eight puts, each replacing an entry already under its key. */
    method LoadTable()
      modifies this
      ensures table == Load(old(table))
    {
      table := table[".ORIG" := Info(ORIG, ZERO, DEFINITE)];
      table := table[".EQU" := Info(EQU, ZERO, DEFINITE)];
      table := table[".END" := Info(END, ZERO, DEFINITE)];
      table := table[".ENT" := Info(ENT, ZERO, DEFINITE)];
      table := table[".EXT" := Info(EXT, ZERO, DEFINITE)];
      table := table[".FILL" := Info(FILL, ONE, DEFINITE)];
      table := table[".BLKW" := Info(BLKW, ZERO, VARIABLE)];
      table := table[".STRZ" := Info(STRZ, ZERO, VARIABLE)];
    }

    /** containsOp: exactly the eight directives. */
    function ContainsOp(key: string): (r: bool)
      reads this
      ensures Valid() ==> (r <==> IsDirective(key))
    {
      LoadedTable();
      key in table
    }

    /** getInstructionName: the enum constant the directive names, or None (Java's null). */
    function GetInstructionName(key: string): (r: Option<Ins>)
      reads this
      ensures Valid() ==> (r.Some? <==> IsDirective(key))
      ensures Valid() && r.Some? ==> Directive(r.value) == key
    {
      LoadedTable();
      if key !in table then None else Some(table[key].ins)
    }

    /** getLength: 1 for .FILL, 0 for the other directives, -1 for anything else. */
    function GetLength(key: string): (r: int)
      reads this
      ensures Valid() ==> r == (if key == ".FILL" then ONE else if IsDirective(key) then ZERO else INVALID)
    {
      LoadedTable();
      if key !in table then INVALID else table[key].length
    }

    /** getFormat: VARIABLE for .BLKW and .STRZ, DEFINITE for the rest, None for anything else. */
    function GetFormat(key: string): (r: Option<Format>)
      reads this
      ensures Valid() ==> (r.Some? <==> IsDirective(key))
      ensures Valid() && r.Some? ==> r.value == if key == ".BLKW" || key == ".STRZ" then VARIABLE else DEFINITE
    {
      LoadedTable();
      if key !in table then None else Some(table[key].format)
    }
  }
}
