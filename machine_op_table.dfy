/**
 * Machine_Op_Table: the assembler's table of the 25 machine mnemonics (16 opcodes, with the
 * branch, jump and subroutine variants sharing theirs), each with its opcode and word size.
 */
module MachineOpTable {
  import opened Wrappers

  const BRX_OPCODE: int := 0
  const ADD_OPCODE: int := 1
  const LD_OPCODE: int := 2
  const ST_OPCODE: int := 3
  const JSR_OPCODE: int := 4
  const AND_OPCODE: int := 5
  const LDR_OPCODE: int := 6
  const STR_OPCODE: int := 7
  const DBUG_OPCODE: int := 8
  const NOT_OPCODE: int := 9
  const LDI_OPCODE: int := 10
  const STI_OPCODE: int := 11
  const JSRR_OPCODE: int := 12
  const RET_OPCODE: int := 13
  const LEA_OPCODE: int := 14
  const TRAP_OPCODE: int := 15

  const ONE: int := 1
  const INVALID: int := -1

  /** Machine_Op_Ins_Enum. */
  datatype Ins =
    | ADD | AND | BR | BRN | BRZ | BRP | BRNZ | BRNP | BRZP | BRNZP | DBUG | JSR | JMP | JSRR | JMPR
    | LD | LDI | LDR | LEA | NOT | RET | ST | STI | STR | TRAP

  /** Machine_Op_Info. */
  datatype Info = Info(ins: Ins, opcode: int, size: int)

  /** The 25 keys loadTable puts. */
  const MNEMONICS: set<string> := {"ADD", "AND", "NOT", "LD", "LDI", "LDR", "LEA", "ST", "STI", "STR",
      "BR", "BRN", "BRZ", "BRP", "BRNZ", "BRNP", "BRZP", "BRNZP", "JSR", "JMP", "JSRR", "JMPR",
      "RET", "TRAP", "DBUG"}

  /** The name of an enum constant, as Java's Enum.name() spells it. */
  function Name(i: Ins): string
  {
    match i
    case ADD => "ADD" case AND => "AND" case BR => "BR" case BRN => "BRN" case BRZ => "BRZ"
    case BRP => "BRP" case BRNZ => "BRNZ" case BRNP => "BRNP" case BRZP => "BRZP"
    case BRNZP => "BRNZP" case DBUG => "DBUG" case JSR => "JSR" case JMP => "JMP"
    case JSRR => "JSRR" case JMPR => "JMPR" case LD => "LD" case LDI => "LDI" case LDR => "LDR"
    case LEA => "LEA" case NOT => "NOT" case RET => "RET" case ST => "ST" case STI => "STI"
    case STR => "STR" case TRAP => "TRAP"
  }

  /** The key is the name of some instruction. */
  predicate IsMnemonic(key: string)
  {
    exists i: Ins :: Name(i) == key
  }

  /** The opcode constant each instruction is loaded with. */
  function Opcode(i: Ins): (r: int)
    ensures 0 <= r <= 15
  {
    match i
    case ADD => ADD_OPCODE case AND => AND_OPCODE case NOT => NOT_OPCODE
    case LD => LD_OPCODE case LDI => LDI_OPCODE case LDR => LDR_OPCODE case LEA => LEA_OPCODE
    case ST => ST_OPCODE case STI => STI_OPCODE case STR => STR_OPCODE
    case BR => BRX_OPCODE case BRN => BRX_OPCODE case BRZ => BRX_OPCODE case BRP => BRX_OPCODE
    case BRNZ => BRX_OPCODE case BRNP => BRX_OPCODE case BRZP => BRX_OPCODE case BRNZP => BRX_OPCODE
    case JSR => JSR_OPCODE case JMP => JSR_OPCODE case JSRR => JSRR_OPCODE case JMPR => JSRR_OPCODE
    case RET => RET_OPCODE case TRAP => TRAP_OPCODE case DBUG => DBUG_OPCODE
  }

  /** The table after loadTable's 25 puts into m, in the source's order. */
  function Load(m: map<string, Info>): map<string, Info>
  {
    m["ADD" := Info(ADD, ADD_OPCODE, ONE)]["AND" := Info(AND, AND_OPCODE, ONE)]
     ["NOT" := Info(NOT, NOT_OPCODE, ONE)]
     ["LD" := Info(LD, LD_OPCODE, ONE)]["LDI" := Info(LDI, LDI_OPCODE, ONE)]
     ["LDR" := Info(LDR, LDR_OPCODE, ONE)]["LEA" := Info(LEA, LEA_OPCODE, ONE)]
     ["ST" := Info(ST, ST_OPCODE, ONE)]["STI" := Info(STI, STI_OPCODE, ONE)]
     ["STR" := Info(STR, STR_OPCODE, ONE)]
     ["BR" := Info(BR, BRX_OPCODE, ONE)]["BRN" := Info(BRN, BRX_OPCODE, ONE)]
     ["BRZ" := Info(BRZ, BRX_OPCODE, ONE)]["BRP" := Info(BRP, BRX_OPCODE, ONE)]
     ["BRNZ" := Info(BRNZ, BRX_OPCODE, ONE)]["BRNP" := Info(BRNP, BRX_OPCODE, ONE)]
     ["BRZP" := Info(BRZP, BRX_OPCODE, ONE)]["BRNZP" := Info(BRNZP, BRX_OPCODE, ONE)]
     ["JSR" := Info(JSR, JSR_OPCODE, ONE)]["JMP" := Info(JMP, JSR_OPCODE, ONE)]
     ["JSRR" := Info(JSRR, JSRR_OPCODE, ONE)]["JMPR" := Info(JMPR, JSRR_OPCODE, ONE)]
     ["RET" := Info(RET, RET_OPCODE, ONE)]["TRAP" := Info(TRAP, TRAP_OPCODE, ONE)]
     ["DBUG" := Info(DBUG, DBUG_OPCODE, ONE)]
  }

  /** The table a fresh Machine_Op_Table holds. */
  function Loaded(): map<string, Info>
  {
    Load(map[])
  }

  /** Name(i) is stored with i, its opcode and size one. */
  predicate StoredAsLoaded(i: Ins)
  {
    Name(i) in Loaded() && Loaded()[Name(i)] == Info(i, Opcode(i), ONE)
  }

  /** Every enum constant is stored under its own name, with its opcode and size one. */
  lemma LoadedEntries()
    ensures forall i: Ins :: StoredAsLoaded(i)
  {
    LoadedGroup1();
    LoadedGroup2();
    LoadedGroup3();
    LoadedGroup4();
    LoadedGroup5();
    LoadedGroup6();
    LoadedGroup7();
    LoadedGroup8();
    LoadedGroup9();
    forall i: Ins ensures StoredAsLoaded(i) {
      match i
      case ADD => case AND => case BR => case BRN => case BRZ => case BRP => case BRNZ =>
      case BRNP => case BRZP => case BRNZP => case DBUG => case JSR => case JMP => case JSRR =>
      case JMPR => case LD => case LDI => case LDR => case LEA => case NOT => case RET =>
      case ST => case STI => case STR => case TRAP =>
    }
  }

  lemma LoadedGroup1()
    ensures StoredAsLoaded(ADD) && StoredAsLoaded(AND) && StoredAsLoaded(NOT)
  {
  }

  lemma LoadedGroup2()
    ensures StoredAsLoaded(LD) && StoredAsLoaded(LDI) && StoredAsLoaded(LDR)
  {
  }

  lemma LoadedGroup3()
    ensures StoredAsLoaded(LEA) && StoredAsLoaded(ST) && StoredAsLoaded(STI)
  {
  }

  lemma LoadedGroup4()
    ensures StoredAsLoaded(STR) && StoredAsLoaded(BR) && StoredAsLoaded(BRN)
  {
  }

  lemma LoadedGroup5()
    ensures StoredAsLoaded(BRZ) && StoredAsLoaded(BRP) && StoredAsLoaded(BRNZ)
  {
  }

  lemma LoadedGroup6()
    ensures StoredAsLoaded(BRNP) && StoredAsLoaded(BRZP) && StoredAsLoaded(BRNZP)
  {
  }

  lemma LoadedGroup7()
    ensures StoredAsLoaded(JSR) && StoredAsLoaded(JMP) && StoredAsLoaded(JSRR)
  {
  }

  lemma LoadedGroup8()
    ensures StoredAsLoaded(JMPR) && StoredAsLoaded(RET) && StoredAsLoaded(TRAP)
  {
  }

  lemma LoadedGroup9()
    ensures StoredAsLoaded(DBUG)
  {
  }

  /** The keys are the 25 mnemonics. */
  lemma LoadedKeys()
    ensures Loaded().Keys == MNEMONICS
  {
  }

  /**
   * The loaded table is exactly the instruction set: the keys are the names of the 25 enum
   * constants, no two constants share a name, and each key is stored with the constant of
   * that name, size one and a 4-bit opcode.
   */
  lemma LoadedTable()
    ensures forall k :: k in Loaded() <==> IsMnemonic(k)
    ensures forall k | k in Loaded() :: Name(Loaded()[k].ins) == k
    ensures forall k | k in Loaded() :: Loaded()[k].size == ONE && 0 <= Loaded()[k].opcode <= 15
  {
    LoadedEntries();
    forall k | k in Loaded()
      ensures IsMnemonic(k) && Name(Loaded()[k].ins) == k
      ensures Loaded()[k].size == ONE && 0 <= Loaded()[k].opcode <= 15
    {
      assert k in MNEMONICS by { LoadedKeys(); }
      var i: Ins :| k == Name(i) by { KeysAreNames(); }
      assert StoredAsLoaded(i);
    }
  }

  /** Every key is the name of an enum constant. */
  lemma KeysAreNames()
    ensures forall k | k in MNEMONICS :: exists i: Ins :: k == Name(i)
  {
    forall k | k in MNEMONICS ensures exists i: Ins :: k == Name(i) {
      if k == "ADD" { assert k == Name(ADD); }
      else if k == "AND" { assert k == Name(AND); }
      else if k == "NOT" { assert k == Name(NOT); }
      else if k == "LD" { assert k == Name(LD); }
      else if k == "LDI" { assert k == Name(LDI); }
      else if k == "LDR" { assert k == Name(LDR); }
      else if k == "LEA" { assert k == Name(LEA); }
      else if k == "ST" { assert k == Name(ST); }
      else if k == "STI" { assert k == Name(STI); }
      else if k == "STR" { assert k == Name(STR); }
      else if k == "BR" { assert k == Name(BR); }
      else if k == "BRN" { assert k == Name(BRN); }
      else if k == "BRZ" { assert k == Name(BRZ); }
      else if k == "BRP" { assert k == Name(BRP); }
      else if k == "BRNZ" { assert k == Name(BRNZ); }
      else if k == "BRNP" { assert k == Name(BRNP); }
      else if k == "BRZP" { assert k == Name(BRZP); }
      else if k == "BRNZP" { assert k == Name(BRNZP); }
      else if k == "JSR" { assert k == Name(JSR); }
      else if k == "JMP" { assert k == Name(JMP); }
      else if k == "JSRR" { assert k == Name(JSRR); }
      else if k == "JMPR" { assert k == Name(JMPR); }
      else if k == "RET" { assert k == Name(RET); }
      else if k == "TRAP" { assert k == Name(TRAP); }
      else if k == "DBUG" { assert k == Name(DBUG); }
    }
  }

  predicate IsBranch(i: Ins)
  {
    i in {BR, BRN, BRZ, BRP, BRNZ, BRNP, BRZP, BRNZP}
  }

  /** The instruction loaded with an opcode that no other instruction has. */
  function SoleIns(opcode: int): Option<Ins>
  {
    match opcode
    case 1 => Some(ADD) case 2 => Some(LD) case 3 => Some(ST) case 5 => Some(AND) case 6 => Some(LDR)
    case 7 => Some(STR) case 8 => Some(DBUG) case 9 => Some(NOT) case 10 => Some(LDI) case 11 => Some(STI)
    case 13 => Some(RET) case 14 => Some(LEA) case 15 => Some(TRAP) case _ => None
  }

  /**
   * The instructions that share an opcode (each is loaded with Opcode(i), see LoadedEntries):
   * exactly the eight branches have 0, JSR and JMP have 4, JSRR and JMPR have 12, and no
   * other two instructions share one.
   */
  lemma SharedOpcodes()
    ensures forall i: Ins :: Opcode(i) == BRX_OPCODE <==> IsBranch(i)
    ensures forall i: Ins :: Opcode(i) == JSR_OPCODE <==> i in {JSR, JMP}
    ensures forall i: Ins :: Opcode(i) == JSRR_OPCODE <==> i in {JSRR, JMPR}
    ensures forall i: Ins, j: Ins | i != j && Opcode(i) == Opcode(j) :: Opcode(i) in {BRX_OPCODE, JSR_OPCODE, JSRR_OPCODE}
  {
    forall i: Ins
      ensures Opcode(i) == BRX_OPCODE <==> IsBranch(i)
      ensures Opcode(i) == JSR_OPCODE <==> i in {JSR, JMP}
      ensures Opcode(i) == JSRR_OPCODE <==> i in {JSRR, JMPR}
      ensures Opcode(i) !in {BRX_OPCODE, JSR_OPCODE, JSRR_OPCODE} ==> SoleIns(Opcode(i)) == Some(i)
    {
      match i
      case ADD => case AND => case BR => case BRN => case BRZ => case BRP => case BRNZ =>
      case BRNP => case BRZP => case BRNZP => case DBUG => case JSR => case JMP => case JSRR =>
      case JMPR => case LD => case LDI => case LDR => case LEA => case NOT => case RET =>
      case ST => case STI => case STR => case TRAP =>
    }
  }

  class MachineOpTable {
    var table: map<string, Info>

    /** The table holds exactly what loadTable puts into a fresh one. */
    predicate Valid()
      reads this
    {
      table == Loaded()
    }

    constructor()
      ensures Valid()
    {
      table := map[];
      new;
      LoadTable();
    }

    /** loadTable: 25 puts, each replacing an entry already under its key. */
    method LoadTable()
      modifies this
      ensures table == Load(old(table))
    {
      table := table["ADD" := Info(ADD, ADD_OPCODE, ONE)];
      table := table["AND" := Info(AND, AND_OPCODE, ONE)];
      table := table["NOT" := Info(NOT, NOT_OPCODE, ONE)];
      table := table["LD" := Info(LD, LD_OPCODE, ONE)];
      table := table["LDI" := Info(LDI, LDI_OPCODE, ONE)];
      table := table["LDR" := Info(LDR, LDR_OPCODE, ONE)];
      table := table["LEA" := Info(LEA, LEA_OPCODE, ONE)];
      table := table["ST" := Info(ST, ST_OPCODE, ONE)];
      table := table["STI" := Info(STI, STI_OPCODE, ONE)];
      table := table["STR" := Info(STR, STR_OPCODE, ONE)];
      table := table["BR" := Info(BR, BRX_OPCODE, ONE)];
      table := table["BRN" := Info(BRN, BRX_OPCODE, ONE)];
      table := table["BRZ" := Info(BRZ, BRX_OPCODE, ONE)];
      table := table["BRP" := Info(BRP, BRX_OPCODE, ONE)];
      table := table["BRNZ" := Info(BRNZ, BRX_OPCODE, ONE)];
      table := table["BRNP" := Info(BRNP, BRX_OPCODE, ONE)];
      table := table["BRZP" := Info(BRZP, BRX_OPCODE, ONE)];
      table := table["BRNZP" := Info(BRNZP, BRX_OPCODE, ONE)];
      table := table["JSR" := Info(JSR, JSR_OPCODE, ONE)];
      table := table["JMP" := Info(JMP, JSR_OPCODE, ONE)];
      table := table["JSRR" := Info(JSRR, JSRR_OPCODE, ONE)];
      table := table["JMPR" := Info(JMPR, JSRR_OPCODE, ONE)];
      table := table["RET" := Info(RET, RET_OPCODE, ONE)];
      table := table["TRAP" := Info(TRAP, TRAP_OPCODE, ONE)];
      table := table["DBUG" := Info(DBUG, DBUG_OPCODE, ONE)];
    }

    /** getSize: one word for every instruction, -1 for anything else. */
    function GetSize(key: string): (r: int)
      reads this
      ensures Valid() ==> (IsMnemonic(key) ==> r == ONE) && (!IsMnemonic(key) ==> r == INVALID)
    {
      LoadedTable();
      if key !in table then INVALID else table[key].size
    }

    /** containsOp: exactly the 25 mnemonics. */
    function ContainsOp(key: string): (r: bool)
      reads this
      ensures Valid() ==> (r <==> IsMnemonic(key))
    {
      LoadedTable();
      key in table
    }

    /** getOpcode: a 4-bit opcode for every instruction, -1 for anything else. */
    function GetOpcode(key: string): (r: int)
      reads this
      ensures Valid() ==> (IsMnemonic(key) ==> 0 <= r <= 15) && (!IsMnemonic(key) ==> r == INVALID)
    {
      LoadedTable();
      if key !in table then INVALID else table[key].opcode
    }

    /** getInstructionName: the enum constant of the same name, or None (Java's null). */
    function GetInstructionName(key: string): (r: Option<Ins>)
      reads this
      ensures Valid() ==> (r.Some? <==> IsMnemonic(key))
      ensures Valid() && r.Some? ==> Name(r.value) == key
    {
      LoadedTable();
      if key !in table then None else Some(table[key].ins)
    }
  }
}
