/**
 * The simulated machine: a PC with the previous PC, three condition flags N, Z, P, eight
 * 16-bit registers and 128 pages of 512 16-bit words. Every instruction method updates this
 * state in place; the address helpers and sign extension are pure.
 */
module SimMachine {
  import opened JavaText
  import opened JavaBits

  const CCR_SIZE: int := 3
  const REGISTER_SIZE: int := 8
  const WORD_SIZE: int := 512
  const PAGE_SIZE: int := 128
  const UPPER_LIMIT: int := 0x10000

  const MSB_FIVE_BIT: int := 0x10
  const ZERO_SIGN_EXTEND: int := 0x1F
  const ONE_SIGN_EXTEND: int := 0xFFE0
  const LOWER_BITS: int := 0xFF

  const OUT_VECT: int := 0x21
  const PUTS_VECT: int := 0x22
  const IN_VECT: int := 0x23
  const HALT_VECT: int := 0x25
  const OUTN_VECT: int := 0x31
  const INN_VECT: int := 0x33
  const RND_VECT: int := 0x43

  /** Java's short. */
  type Short = x: int | -0x8000 <= x < 0x8000

  /** The cast `(short) x`: the value with the same low 16 bits, read as two's complement. */
  function ToShort(x: int): (r: Short)
    ensures (r - x) % UPPER_LIMIT == 0
    ensures -0x8000 <= x < 0x8000 ==> r == x
  {
    (x + 0x8000) % UPPER_LIMIT - 0x8000
  }

  /** Short.toUnsignedInt: the 16-bit pattern read as an unsigned number. */
  function ToUnsigned(s: Short): (r: int)
    ensures 0 <= r < UPPER_LIMIT && (r - s) % UPPER_LIMIT == 0
  {
    if s < 0 then s + UPPER_LIMIT else s
  }

  /** The two readings of a 16-bit pattern convert into each other. */
  lemma ShortRoundTrip(s: Short, u: int)
    requires 0 <= u < UPPER_LIMIT
    ensures ToShort(ToUnsigned(s)) == s
    ensures ToUnsigned(ToShort(u)) == u
  {
  }

  /**
   * `(short) (a & b)` on two sign-extended shorts: the cast keeps the low 16 bits, which are
   * the and of the two 16-bit patterns.
   */
  function AndShort(a: Short, b: Short): Short
  {
    ToShort(BitAnd(ToUnsigned(a), ToUnsigned(b), 16))
  }

  /** All ones is the identity of `(short) (a & b)`. */
  lemma AndShortOnes(a: Short)
    ensures AndShort(a, -1) == a
  {
    var x := ToUnsigned(a);
    var k: nat := 16;
    var p := Pow(2, k);
    assert p == UPPER_LIMIT by { TwoTo16(); }
    assert x % p == x;
    assert ToUnsigned(-1) == p - 1;
    BitAndCommutes(x, p - 1, k);
    BitAndLowMask(x, k, k);
  }

  /** Zero absorbs `(short) (a & b)`. */
  lemma AndShortZero(a: Short)
    ensures AndShort(a, 0) == 0
  {
    var k: nat := 16;
    BitAndCommutes(ToUnsigned(a), 0, k);
    BitAndZero(ToUnsigned(a), k);
  }

  /** `(short) ~x`: Java's `~x` on an int is `-x - 1`. */
  function NotShort(a: Short): (r: Short)
    ensures r as int == -(a as int) - 1
  {
    ToShort(-(a as int) - 1)
  }

  /** getMemoryPageLocation. */
  function PageOf(address: int): int
  {
    JavaRem(JavaDiv(address, WORD_SIZE), PAGE_SIZE)
  }

  /** getMemoryWordLocation. */
  function WordOf(address: int): int
  {
    JavaRem(address, WORD_SIZE)
  }

  /**
   * Every 16-bit address names a cell of memory, and the address is recovered from the cell,
   * so distinct addresses name distinct cells.
   */
  lemma CellOfAddress(a: int)
    requires 0 <= a < UPPER_LIMIT
    ensures 0 <= PageOf(a) < PAGE_SIZE && 0 <= WordOf(a) < WORD_SIZE
    ensures a == PageOf(a) * WORD_SIZE + WordOf(a)
  {
  }

  lemma CellsDistinct(a: int, b: int)
    requires 0 <= a < UPPER_LIMIT && 0 <= b < UPPER_LIMIT
    ensures PageOf(a) == PageOf(b) && WordOf(a) == WordOf(b) ==> a == b
  {
    CellOfAddress(a);
    CellOfAddress(b);
  }

  /**
   * getAddressPC: PC's upper seven bits (`(pc >> 9) << 9`) plus the page offset, modulo 0x10000;
   * the result lies on PC's page at the given offset.
   */
  function AddressPC(pc: int, offset: int): (r: int)
    requires 0 <= pc < UPPER_LIMIT && 0 <= offset < WORD_SIZE
    ensures 0 <= r < UPPER_LIMIT
    ensures r / WORD_SIZE == pc / WORD_SIZE && r % WORD_SIZE == offset
  {
    var upperHalf := pc / WORD_SIZE;
    (upperHalf * WORD_SIZE + offset) % UPPER_LIMIT
  }

  /** getAddressReg: the unsigned register value plus the index, modulo 0x10000. */
  function AddressReg(rval: Short, index: int): (r: int)
    requires 0 <= index
    ensures 0 <= r < UPPER_LIMIT && (r - rval - index) % UPPER_LIMIT == 0
  {
    (ToUnsigned(rval) + index) % UPPER_LIMIT
  }

  /**
   * signExtend: a 5-bit field as two's complement, in [-16, 15]; the field is the low five
   * bits of the result.
   */
  function SignExtend(imm5: int): (r: Short)
    requires 0 <= imm5 < 32
    ensures r == if imm5 < 16 then imm5 else imm5 - 32
    ensures -16 <= r <= 15 && (r - imm5) % 32 == 0
  {
    var msb := BitAnd(MSB_FIVE_BIT, imm5, 16);
    FiveBitMasks(imm5);
    ShortOfHighHalf(ONE_SIGN_EXTEND + imm5);
    var r: Short :=
      if msb == 0 then ToShort(BitAnd(ZERO_SIGN_EXTEND, imm5, 16)) else ToShort(BitOr(ONE_SIGN_EXTEND, imm5, 16));
    FiveBitResidue(imm5, r);
    r
  }

  /** A five-bit field read as two's complement differs from the field by a multiple of 32. */
  lemma FiveBitResidue(imm5: int, r: int)
    requires 0 <= imm5 < 32 && r == if imm5 < 16 then imm5 else imm5 - 32
    ensures (r - imm5) % 32 == 0
  {
  }

  /** The cast of a value with bit 15 set (and nothing above) subtracts 0x10000. */
  lemma ShortOfHighHalf(x: int)
    requires 0x8000 <= x < UPPER_LIMIT
    ensures ToShort(x) == x - UPPER_LIMIT
  {
    assert x + 0x8000 == UPPER_LIMIT + (x - 0x8000);
  }

  /** The three masks signExtend applies to a five-bit field. */
  lemma FiveBitMasks(imm5: int)
    requires 0 <= imm5 < 32
    ensures BitAnd(MSB_FIVE_BIT, imm5, 16) == 0 <==> imm5 < 16
    ensures BitAnd(ZERO_SIGN_EXTEND, imm5, 16) == imm5
    ensures BitOr(ONE_SIGN_EXTEND, imm5, 16) == ONE_SIGN_EXTEND + imm5
  {
    MsbMask(imm5, MSB_FIVE_BIT);
    LowFiveMask(imm5, ZERO_SIGN_EXTEND);
    HighOnesMask(imm5, ONE_SIGN_EXTEND);
  }

  lemma MsbMask(imm5: nat, mask: nat)
    requires imm5 < 32 && mask == MSB_FIVE_BIT
    ensures BitAnd(mask, imm5, 16) == 0 <==> imm5 < 16
  {
    var bit := (imm5 / 16) % 2;
    assert bit == if imm5 < 16 then 0 else 1;
    assert BitAnd(mask, imm5, 16) == 16 * bit by {
      TwoTo4();
      BitAndSingleBit(imm5, 4, 16);
    }
  }

  lemma LowFiveMask(imm5: nat, mask: nat)
    requires imm5 < 32 && mask == ZERO_SIGN_EXTEND
    ensures BitAnd(mask, imm5, 16) == imm5
  {
    var p := Pow(2, 5);
    assert p == 32 by { TwoTo5(); }
    assert imm5 % p == imm5;
    assert p - 1 == mask;
    BitAndLowMask(imm5, 5, 16);
  }

  lemma HighOnesMask(imm5: nat, mask: nat)
    requires imm5 < 32 && mask == ONE_SIGN_EXTEND
    ensures BitOr(mask, imm5, 16) == mask + imm5
  {
    var p := Pow(2, 5);
    var w := Pow(2, 16);
    assert p == 32 by { TwoTo5(); }
    assert w == 0x10000 by { TwoTo16(); }
    assert mask % p == 0 && imm5 < p;
    assert (mask + imm5) % w == mask + imm5;
    BitOrDisjoint(mask, imm5, 5, 16);
  }

  /** Sign extension undoes the assembler's five-bit encoding of an immediate in [-16, 15]. */
  lemma SignExtendOfEncoded(v: int)
    requires -16 <= v <= 15
    ensures SignExtend(v % 32) == v
  {
    var f := v % 32;
    assert f == if v >= 0 then v else v + 32;
  }

  /** The flags updateCCR leaves for a stored value: N, Z and P. */
  function Flags(num: Short): (r: seq<bool>)
    ensures |r| == CCR_SIZE
  {
    [num < 0, num == 0, num > 0]
  }

  /** Exactly one of N, Z, P is set, and it is the one for the value's sign. */
  lemma ExactlyOneFlag(num: Short)
    ensures Flags(num)[0] <==> !Flags(num)[1] && !Flags(num)[2] && num < 0
    ensures Flags(num)[1] <==> !Flags(num)[0] && !Flags(num)[2] && num == 0
    ensures Flags(num)[2] <==> !Flags(num)[0] && !Flags(num)[1] && num > 0
    ensures Flags(num)[0] || Flags(num)[1] || Flags(num)[2]
  {
  }

  class Machine {
    var name: string
    var pc: int
    var prevPc: int
    const ccr: array<bool>
    const registers: array<Short>
    const memory: array2<Short>

    /** The sizes createNewRep allocates, and a PC that is a 16-bit address. */
    predicate Valid()
      reads this
    {
      ccr.Length == CCR_SIZE && registers.Length == REGISTER_SIZE &&
      memory.Length0 == PAGE_SIZE && memory.Length1 == WORD_SIZE &&
      0 <= pc < UPPER_LIMIT && 0 <= prevPc < UPPER_LIMIT
    }

    /** createNewRep: all flags clear, all registers and memory zero, PC zero. */
    constructor(name: string)
      ensures Valid() && this.name == name && pc == 0 && prevPc == 0
      ensures ccr[..] == [false, false, false]
      ensures forall i | 0 <= i < REGISTER_SIZE :: registers[i] == 0
      ensures forall p, w | 0 <= p < PAGE_SIZE && 0 <= w < WORD_SIZE :: memory[p, w] == 0
      ensures fresh(ccr) && fresh(registers) && fresh(memory)
    {
      this.name := name;
      pc := 0;
      prevPc := 0;
      ccr := new bool[CCR_SIZE];
      registers := new Short[REGISTER_SIZE];
      memory := new Short[PAGE_SIZE, WORD_SIZE];
      new;
      var i := 0;
      while i < CCR_SIZE
        invariant 0 <= i <= CCR_SIZE
        invariant Valid() && this.name == name && pc == 0 && prevPc == 0
        invariant forall k | 0 <= k < i :: !ccr[k]
      {
        ccr[i] := false;
        i := i + 1;
      }
      i := 0;
      while i < REGISTER_SIZE
        invariant 0 <= i <= REGISTER_SIZE
        invariant Valid() && this.name == name && pc == 0 && prevPc == 0
        invariant ccr[..] == [false, false, false]
        invariant forall k | 0 <= k < i :: registers[k] == 0
      {
        registers[i] := 0;
        i := i + 1;
      }
      i := 0;
      while i < PAGE_SIZE
        invariant 0 <= i <= PAGE_SIZE
        invariant Valid() && this.name == name && pc == 0 && prevPc == 0
        invariant ccr[..] == [false, false, false]
        invariant forall k | 0 <= k < REGISTER_SIZE :: registers[k] == 0
        invariant forall p, w | 0 <= p < i && 0 <= w < WORD_SIZE :: memory[p, w] == 0
      {
        var j := 0;
        while j < WORD_SIZE
          invariant 0 <= j <= WORD_SIZE
          invariant Valid() && this.name == name && pc == 0 && prevPc == 0
          invariant ccr[..] == [false, false, false]
          invariant forall k | 0 <= k < REGISTER_SIZE :: registers[k] == 0
          invariant forall p, w | 0 <= p < i && 0 <= w < WORD_SIZE :: memory[p, w] == 0
          invariant forall w | 0 <= w < j :: memory[i, w] == 0
        {
          memory[i, j] := 0;
          j := j + 1;
        }
        i := i + 1;
      }
    }

    /** The word at a 16-bit address. */
    function Cell(address: int): Short
      reads this, memory
      requires Valid() && 0 <= address < UPPER_LIMIT
    {
      CellOfAddress(address);
      memory[PageOf(address), WordOf(address)]
    }

    /** getPC: returns the current PC, which becomes prev_pc, and advances PC modulo 0x10000. */
    method GetPc() returns (r: int)
      requires Valid()
      modifies this
      ensures Valid() && r == old(pc) && prevPc == old(pc) && pc == (old(pc) + 1) % UPPER_LIMIT
      ensures name == old(name)
    {
      prevPc := pc;
      pc := (pc + 1) % UPPER_LIMIT;
      r := prevPc;
    }

    /** setPC: PC := start modulo 0x10000. */
    method SetPc(start: int)
      requires Valid() && start >= 0
      modifies this
      ensures Valid() && pc == start % UPPER_LIMIT
      ensures prevPc == old(prevPc) && name == old(name)
    {
      pc := start % UPPER_LIMIT;
    }

    /** updateCCR: exactly the flag for the sign of num is set. */
    method UpdateCcr(num: Short)
      requires Valid()
      modifies ccr
      ensures ccr[..] == Flags(num)
    {
      if num < 0 {
        ccr[0] := true;
        ccr[1] := false;
        ccr[2] := false;
      } else if num == 0 {
        ccr[1] := true;
        ccr[0] := false;
        ccr[2] := false;
      } else {
        ccr[2] := true;
        ccr[0] := false;
        ccr[1] := false;
      }
    }

    /** Writes result to DR and sets the flags from it: the common tail of the ALU and load methods. */
    method WriteResult(dr: int, result: Short)
      requires Valid() && 0 <= dr < REGISTER_SIZE
      modifies registers, ccr
      ensures registers[..] == old(registers[..])[dr := result]
      ensures ccr[..] == Flags(result)
    {
      registers[dr] := result;
      UpdateCcr(result);
    }

    /** ADD_REG: DR := (short) (SR1 + SR2). */
    method AddReg(dr: int, sr1: int, sr2: int)
      requires Valid() && 0 <= dr < REGISTER_SIZE && 0 <= sr1 < REGISTER_SIZE && 0 <= sr2 < REGISTER_SIZE
      modifies registers, ccr
      ensures registers[..] == old(registers[..])[dr := ToShort(old(registers[sr1]) as int + old(registers[sr2]) as int)]
      ensures ccr[..] == Flags(registers[dr])
    {
      var result := ToShort(registers[sr1] as int + registers[sr2] as int);
      WriteResult(dr, result);
    }

    /** ADD_IMM: DR := (short) (SR + signExtend(imm5)). */
    method AddImm(dr: int, sr: int, imm5: int)
      requires Valid() && 0 <= dr < REGISTER_SIZE && 0 <= sr < REGISTER_SIZE && 0 <= imm5 < 32
      modifies registers, ccr
      ensures registers[..] == old(registers[..])[dr := ToShort(old(registers[sr]) as int + SignExtend(imm5) as int)]
      ensures ccr[..] == Flags(registers[dr])
    {
      var immediate := SignExtend(imm5);
      var result := ToShort(registers[sr] as int + immediate as int);
      WriteResult(dr, result);
    }

    /** AND_REG: DR := SR1 & SR2. */
    method AndReg(dr: int, sr1: int, sr2: int)
      requires Valid() && 0 <= dr < REGISTER_SIZE && 0 <= sr1 < REGISTER_SIZE && 0 <= sr2 < REGISTER_SIZE
      modifies registers, ccr
      ensures registers[..] == old(registers[..])[dr := AndShort(old(registers[sr1]), old(registers[sr2]))]
      ensures ccr[..] == Flags(registers[dr])
    {
      var result := AndShort(registers[sr1], registers[sr2]);
      WriteResult(dr, result);
    }

    /** AND_IMM: DR := SR & signExtend(imm5). */
    method AndImm(dr: int, sr: int, imm5: int)
      requires Valid() && 0 <= dr < REGISTER_SIZE && 0 <= sr < REGISTER_SIZE && 0 <= imm5 < 32
      modifies registers, ccr
      ensures registers[..] == old(registers[..])[dr := AndShort(old(registers[sr]), SignExtend(imm5))]
      ensures ccr[..] == Flags(registers[dr])
    {
      var immediate := SignExtend(imm5);
      var result := AndShort(registers[sr], immediate);
      WriteResult(dr, result);
    }

    /** NOT: DR := ~SR. */
    method Not(dr: int, sr: int)
      requires Valid() && 0 <= dr < REGISTER_SIZE && 0 <= sr < REGISTER_SIZE
      modifies registers, ccr
      ensures registers[..] == old(registers[..])[dr := NotShort(old(registers[sr]))]
      ensures ccr[..] == Flags(registers[dr])
    {
      var result := NotShort(registers[sr]);
      WriteResult(dr, result);
    }

    /** The branch condition: some flag selected by n, z, p is set. */
    predicate BranchTaken(n: int, z: int, p: int)
      reads this, ccr
      requires Valid()
    {
      (n == 1 && ccr[0]) || (z == 1 && ccr[1]) || (p == 1 && ccr[2])
    }

    /** BRx: PC moves to the offset on its page exactly when a selected flag is set. */
    method Brx(n: int, z: int, p: int, pgoffset9: int)
      requires Valid() && 0 <= pgoffset9 < WORD_SIZE
      modifies this
      ensures Valid() && prevPc == old(prevPc) && name == old(name)
      ensures pc == if old(BranchTaken(n, z, p)) then AddressPC(old(pc), pgoffset9) else old(pc)
    {
      var check := (n == 1 && ccr[0]) || (z == 1 && ccr[1]) || (p == 1 && ccr[2]);
      if check {
        var address := AddressPC(pc, pgoffset9);
        pc := address;
      }
    }

    /** savePC: R7 := (short) PC. */
    method SavePc()
      requires Valid()
      modifies registers
      ensures registers[..] == old(registers[..])[7 := ToShort(pc)]
    {
      registers[7] := ToShort(pc);
    }

    /** JSR: PC := the offset on PC's page; R7 := the old PC when L is 1. */
    method Jsr(l: int, pgoffset9: int)
      requires Valid() && 0 <= pgoffset9 < WORD_SIZE
      modifies this, registers
      ensures Valid() && prevPc == old(prevPc) && name == old(name)
      ensures pc == AddressPC(old(pc), pgoffset9)
      ensures registers[..] == if l == 1 then old(registers[..])[7 := ToShort(old(pc))] else old(registers[..])
    {
      var address := AddressPC(pc, pgoffset9);
      if l == 1 {
        SavePc();
      }
      pc := address;
    }

    /** JSRR: PC := BaseR + index6, computed before R7 is overwritten when L is 1. */
    method Jsrr(l: int, baseR: int, index6: int)
      requires Valid() && 0 <= baseR < REGISTER_SIZE && 0 <= index6 < 64
      modifies this, registers
      ensures Valid() && prevPc == old(prevPc) && name == old(name)
      ensures pc == AddressReg(old(registers[baseR]), index6)
      ensures registers[..] == if l == 1 then old(registers[..])[7 := ToShort(old(pc))] else old(registers[..])
    {
      var address := AddressReg(registers[baseR], index6);
      if l == 1 {
        SavePc();
      }
      pc := address;
    }

    /** LD: DR := the word at the offset on PC's page. */
    method Ld(dr: int, pgoffset9: int)
      requires Valid() && 0 <= dr < REGISTER_SIZE && 0 <= pgoffset9 < WORD_SIZE
      modifies registers, ccr
      ensures registers[..] == old(registers[..])[dr := Cell(AddressPC(pc, pgoffset9))]
      ensures ccr[..] == Flags(registers[dr])
    {
      var address := AddressPC(pc, pgoffset9);
      CellOfAddress(address);
      var row := PageOf(address);
      var col := WordOf(address);
      var opAdd := memory[row, col];
      WriteResult(dr, opAdd);
    }

    /** LDI: DR := the word at the address held at the offset on PC's page. */
    method Ldi(dr: int, pgoffset9: int)
      requires Valid() && 0 <= dr < REGISTER_SIZE && 0 <= pgoffset9 < WORD_SIZE
      modifies registers, ccr
      ensures registers[..] ==
        old(registers[..])[dr := Cell(ToUnsigned(Cell(AddressPC(pc, pgoffset9))))]
      ensures ccr[..] == Flags(registers[dr])
    {
      var address := AddressPC(pc, pgoffset9);
      CellOfAddress(address);
      var newAddress := memory[PageOf(address), WordOf(address)];
      var uNewAddress := ToUnsigned(newAddress);
      CellOfAddress(uNewAddress);
      var opAddress := memory[PageOf(uNewAddress), WordOf(uNewAddress)];
      WriteResult(dr, opAddress);
    }

    /** LDR: DR := the word at BaseR + index6. */
    method Ldr(dr: int, baseR: int, index6: int)
      requires Valid() && 0 <= dr < REGISTER_SIZE && 0 <= baseR < REGISTER_SIZE && 0 <= index6 < 64
      modifies registers, ccr
      ensures registers[..] == old(registers[..])[dr := Cell(AddressReg(old(registers[baseR]), index6))]
      ensures ccr[..] == Flags(registers[dr])
    {
      var address := AddressReg(registers[baseR], index6);
      CellOfAddress(address);
      var opAdd := memory[PageOf(address), WordOf(address)];
      WriteResult(dr, opAdd);
    }

    /** LEA: DR := (short) the address at the offset on PC's page. */
    method Lea(dr: int, pgoffset9: int)
      requires Valid() && 0 <= dr < REGISTER_SIZE && 0 <= pgoffset9 < WORD_SIZE
      modifies registers, ccr
      ensures registers[..] == old(registers[..])[dr := ToShort(AddressPC(pc, pgoffset9))]
      ensures ccr[..] == Flags(registers[dr])
    {
      var address := AddressPC(pc, pgoffset9);
      WriteResult(dr, ToShort(address));
    }

    /** RET: PC := R7 read as an unsigned 16-bit address (see RetTargetAsWritten for the signed read). */
    method Ret()
      requires Valid()
      modifies this
      ensures Valid() && pc == ToUnsigned(registers[7])
      ensures prevPc == old(prevPc) && name == old(name)
    {
      pc := ToUnsigned(registers[7]);
    }

    /** Stores v at a 16-bit address; no other cell changes. */
    method Store(address: int, v: Short)
      requires Valid() && 0 <= address < UPPER_LIMIT
      modifies memory
      ensures forall p, w | 0 <= p < PAGE_SIZE && 0 <= w < WORD_SIZE ::
        memory[p, w] == if p == PageOf(address) && w == WordOf(address) then v else old(memory[p, w])
      ensures Cell(address) == v
      ensures forall a | 0 <= a < UPPER_LIMIT && a != address :: Cell(a) == old(Cell(a))
    {
      CellOfAddress(address);
      memory[PageOf(address), WordOf(address)] := v;
      forall a | 0 <= a < UPPER_LIMIT && a != address
        ensures Cell(a) == old(Cell(a))
      {
        CellOfAddress(a);
        CellsDistinct(a, address);
      }
    }

    /** ST: the word at the offset on PC's page := SR. */
    method St(sr: int, pgoffset9: int)
      requires Valid() && 0 <= sr < REGISTER_SIZE && 0 <= pgoffset9 < WORD_SIZE
      modifies memory
      ensures Cell(AddressPC(pc, pgoffset9)) == registers[sr]
      ensures forall a | 0 <= a < UPPER_LIMIT && a != AddressPC(pc, pgoffset9) :: Cell(a) == old(Cell(a))
    {
      var address := AddressPC(pc, pgoffset9);
      Store(address, registers[sr]);
    }

    /** STI: the word at the address held at the offset on PC's page := SR. */
    method Sti(sr: int, pgoffset9: int)
      requires Valid() && 0 <= sr < REGISTER_SIZE && 0 <= pgoffset9 < WORD_SIZE
      modifies memory
      ensures var target := ToUnsigned(old(Cell(AddressPC(pc, pgoffset9))));
        Cell(target) == registers[sr] &&
        forall a | 0 <= a < UPPER_LIMIT && a != target :: Cell(a) == old(Cell(a))
    {
      var address := AddressPC(pc, pgoffset9);
      CellOfAddress(address);
      var newAddress := memory[PageOf(address), WordOf(address)];
      var uNewAddress := ToUnsigned(newAddress);
      Store(uNewAddress, registers[sr]);
    }

    /** STR: the word at BaseR + index6 := SR. */
    method Str(sr: int, baseR: int, index6: int)
      requires Valid() && 0 <= sr < REGISTER_SIZE && 0 <= baseR < REGISTER_SIZE && 0 <= index6 < 64
      modifies memory
      ensures Cell(AddressReg(registers[baseR], index6)) == registers[sr]
      ensures forall a | 0 <= a < UPPER_LIMIT && a != AddressReg(registers[baseR], index6) ::
        Cell(a) == old(Cell(a))
    {
      var address := AddressReg(registers[baseR], index6);
      Store(address, registers[sr]);
    }

    /**
     * TRAP: halts exactly on vector 0x25 and always ends with R7 := (short) PC. IN keeps the low
     * eight bits of the character read, INN and RND load a short; these three set the flags
     * from R0. The console and the random source are the parameter input.
     */
    method Trap(trapvec8: int, input: Short) returns (end: bool)
      requires Valid()
      modifies registers, ccr
      ensures end <==> trapvec8 == HALT_VECT
      ensures registers[7] == ToShort(pc)
      ensures forall i | 1 <= i < 7 :: registers[i] == old(registers[i])
      ensures registers[0] == TrapR0(trapvec8, old(registers[0]), input)
      ensures trapvec8 in {IN_VECT, INN_VECT, RND_VECT} ==> ccr[..] == Flags(registers[0])
      ensures trapvec8 !in {IN_VECT, INN_VECT, RND_VECT} ==> ccr[..] == old(ccr[..])
    {
      end := false;
      if trapvec8 == IN_VECT {
        WriteResult(0, AndShort(input, LOWER_BITS));
      } else if trapvec8 == HALT_VECT {
        end := true;
      } else if trapvec8 == INN_VECT || trapvec8 == RND_VECT {
        WriteResult(0, input);
      }
      SavePc();
    }
  }

  /** R0 after a TRAP, before the R7 save: the inputs of IN, INN and RND, otherwise unchanged. */
  function TrapR0(trapvec8: int, r0: Short, input: Short): Short
  {
    if trapvec8 == IN_VECT then AndShort(input, LOWER_BITS)
    else if trapvec8 == INN_VECT || trapvec8 == RND_VECT then input
    else r0
  }

  /** IN keeps exactly the low eight bits of the character: a value in [0, 255]. */
  lemma InKeepsLowByte(c: Short)
    ensures AndShort(c, LOWER_BITS) == ToUnsigned(c) % 256
    ensures 0 <= AndShort(c, LOWER_BITS) < 256
  {
    TwoTo8();
    assert ToUnsigned(LOWER_BITS) == Pow(2, 8) - 1;
    BitAndCommutes(ToUnsigned(c), Pow(2, 8) - 1, 16);
    BitAndLowMask(ToUnsigned(c), 8, 16);
  }

  // ---------------------------------------------------------------- RET as written

  /** The source's RET: `PC = registers[7]`, the short sign-extended to an int. */
  function RetTargetAsWritten(r7: Short): int
  {
    r7
  }

  /**
   * A subroutine called from x9000 saves R7 = (short) 0x9000 = -28672; RET as written then
   * sets a negative PC, whose page index (as the next fetch computes it) is negative.
   */
  lemma RetAsWrittenLeavesMemory()
    ensures ToShort(0x9000) == -28672
    ensures RetTargetAsWritten(ToShort(0x9000)) < 0
    ensures PageOf(RetTargetAsWritten(ToShort(0x9000))) < 0
  {
  }

  /** RET as modelled returns to the saved address for every 16-bit PC. */
  lemma RetReturnsToSavedPc(pc: int)
    requires 0 <= pc < UPPER_LIMIT
    ensures ToUnsigned(ToShort(pc)) == pc
  {
    ShortRoundTrip(0, pc);
  }
}
