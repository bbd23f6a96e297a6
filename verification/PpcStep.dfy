/** The single-step logic of bedbug.c, against the next instruction address of chapter 2 of the Power ISA,
    Book I, which is read from the instruction in the numbering of that book. */
module PpcStep {
  import opened Machine
  import opened BitWords
  import opened Ppc

  /** The fields of a branch; its AA bit has weight 2 and its LK bit weight 1. */
  const LI := Operand(24, 2, Address)
  const BD := Operand(14, 2, Address)
  const BO := Operand(5, 21, Plain)
  const BI := Operand(5, 16, Plain)

  /** b, bc, bcctr, bclr and all other instructions. */
  datatype Form = Unconditional | Conditional | ToCounter | ToLink | NoBranch

  datatype Regs = Regs(nip: u32, ctr: u32, cr: Word, lr: u32)

  function Pc(regs: Regs): u32 { regs.nip - regs.nip % 4 }

  /** The condition register bit that the BI field names; bit 0 is the most significant. */
  function CrBit(instr: Word, cr: Word): bool {
    NumberBound(Field(BI, instr));
    assert Pow2(5) == 32;
    cr[31 - Value(BI, instr)]
  }

  /** Whether a conditional branch is taken according to the architecture: BO_0 makes the condition not
      matter, BO_1 is the value it must have, BO_2 makes the counter not matter, and BO_3 says that the
      decremented counter must be zero. `bo` has BO_0 at weight 16. */
  predicate Taken(bo: seq<bool>, ctr: u32, crBit: bool)
    requires |bo| == 5
  {
    && (bo[2] || ((Sub32(ctr, 1) != 0) != bo[1]))
    && (bo[4] || crBit == bo[3])
  }

  /** Whether it is taken by find_next_address: its switch over the upper four bits of BO. */
  predicate SwitchTaken(bo: seq<bool>, ctr: u32, crBit: bool)
    requires |bo| == 5
  {
    var again := Sub32(ctr, 1) != 0;
    match Number(bo[1..])
    case 0 => again && !crBit
    case 1 => !again && !crBit
    case 2 => !crBit
    case 4 => again && crBit
    case 5 => !again && crBit
    case 6 => crBit
    case 8 => again
    case 9 => !again
    case 10 => true
    case _ => false
  }

  lemma {:induction false} Upper(bo: seq<bool>)
    requires |bo| == 5
    ensures Number(bo[1..]) == (if bo[1] then 1 else 0) + (if bo[2] then 2 else 0) + (if bo[3] then 4 else 0)
                               + (if bo[4] then 8 else 0)
  {
    var b4: seq<bool> := [bo[4]];
    var b3, b2 := [bo[3]] + b4, [bo[2]] + ([bo[3]] + b4);
    assert bo[1..] == [bo[1]] + b2;
    assert b4[1..] == [] && b3[1..] == b4 && b2[1..] == b3 && bo[1..][1..] == b2;
    assert Number(b4) == if bo[4] then 1 else 0;
    assert Number(b3) == (if bo[3] then 1 else 0) + 2 * Number(b4);
    assert Number(b2) == (if bo[2] then 1 else 0) + 2 * Number(b3);
  }

  /** Neither the branch hint `a` of the forms 001at, 011at, 1a00t and 1a01t is set, nor one of the first two
      bits `z` of the form 1z1zz, which are ignored. */
  predicate Unhinted(bo: seq<bool>)
    requires |bo| == 5
  {
    !(bo[1] && bo[2]) && !(bo[3] && bo[4])
  }

  /** The switch decides as the architecture does, for all registers, if and only if none of these bits is
      set; with one set it never branches, though the architecture may. */
  lemma {:induction false} SwitchIff(bo: seq<bool>)
    requires |bo| == 5
    ensures (forall ctr: u32, crBit: bool :: SwitchTaken(bo, ctr, crBit) == Taken(bo, ctr, crBit)) <==> Unhinted(bo)
    ensures !Unhinted(bo) ==> forall ctr: u32, crBit: bool :: !SwitchTaken(bo, ctr, crBit)
  {
    Upper(bo);
    if !Unhinted(bo) {
      var ctr: u32 := if bo[1] then 1 else 2;
      assert Taken(bo, ctr, bo[3]);
      assert !SwitchTaken(bo, ctr, bo[3]);
    }
  }

  /** The address a branch goes to, before and after the low two bits of a register are dropped. */
  function Destination(form: Form, instr: Word, regs: Regs): u32 {
    match form
    case Unconditional => Target(24, Value(LI, instr), if instr[1] then 0 else Pc(regs))
    case Conditional => Target(14, Value(BD, instr), if instr[1] then 0 else Pc(regs))
    case ToCounter => regs.ctr
    case ToLink => regs.lr
    case NoBranch => Add32(Pc(regs), 4)
  }

  predicate Branches(form: Form, instr: Word, regs: Regs) {
    form == Unconditional || (form != NoBranch && SwitchTaken(Field(BO, instr), regs.ctr, CrBit(instr, regs.cr)))
  }

  /** Where find_next_address says that execution goes on. */
  function Next(form: Form, instr: Word, regs: Regs, stepOver: bool): u32 {
    if Branches(form, instr, regs) && !(stepOver && instr[0]) then Destination(form, instr, regs)
    else Add32(Pc(regs), 4)
  }

  // ---- The architecture --------------------------------------------------------------

  /** Bits `first` to `last` of a word in the numbering of the Power ISA, in which bit 0 is the most
      significant of the 32. */
  function IsaBits(w: u32, first: nat, last: nat): nat
    requires first <= last < 32
  {
    (w / Pow2(31 - last)) % Pow2(last - first + 1)
  }

  predicate IsaBit(w: u32, k: nat)
    requires k < 32
  {
    (w / Pow2(31 - k)) % 2 == 1
  }

  /** EXTS of a number of `width` bits. */
  function Exts(v: nat, width: nat): int
    requires width >= 1
  {
    if v < Pow2(width - 1) then v else v - Pow2(width)
  }

  /** The conditions of bc, bclr and bcctr: ctr_ok and cond_ok of the instruction descriptions, with BO in
      bits 6 to 10 and BI in bits 11 to 15. A bcctr that also tests the counter, which is an invalid form, is
      read as if it were valid. */
  predicate IsaTaken(w: u32, ctr: u32, cr: u32) {
    var bi := IsaBits(w, 11, 15);
    IsaBitsFive(w, 11);
    var count := if IsaBit(w, 8) then ctr else Sub32(ctr, 1);
    var ctrOk := IsaBit(w, 8) || ((count != 0) != IsaBit(w, 9));
    var condOk := IsaBit(w, 6) || (IsaBit(cr, bi) == IsaBit(w, 7));
    ctrOk && condOk
  }

  lemma {:induction false} IsaBitsFive(w: u32, first: nat)
    requires first + 4 < 32
    ensures 0 <= IsaBits(w, first, first + 4) < 32
  {
    FieldSizes();
  }

  /** The next instruction address: for b the target is in bits 6 to 29, for bc in bits 16 to 29, and it is
      absolute if AA, bit 30, is set; bclr and bcctr go to the register without its two low bits. */
  function IsaNia(form: Form, w: u32, cia: u32, ctr: u32, cr: u32, lr: u32): u32 {
    match form
    case Unconditional => Wrap((if IsaBit(w, 30) then 0 else cia) + Exts(4 * IsaBits(w, 6, 29), 26))
    case Conditional =>
      if IsaTaken(w, ctr, cr) then Wrap((if IsaBit(w, 30) then 0 else cia) + Exts(4 * IsaBits(w, 16, 29), 16))
      else Wrap(cia + 4)
    case ToLink => if IsaTaken(w, ctr, cr) then 4 * (lr / 4) else Wrap(cia + 4)
    case ToCounter => if IsaTaken(w, ctr, cr) then 4 * (ctr / 4) else Wrap(cia + 4)
    case NoBranch => Wrap(cia + 4)
  }

  /** A word as the number it is. */
  function Numeric(w: Word): u32 {
    NumberBound(w);
    Pow2Values();
    Number(w)
  }

  function Nia(form: Form, instr: Word, regs: Regs): u32 {
    IsaNia(form, Numeric(instr), 4 * (regs.nip / 4), regs.ctr, Numeric(regs.cr), regs.lr)
  }

  // ---- Fields in both numberings -----------------------------------------------------

  /** A field of the operand table is a range of bits of the architecture. */
  lemma {:induction false} FieldIsBits(o: Operand, w: Word, first: nat, last: nat)
    requires Proper(o) && first <= last < 32 && o.shift == 31 - last && o.bits == last - first + 1
    ensures Value(o, w) == IsaBits(Numeric(w), first, last)
  {
    PartIs(w, o.shift, o.bits);
  }

  /** The number of a special register in an instruction: its low five bits are bits 11 to 15 and its high
      five bits are bits 16 to 20, as the architecture has it. */
  lemma {:induction false} SprInWord(o: Operand, relative: bool, memaddr: u32, v: u32, w: Word)
    requires o == Operand(10, 11, Special) && Code(o, relative, memaddr, v) == Coded(Field(o, w))
    ensures IsaBits(Numeric(w), 11, 15) == v % 32 && IsaBits(Numeric(w), 16, 20) == (v / 32) % 32
  {
    FieldSizes();
    SwappedTwice(v);
    NumberOfBits(Swapped(v), 10);
    FieldIsBits(o, w, 11, 20);
    Halves(Numeric(w), Swapped(v));
  }

  lemma {:induction false} Halves(n: u32, s: nat)
    requires IsaBits(n, 11, 20) == s < 1024
    ensures IsaBits(n, 11, 15) == s / 32 && IsaBits(n, 16, 20) == s % 32
  {
    FieldSizes();
    assert Pow2(11) == 2048 && Pow2(16) == 65536 by { Pow2Values(); }
    var m := n / 2048;
    assert n / 65536 == m / 32;
    RemainderUnique(m, 32, 32 * (m / 1024) + s / 32, s % 32);
    RemainderUnique(m / 32, 32, m / 1024, s / 32);
  }

  lemma {:induction false} BitIs(w: Word, k: nat)
    requires k < 32
    ensures w[31 - k] == IsaBit(Numeric(w), k)
  {
    PartIs(w, 31 - k, 1);
    var one := w[31 - k..31 - k + 1];
    assert one == [w[31 - k]] && one[1..] == [];
    assert Pow2(1) == 2;
  }

  /** The bits of BO. */
  lemma {:induction false} BranchBits(w: Word)
    ensures var bo, n := Field(BO, w), Numeric(w);
            bo[4] == IsaBit(n, 6) && bo[3] == IsaBit(n, 7) && bo[2] == IsaBit(n, 8) && bo[1] == IsaBit(n, 9)
  {
    var bo := Field(BO, w);
    assert bo[4] == w[25] && bo[3] == w[24] && bo[2] == w[23] && bo[1] == w[22];
    assert w[25] == IsaBit(Numeric(w), 6) by { BitIs(w, 6); }
    assert w[24] == IsaBit(Numeric(w), 7) by { BitIs(w, 7); }
    assert w[23] == IsaBit(Numeric(w), 8) by { BitIs(w, 8); }
    assert w[22] == IsaBit(Numeric(w), 9) by { BitIs(w, 9); }
  }

  /** The model of the branch conditions is that of the architecture, register bit and all. */
  lemma {:induction false} TakenIsIsa(instr: Word, ctr: u32, cr: Word)
    ensures Taken(Field(BO, instr), ctr, CrBit(instr, cr)) <==> IsaTaken(Numeric(instr), ctr, Numeric(cr))
  {
    BranchBits(instr);
    FieldIsBits(BI, instr, 11, 15);
    IsaBitsFive(Numeric(instr), 11);
    BitIs(cr, IsaBits(Numeric(instr), 11, 15));
  }

  /** Shifting left by two and extending the sign afterwards, or the other way round. */
  lemma {:induction false} ShiftedExtends(bits: nat, v: nat)
    requires bits >= 1
    ensures Exts(4 * v, bits + 2) == 4 * Extended(bits, v)
  {
    assert Pow2(bits + 1) == 2 * Pow2(bits) == 4 * Pow2(bits - 1);
    assert Pow2(bits + 2) == 2 * Pow2(bits + 1);
  }

  lemma {:induction false} PcIs(regs: Regs)
    ensures Pc(regs) == 4 * (regs.nip / 4) && Add32(Pc(regs), 4) == Wrap(4 * (regs.nip / 4) + 4)
  {
    QuotientAndRemainder(regs.nip, 4);
  }

  lemma {:induction false} AbsoluteBit(w: Word)
    ensures w[1] == IsaBit(Numeric(w), 30)
  {
    BitIs(w, 30);
  }

  /** A target as the architecture computes it. */
  lemma {:induction false} TargetIsIsa(bits: nat, v: nat, base: u32)
    requires bits >= 1
    ensures Target(bits, v, base) == Wrap(base + Exts(4 * v, bits + 2))
  {
    ShiftedExtends(bits, v);
  }

  /** Absolute, or from the instruction on. */
  lemma {:induction false} BaseIsIsa(instr: Word, regs: Regs)
    ensures (if instr[1] then 0 else Pc(regs)) == if IsaBit(Numeric(instr), 30) then 0 else 4 * (regs.nip / 4)
  {
    PcIs(regs);
    AbsoluteBit(instr);
  }

  lemma {:induction false} UnconditionalIsIsa(instr: Word, regs: Regs)
    ensures Destination(Unconditional, instr, regs) == Nia(Unconditional, instr, regs)
  {
    BaseIsIsa(instr, regs);
    FieldIsBits(LI, instr, 6, 29);
    TargetIsIsa(24, Value(LI, instr), if instr[1] then 0 else Pc(regs));
  }

  lemma {:induction false} ConditionalIsIsa(instr: Word, regs: Regs)
    requires IsaTaken(Numeric(instr), regs.ctr, Numeric(regs.cr))
    ensures Destination(Conditional, instr, regs) == Nia(Conditional, instr, regs)
  {
    BaseIsIsa(instr, regs);
    FieldIsBits(BD, instr, 16, 29);
    TargetIsIsa(14, Value(BD, instr), if instr[1] then 0 else Pc(regs));
  }

  /** Where the architecture goes, in terms of the model. */
  function WouldGo(form: Form, instr: Word, regs: Regs): u32 {
    var taken := form == Unconditional
                 || (form != NoBranch && Taken(Field(BO, instr), regs.ctr, CrBit(instr, regs.cr)));
    var to := Destination(form, instr, regs);
    if !taken then Add32(Pc(regs), 4) else if form == ToCounter || form == ToLink then to - to % 4 else to
  }

  lemma {:induction false} NiaIs(form: Form, instr: Word, regs: Regs)
    ensures Nia(form, instr, regs) == WouldGo(form, instr, regs)
  {
    PcIs(regs);
    TakenIsIsa(instr, regs.ctr, regs.cr);
    match form
    case Unconditional => UnconditionalIsIsa(instr, regs);
    case Conditional => if IsaTaken(Numeric(instr), regs.ctr, Numeric(regs.cr)) { ConditionalIsIsa(instr, regs); }
    case ToCounter => QuotientAndRemainder(regs.ctr, 4);
    case ToLink => QuotientAndRemainder(regs.lr, 4);
    case NoBranch =>
  }

  ghost predicate IsConditional(form: Form) {
    form == Conditional || form == ToCounter || form == ToLink
  }

  /** A hinted branch that the architecture takes is not followed. */
  ghost predicate Overlooked(form: Form, instr: Word, regs: Regs) {
    && IsConditional(form) && !Unhinted(Field(BO, instr))
    && Nia(form, instr, regs) != Add32(Pc(regs), 4)
  }

  /** The register that a branch goes to holds no instruction address. */
  ghost predicate Unaligned(form: Form, instr: Word, regs: Regs) {
    && Branches(form, instr, regs)
    && ((form == ToCounter && regs.ctr % 4 != 0) || (form == ToLink && regs.lr % 4 != 0))
  }

  /** A step goes to the next instruction address of the architecture, in every state and for every
      instruction, except in these two cases. */
  lemma {:induction false} StepIsNia(form: Form, instr: Word, regs: Regs)
    ensures Next(form, instr, regs, false) == Nia(form, instr, regs)
       <==> !Overlooked(form, instr, regs) && !Unaligned(form, instr, regs)
  {
    var bo, crBit := Field(BO, instr), CrBit(instr, regs.cr);
    SwitchIff(bo);
    NiaIs(form, instr, regs);
    if Unhinted(bo) {
      assert SwitchTaken(bo, regs.ctr, crBit) == Taken(bo, regs.ctr, crBit);
    } else {
      assert !SwitchTaken(bo, regs.ctr, crBit);
    }
  }

  /** Stepping over goes to the next word for an instruction that sets the link register, and otherwise where
      a step goes. */
  lemma {:induction false} SteppedOver(form: Form, instr: Word, regs: Regs)
    ensures Next(form, instr, regs, true)
         == if IsaBit(Numeric(instr), 31) then Wrap(4 * (regs.nip / 4) + 4) else Next(form, instr, regs, false)
  {
    BitIs(instr, 31);
    PcIs(regs);
  }

  /** A branch if true with the hint that it is likely (BO 01111): it is taken, but not by the switch. */
  lemma {:induction false} LikelyBranchOverlooked(bo: seq<bool>, ctr: u32)
    requires bo == [true, true, true, true, false]
    ensures Taken(bo, ctr, true) && !SwitchTaken(bo, ctr, true)
  {
    Upper(bo);
  }

  /** A branch to a link register that is not a multiple of four. */
  lemma {:induction false} LinkNotCut(instr: Word, regs: Regs)
    requires Field(BO, instr) == [false, false, true, false, true] && regs.lr == 0x102
    ensures Next(ToLink, instr, regs, false) == 0x102 && Nia(ToLink, instr, regs) == 0x100
  {
    var bo := Field(BO, instr);
    assert SwitchTaken(bo, regs.ctr, CrBit(instr, regs.cr)) by { Upper(bo); }
    assert WouldGo(ToLink, instr, regs) == 0x100;
    assert Nia(ToLink, instr, regs) == WouldGo(ToLink, instr, regs) by { NiaIs(ToLink, instr, regs); }
  }

  /** A relative branch that is taken, and whose target field was assembled for an address, is stepped to that
      address if and only if it is in reach. */
  lemma {:induction false} SteppedToTarget(form: Form, target: u32, instr: Word, regs: Regs)
    requires (form == Unconditional || form == Conditional) && Branches(form, instr, regs)
    requires !IsaBit(Numeric(instr), 30)
    requires var d := Signed(Sub32(target, 4 * (regs.nip / 4)));
             if form == Unconditional then IsaBits(Numeric(instr), 6, 29) == AddressField(24, d)
             else IsaBits(Numeric(instr), 16, 29) == AddressField(14, d)
    ensures var bits := if form == Unconditional then 24 else 14;
            Next(form, instr, regs, false) == target
            <==> InReach(bits, Signed(Sub32(target, 4 * (regs.nip / 4))))
  {
    PcIs(regs);
    AbsoluteBit(instr);
    FieldIsBits(LI, instr, 6, 29);
    FieldIsBits(BD, instr, 16, 29);
    TargetIff(if form == Unconditional then 24 else 14, target, Pc(regs));
  }

  /** Its switch over BO, which sets two flags. */
  method Decide(bo: seq<bool>, ctr0: u32, crBit: bool) returns (taken: bool)
    requires |bo| == 5
    ensures taken <==> SwitchTaken(bo, ctr0, crBit)
  {
    var ctr, ctrOk, condOk := ctr0, false, false;
    match Number(bo[1..]) {
      case 0 => ctr := Sub32(ctr, 1); ctrOk, condOk := ctr != 0, !crBit;
      case 1 => ctr := Sub32(ctr, 1); ctrOk, condOk := ctr == 0, !crBit;
      case 2 => ctrOk, condOk := true, !crBit;
      case 4 => ctr := Sub32(ctr, 1); ctrOk, condOk := ctr != 0, crBit;
      case 5 => ctr := Sub32(ctr, 1); ctrOk, condOk := ctr == 0, crBit;
      case 6 => ctrOk, condOk := true, crBit;
      case 8 => ctr := Sub32(ctr, 1); ctrOk, condOk := ctr != 0, ctr != 0;
      case 9 => ctr := Sub32(ctr, 1); ctrOk, condOk := ctr == 0, ctr == 0;
      case 10 => ctrOk, condOk := true, true;
      case _ =>
    }
    taken := ctrOk && condOk;
  }

  /** find_next_address, after the opcode has been found. */
  method FindNextAddress(form: Form, instr: Word, regs: Regs, stepOver: bool) returns (next: u32)
    ensures next == Next(form, instr, regs, stepOver)
  {
    var pc, ctr, cr, lr := Pc(regs), regs.ctr, regs.cr, regs.lr;
    var addr: int, aa, bo, lk := 0, false, Field(BO, instr), false;
    var conditional, branch := false, false;
    match form {
      case Conditional =>
        addr := 4 * Extended(14, Value(BD, instr));
        aa, lk := instr[1], instr[0];
        conditional, branch := true, true;
      case Unconditional =>
        addr := 4 * Extended(24, Value(LI, instr));
        aa, lk := instr[1], instr[0];
        branch := true;
      case ToCounter =>
        addr, aa, lk := ctr, true, instr[0];
        conditional, branch := true, true;
      case ToLink =>
        addr, aa, lk := lr, true, instr[0];
        conditional, branch := true, true;
      case NoBranch =>
    }
    var taken := true;
    if conditional { taken := Decide(bo, ctr, CrBit(instr, cr)); }
    var step: u32;
    if branch && taken {
      step := if aa then Wrap(addr) else Wrap(addr + pc);
      next := if lk then Add32(pc, 4) else step;
    } else {
      step, next := Add32(pc, 4), Add32(pc, 4);
    }
    if !stepOver { next := step; }
  }
}
