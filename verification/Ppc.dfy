/** The PowerPC assembler of bedbug.c: operands as bit fields of a 32-bit word, and the coding of branch
    targets. */
module Ppc {
  import opened Machine
  import opened BitWords

  // ---- Fields ------------------------------------------------------------------------

  datatype Hint = Silent | Address | Register | Special | TimeBase | Plain | Offset

  datatype Operand = Operand(bits: nat, shift: nat, hint: Hint)

  predicate Proper(o: Operand) {
    o.shift + o.bits <= 32 && (o.hint == Address ==> 1 <= o.bits <= 30)
  }

  /** `(instr >> shift) & ((1 << bits) - 1)`. */
  function Field(o: Operand, w: Word): (b: seq<bool>)
    requires Proper(o)
    ensures |b| == o.bits
  {
    w[o.shift..o.shift + o.bits]
  }

  /** The value that an operand has in a word. */
  function Value(o: Operand, w: Word): nat
    requires Proper(o)
  {
    Number(Field(o, w))
  }

  /** `value << shift`. */
  function Placed(o: Operand, b: seq<bool>): Word
    requires Proper(o) && |b| == o.bits
  {
    seq(32, k requires 0 <= k < 32 => o.shift <= k < o.shift + o.bits && b[k - o.shift])
  }

  function Merged(a: Word, b: Word): Word {
    seq(32, k requires 0 <= k < 32 => a[k] || b[k])
  }

  predicate Inside(o: Operand, k: int) { o.shift <= k < o.shift + o.bits }

  predicate Apart(a: Operand, b: Operand) {
    a.shift + a.bits <= b.shift || b.shift + b.bits <= a.shift
  }

  predicate Clear(w: Word, o: Operand) {
    forall k :: 0 <= k < 32 && Inside(o, k) ==> !w[k]
  }

  /** A field that was clear holds what is or-ed into it. */
  lemma {:induction false} FieldFilled(w: Word, o: Operand, b: seq<bool>)
    requires Proper(o) && |b| == o.bits && Clear(w, o)
    ensures Field(o, Merged(w, Placed(o, b))) == b
  {
    var m := Merged(w, Placed(o, b));
    forall i | 0 <= i < o.bits ensures Field(o, m)[i] == b[i] {
      var k := o.shift + i;
      assert Inside(o, k) && !w[k] && Placed(o, b)[k] == b[i];
      assert m[k] == b[i];
    }
  }

  /** And no other field is changed. */
  lemma {:induction false} FieldKept(w: Word, o: Operand, b: seq<bool>, other: Operand)
    requires Proper(o) && |b| == o.bits && Proper(other) && Apart(o, other)
    ensures Field(other, Merged(w, Placed(o, b))) == Field(other, w)
    ensures Clear(w, other) ==> Clear(Merged(w, Placed(o, b)), other)
  {
  }

  // ---- Branch targets ----------------------------------------------------------------

  function Signed(x: u32): int {
    if x < 0x8000_0000 then x else x - 0x1_0000_0000
  }

  /** The field for a distance: its words, cut to one bit less than the field has, and the sign bit
      or-ed in above them. */
  function AddressField(bits: nat, d: int): (v: nat)
    requires bits >= 1
    ensures v < Pow2(bits)
  {
    (d / 4) % Pow2(bits - 1) + if d < 0 then Pow2(bits - 1) else 0
  }

  /** The distance that the printer and the single-step logic read from a field. */
  function Extended(bits: nat, v: nat): int
    requires bits >= 1
  {
    if v >= Pow2(bits - 1) then v - Pow2(bits) else v
  }

  function Target(bits: nat, v: nat, base: u32): u32
    requires bits >= 1
  {
    Wrap(4 * Extended(bits, v) + base)
  }

  /** A distance that a branch can have: a whole number of words within reach of the field. */
  predicate InReach(bits: nat, d: int)
    requires bits >= 1
  {
    d % 4 == 0 && -4 * Pow2(bits - 1) <= d < 4 * Pow2(bits - 1)
  }

  /** The distance read back. */
  function Recovered(bits: nat, d: int): int
    requires bits >= 1
  {
    4 * Extended(bits, AddressField(bits, d))
  }

  lemma {:induction false} RecoveredIff(bits: nat, d: int)
    requires bits >= 1
    ensures Recovered(bits, d) == d <==> InReach(bits, d)
    ensures -4 * Pow2(bits - 1) <= Recovered(bits, d) < 4 * Pow2(bits - 1)
  {
    var h := Pow2(bits - 1);
    if InReach(bits, d) {
      if d >= 0 { RemainderUnique(d / 4, h, 0, d / 4); } else { RemainderUnique(d / 4, h, -1, d / 4 + h); }
    }
  }

  /** The address that is recovered from an assembled branch is the one it was given, if and only if it
      is word-aligned with the base and in reach. */
  lemma {:induction false} TargetIff(bits: nat, target: u32, base: u32)
    requires 1 <= bits <= 30
    ensures var d := Signed(Sub32(target, base));
            Target(bits, AddressField(bits, d), base) == target <==> InReach(bits, d)
  {
    var d := Signed(Sub32(target, base));
    RecoveredIff(bits, d);
    ReachIsSmall(bits);
    WrapIs(Recovered(bits, d), base, target);
  }

  lemma {:induction false} ReachIsSmall(bits: nat)
    requires 1 <= bits <= 30
    ensures 4 * Pow2(bits - 1) <= 0x8000_0000
    decreases 30 - bits
  {
    if bits == 30 { Pow2Values(); } else { ReachIsSmall(bits + 1); }
  }

  lemma {:induction false} WrapIs(e: int, base: u32, target: u32)
    requires -0x8000_0000 <= e < 0x8000_0000
    ensures Wrap(e + base) == target <==> e == Signed(Sub32(target, base))
  {
    var x := e + base;
    var q := if x < 0 then -1 else if x < 0x1_0000_0000 then 0 else 1;
    RemainderUnique(x, 0x1_0000_0000, q, x - 0x1_0000_0000 * q);
  }

  /** An unaligned target and one that is out of reach, both of a branch at 0, and what becomes of them. */
  lemma {:induction false} TargetsCut()
    ensures Target(24, AddressField(24, 0x102), 0) == 0x100
    ensures Target(24, AddressField(24, 0x200_0000), 0) == 0
  {
    Pow2Split(8, 15);
    Pow2Split(8, 7);
    Pow2Values();
    assert Pow2(7) == 128 && Pow2(23) == 0x80_0000;
    RemainderUnique(0x80_0000, 0x80_0000, 1, 0);
  }

  // ---- asmppc ------------------------------------------------------------------------

  /** An entry of the opcode table: its bits, its operands, whether its address is relative, whether register
      0 is shown as a literal 0, and its name. */
  datatype Opcode = Opcode(word: Word, fields: seq<Operand>, relative: bool, raZero: bool, name: seq<byte>)

  datatype Error = BadOpcode | NumOperands | BadRegister | BadSpr | BadTbr

  datatype Coding = Coded(bits: seq<bool>) | Refused(error: Error)

  /** The two halves of a ten-bit register number change places. */
  function Swapped(v: nat): nat { (v / 32) % 32 + (v % 32) * 32 }

  lemma {:induction false} SwappedTwice(v: nat)
    ensures Swapped(Swapped(v)) == v % 1024 && Swapped(v) < 1024 && (Swapped(v) == 0 <==> v % 1024 == 0)
  {
    var high, low := (v / 32) % 32, v % 32;
    assert v == 1024 * (v / 32 / 32) + (32 * high + low);
    RemainderUnique(v, 1024, v / 32 / 32, 32 * high + low);
    RemainderUnique(Swapped(v), 32, low, high);
  }

  /** parse_operand, for an operand given as a number. */
  function Code(o: Operand, relative: bool, memaddr: u32, v: u32): (c: Coding)
    requires Proper(o)
    ensures c.Coded? ==> |c.bits| == o.bits
  {
    match o.hint
    case Address => Coded(Bits(AddressField(o.bits, Signed(if relative then Sub32(v, memaddr) else v)), o.bits))
    case Register => if Signed(v) > 31 then Refused(BadRegister) else Coded(Bits(v, o.bits))
    case Special => if Swapped(v) == 0 then Refused(BadSpr) else Coded(Bits(Swapped(v), o.bits))
    case TimeBase => if v != 268 && v != 269 then Refused(BadTbr) else Coded(Bits(Swapped(v), o.bits))
    case _ => Coded(Bits(v, o.bits))
  }

  /** A register number below 32 is itself; a larger one is refused, unless it is negative as a signed
      number. */
  lemma {:induction false} RegisterMeans(o: Operand, relative: bool, memaddr: u32, v: u32)
    requires Proper(o) && o.hint == Register && o.bits == 5
    ensures Code(o, relative, memaddr, v) == Refused(BadRegister) <==> 32 <= v < 0x8000_0000
    ensures v < 32 ==> Code(o, relative, memaddr, v).Coded? && Number(Code(o, relative, memaddr, v).bits) == v
  {
    FieldSizes();
    if v < 32 { NumberOfBits(v, 5); }
  }

  /** The number of a special register, cut to ten bits, is found again by swapping its halves back; number
      0 is refused. */
  lemma {:induction false} SpecialMeans(o: Operand, relative: bool, memaddr: u32, v: u32)
    requires Proper(o) && o.hint == Special && o.bits == 10
    ensures var c := Code(o, relative, memaddr, v);
            if v % 1024 == 0 then c == Refused(BadSpr) else c.Coded? && Swapped(Number(c.bits)) == v % 1024
  {
    FieldSizes();
    SwappedTwice(v);
    NumberOfBits(Swapped(v), 10);
  }

  /** Of a plain operand the low bits are kept. */
  lemma {:induction false} PlainMeans(o: Operand, relative: bool, memaddr: u32, v: u32)
    requires Proper(o) && o.hint == Plain
    ensures var c := Code(o, relative, memaddr, v); c.Coded? && Number(c.bits) == v % Pow2(o.bits)
  {
    LowBits(v, o.bits);
  }

  lemma {:induction false} FieldSizes()
    ensures Pow2(5) == 32 && Pow2(10) == 1024
  {
  }

  /** An opcode whose operands have bits of their own. */
  predicate WellFormed(op: Opcode) {
    && (forall i :: 0 <= i < |op.fields| ==> Proper(op.fields[i]))
    && (forall i, j :: 0 <= i < j < |op.fields| ==> Apart(op.fields[i], op.fields[j]))
    && forall i :: 0 <= i < |op.fields| && op.fields[i].hint != Silent ==> Clear(op.word, op.fields[i])
  }

  /** The operands among the first `i` fields that are given in the text. */
  function Given(op: Opcode, i: nat): (n: nat)
    requires i <= |op.fields|
    ensures n <= i
  {
    if i == 0 then 0 else Given(op, i - 1) + if op.fields[i - 1].hint == Silent then 0 else 1
  }

  datatype Assembly = Instr(word: Word) | Failed(error: Error)

  /** The word after the first `i` fields. */
  function Assembled(op: Opcode, memaddr: u32, args: seq<u32>, i: nat): Assembly
    requires WellFormed(op) && i <= |op.fields|
  {
    if i == 0 then Instr(op.word)
    else
      var o, before := op.fields[i - 1], Assembled(op, memaddr, args, i - 1);
      if before.Failed? || o.hint == Silent then before
      else if Given(op, i - 1) >= |args| then Failed(NumOperands)
      else
        match Code(o, op.relative, memaddr, args[Given(op, i - 1)])
        case Refused(e) => Failed(e)
        case Coded(b) => Instr(Merged(before.word, Placed(o, b)))
  }

  /** A field that lies apart from the first `i` is as it was. */
  lemma {:induction false} Untouched(op: Opcode, memaddr: u32, args: seq<u32>, i: nat, other: Operand)
    requires WellFormed(op) && i <= |op.fields| && Proper(other)
    requires forall j :: 0 <= j < i && op.fields[j].hint != Silent ==> Apart(op.fields[j], other)
    requires Assembled(op, memaddr, args, i).Instr?
    ensures Field(other, Assembled(op, memaddr, args, i).word) == Field(other, op.word)
    ensures Clear(op.word, other) ==> Clear(Assembled(op, memaddr, args, i).word, other)
  {
    if i > 0 {
      var o := op.fields[i - 1];
      Untouched(op, memaddr, args, i - 1, other);
      if o.hint != Silent {
        var c := Code(o, op.relative, memaddr, args[Given(op, i - 1)]);
        FieldKept(Assembled(op, memaddr, args, i - 1).word, o, c.bits, other);
      }
    }
  }

  /** The assembled word yields every operand's field again. */
  lemma {:induction false} OperandsRecovered(op: Opcode, memaddr: u32, args: seq<u32>, i: nat, j: nat)
    requires WellFormed(op) && j < i <= |op.fields| && op.fields[j].hint != Silent
    requires Assembled(op, memaddr, args, i).Instr?
    ensures Given(op, j) < |args|
    ensures Code(op.fields[j], op.relative, memaddr, args[Given(op, j)])
         == Coded(Field(op.fields[j], Assembled(op, memaddr, args, i).word))
  {
    var o := op.fields[i - 1];
    if j == i - 1 {
      Untouched(op, memaddr, args, i - 1, o);
      var c := Code(o, op.relative, memaddr, args[Given(op, j)]);
      FieldFilled(Assembled(op, memaddr, args, i - 1).word, o, c.bits);
    } else {
      OperandsRecovered(op, memaddr, args, i - 1, j);
      if o.hint != Silent {
        var c := Code(o, op.relative, memaddr, args[Given(op, i - 1)]);
        FieldKept(Assembled(op, memaddr, args, i - 1).word, o, c.bits, op.fields[j]);
      }
    }
  }

  /** A bit that belongs to no given operand is that of the opcode, so the word is found in the table
      again. */
  lemma {:induction false} OpcodeKept(op: Opcode, memaddr: u32, args: seq<u32>, i: nat, k: nat)
    requires WellFormed(op) && i <= |op.fields| && k < 32 && Assembled(op, memaddr, args, i).Instr?
    requires forall j :: 0 <= j < i && op.fields[j].hint != Silent ==> !Inside(op.fields[j], k)
    ensures Assembled(op, memaddr, args, i).word[k] == op.word[k]
  {
    Untouched(op, memaddr, args, i, Operand(1, k, Plain));
    assert Field(Operand(1, k, Plain), op.word)[0] == op.word[k];
    assert Field(Operand(1, k, Plain), Assembled(op, memaddr, args, i).word)[0]
        == Assembled(op, memaddr, args, i).word[k];
  }

  lemma {:induction false} StaysFailed(op: Opcode, memaddr: u32, args: seq<u32>, i: nat, k: nat)
    requires WellFormed(op) && i <= k <= |op.fields| && Assembled(op, memaddr, args, i).Failed?
    ensures Assembled(op, memaddr, args, k) == Assembled(op, memaddr, args, i)
  {
    if i < k { StaysFailed(op, memaddr, args, i, k - 1); }
  }

  /** A relative branch target in reach is what the printer shows for the assembled word. */
  lemma {:induction false} BranchPrinted(op: Opcode, memaddr: u32, args: seq<u32>, j: nat)
    requires WellFormed(op) && op.relative && j < |op.fields| && op.fields[j].hint == Address
    requires Assembled(op, memaddr, args, |op.fields|).Instr?
    ensures Given(op, j) < |args|
    ensures var o, w := op.fields[j], Assembled(op, memaddr, args, |op.fields|).word;
            Target(o.bits, Number(Field(o, w)), memaddr) == args[Given(op, j)]
            <==> InReach(o.bits, Signed(Sub32(args[Given(op, j)], memaddr)))
  {
    var o := op.fields[j];
    OperandsRecovered(op, memaddr, args, |op.fields|, j);
    var target := args[Given(op, j)];
    var d := Signed(Sub32(target, memaddr));
    NumberOfBits(AddressField(o.bits, d), o.bits);
    TargetIff(o.bits, target, memaddr);
  }
}
