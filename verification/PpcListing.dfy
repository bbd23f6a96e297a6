/** The listing that the disassembler of bedbug.c prints for an instruction, and when the assembler makes
    the same instruction of it again. */
module PpcListing {
  import opened Machine
  import opened CType
  import opened BitWords
  import opened Numerals
  import opened Ppc
  import opened PpcText

  const RA := Operand(5, 16, Register)

  // ---- Printing ----------------------------------------------------------------------

  /** The first entry of the table of special registers with a number. */
  function ByNumber(sprs: seq<Spr>, v: nat, from: nat): (k: int)
    requires from <= |sprs|
    ensures k == -1 || (from <= k < |sprs| && sprs[k].number == v)
    decreases |sprs| - from
  {
    if from == |sprs| then -1 else if sprs[from].number == v then from else ByNumber(sprs, v, from + 1)
  }

  function SprName(sprs: seq<Spr>, v: nat): seq<byte> {
    var k := ByNumber(sprs, Swapped(v), 0);
    if k >= 0 then sprs[k].name else Digits(Swapped(v), 10)
  }

  function TbrName(v: nat): seq<byte> {
    if Swapped(v) == 268 then [84, 66, 76] else if Swapped(v) == 269 then [84, 66, 85] else [63, 63, 63]
  }

  /** What is printed for the value of an operand. */
  function Shown(op: Opcode, o: Operand, v: nat, base: u32, sprs: seq<Spr>): seq<byte>
    requires Proper(o)
  {
    match o.hint
    case Silent => []
    case Address => [48, 120] + Digits(Target(o.bits, v, if op.relative then base else 0), 16)
    case Register => if v == 0 && op.raZero && o == RA then [48] else [114] + Digits(v, 10)
    case Special => SprName(sprs, v)
    case TimeBase => TbrName(v)
    case _ => [48, 120] + Digits(v, 16)
  }

  /** Whether a parenthesis is open behind an operand: an offset opens one, a register or a number closes it. */
  predicate OpenAfter(o: Operand, open: bool) {
    if open then o.hint in {Address, Special, TimeBase} else o.hint == Offset
  }

  function Bracket(o: Operand, open: bool): seq<byte> {
    if open && !OpenAfter(o, open) then [41] else if !open && OpenAfter(o, open) then [40] else []
  }

  /** The operands from the i-th on. */
  function Listed(op: Opcode, w: Word, base: u32, sprs: seq<Spr>, i: nat, open: bool): seq<byte>
    requires WellFormed(op) && i <= |op.fields|
    decreases |op.fields| - i
  {
    if i == |op.fields| then []
    else
      var o := op.fields[i];
      if o.hint == Silent then Listed(op, w, base, sprs, i + 1, open)
      else
        (if i > 0 && !open then [COMMA] else [])
        + (Shown(op, o, Value(o, w), base, sprs) + Bracket(o, open)
           + Listed(op, w, base, sprs, i + 1, OpenAfter(o, open)))
  }

  /** print_operands. */
  method PrintOperands(op: Opcode, w: Word, base: u32, sprs: seq<Spr>) returns (text: seq<byte>)
    requires WellFormed(op)
    ensures text == Listed(op, w, base, sprs, 0, false)
  {
    text := [];
    var field, open := 0, false;
    ghost var all := Listed(op, w, base, sprs, 0, false);
    while field < |op.fields|
      invariant 0 <= field <= |op.fields| && text + Listed(op, w, base, sprs, field, open) == all
    {
      var o := op.fields[field];
      if o.hint != Silent {
        var comma := if field > 0 && !open then [COMMA] else [];
        var item := Shown(op, o, Value(o, w), base, sprs) + Bracket(o, open);
        Printed(text, comma, item, Listed(op, w, base, sprs, field + 1, OpenAfter(o, open)));
        text := text + (comma + item);
        open := OpenAfter(o, open);
      }
      field := field + 1;
    }
  }

  lemma {:induction false} Printed(text: seq<byte>, comma: seq<byte>, item: seq<byte>, rest: seq<byte>)
    ensures text + (comma + (item + rest)) == (text + (comma + item)) + rest
  {
  }

  /** The name of the instruction, padded to seven characters, a space and the operands. */
  function Line(op: Opcode, w: Word, base: u32, sprs: seq<Spr>): seq<byte>
    requires WellFormed(op)
  {
    op.name + Padding(7 - |op.name|) + ([32] + Listed(op, w, base, sprs, 0, false))
  }

  function Padding(n: int): (s: seq<byte>)
    ensures forall i :: 0 <= i < |s| ==> s[i] == 32
    decreases n
  {
    if n <= 0 then [] else [32] + Padding(n - 1)
  }

  // ---- Words of a listing ------------------------------------------------------------

  /** Text that is one word. */
  predicate Solid(s: seq<byte>) {
    s != [] && forall c :: c in s ==> InWord(c)
  }

  lemma {:induction false} TakeSolid(token: seq<byte>, s: seq<byte>)
    requires forall c :: c in token ==> InWord(c)
    requires s == [] || !InWord(s[0])
    ensures Take(token + s) == Cut(token, if s != [] && s[0] == COMMA then s[1..] else s)
  {
    if token == [] {
      assert token + s == s;
    } else {
      assert (token + s)[1..] == token[1..] + s && token == [token[0]] + token[1..];
      assert token[0] in token && forall c :: c in token[1..] ==> c in token;
      TakeSolid(token[1..], s);
    }
  }

  lemma {:induction false} WordTaken(token: seq<byte>, s: seq<byte>)
    requires Solid(token) && (s == [] || !InWord(s[0]))
    ensures NextWord(token + s) == Cut(token, if s != [] && s[0] == COMMA then s[1..] else s)
  {
    assert token[0] in token;
    TakeSolid(token, s);
  }

  // ---- Operands read back ------------------------------------------------------------

  /** The operands of the table of operands. */
  predicate Tabled(o: Operand) {
    && Proper(o)
    && (o.hint == Register ==> o.bits == 5)
    && (o.hint == Special || o.hint == TimeBase ==> o.bits == 10)
    && (o.hint == Plain || o.hint == Offset ==> o.bits <= 16)
  }

  /** The table of special registers: its names are words with a capital letter. */
  predicate CapitalName(name: seq<byte>) {
    Solid(name) && !(48 <= name[0] <= 57) && exists i :: 0 <= i < |name| && IsUpper(name[i])
  }

  predicate SprTable(sprs: seq<Spr>) {
    forall k :: 0 <= k < |sprs| ==> CapitalName(sprs[k].name)
  }

  /** No name is ever found in it, since the name that is looked for has been put into small letters. */
  lemma {:induction false} NamesNotFound(sprs: seq<Spr>, txt: seq<byte>, from: nat)
    requires SprTable(sprs) && from <= |sprs|
    ensures ByName(sprs, Lower(txt), from) == -1
    decreases |sprs| - from
  {
    if from < |sprs| {
      var name := sprs[from].name;
      var i :| 0 <= i < |name| && IsUpper(name[i]);
      assert name != Lower(txt);
      NamesNotFound(sprs, txt, from + 1);
    }
  }

  /** So a special register is accepted only by number. */
  lemma {:induction false} NamesRefused(o: Operand, relative: bool, memaddr: u32, sprs: seq<Spr>, txt: seq<byte>)
    requires Proper(o) && o.hint == Special && SprTable(sprs) && txt != [] && !(48 <= txt[0] <= 57)
    ensures Code(o, relative, memaddr, Meant(Special, txt, sprs)) == Refused(BadSpr)
  {
    NamesNotFound(sprs, txt, 0);
  }

  lemma {:induction false} HexNumber(v: u32)
    ensures ReadNumber([48, 120] + Digits(v, 16)) == v && Solid([48, 120] + Digits(v, 16))
  {
    var s := [48, 120] + Digits(v, 16);
    DigitsPlain(v, 16);
    DigitsRead(v, 16, []);
    assert s[2..] == Digits(v, 16) && Digits(v, 16) + [] == Digits(v, 16);
  }

  lemma {:induction false} DecimalNumber(v: u32, base: nat)
    requires base == 10
    ensures ReadNumber(Digits(v, base)) == v && Solid(Digits(v, base)) && 48 <= Digits(v, base)[0] <= 57
  {
    var s := Digits(v, base);
    DigitsPlain(v, base);
    DigitsRead(v, base, []);
    assert s + [] == s && s[0] in s;
  }

  /** The field of an address is found again from the address it stands for. */
  lemma {:induction false} AddressBack(bits: nat, v: nat, base: u32)
    requires 1 <= bits <= 30 && v < Pow2(bits)
    ensures AddressField(bits, Signed(Sub32(Target(bits, v, base), base))) == v
  {
    var h, e := Pow2(bits - 1), Extended(bits, v);
    ReachIsSmall(bits);
    WrapIs(4 * e, base, Target(bits, v, base));
    if v < h { DivSmall(v, h); } else { RemainderUnique(e, h, -1, v - h); }
  }

  /** An operand whose printed form means the same to the assembler. */
  predicate Readable(o: Operand, v: nat, sprs: seq<Spr>) {
    match o.hint
    case Special => Swapped(v) != 0 && ByNumber(sprs, Swapped(v), 0) < 0
    case TimeBase => Swapped(v) == 268 || Swapped(v) == 269
    case _ => true
  }

  /** What the assembler makes of the printed form of an operand. */
  ghost predicate ReadsBack(op: Opcode, o: Operand, v: nat, base: u32, sprs: seq<Spr>)
    requires Proper(o)
  {
    var txt := Shown(op, o, v, base, sprs);
    var c := Code(o, op.relative, base, Meant(o.hint, txt, sprs));
    Solid(txt) && if Readable(o, v, sprs) then c == Coded(Bits(v, o.bits)) else c.Refused?
  }

  lemma {:induction false} AddressReads(op: Opcode, o: Operand, v: nat, base: u32, sprs: seq<Spr>)
    requires Proper(o) && o.hint == Address && v < Pow2(o.bits)
    ensures ReadsBack(op, o, v, base, sprs)
  {
    var b: u32 := if op.relative then base else 0;
    var t := Target(o.bits, v, b);
    HexNumber(t);
    AddressBack(o.bits, v, b);
    assert !op.relative ==> Sub32(t, 0) == t;
  }

  lemma {:induction false} RegisterReads(op: Opcode, o: Operand, v: nat, base: u32, sprs: seq<Spr>)
    requires Tabled(o) && o.hint == Register && v < 32
    ensures ReadsBack(op, o, v, base, sprs)
  {
    var s := [114] + Digits(v, 10);
    DecimalNumber(v, 10);
    DecimalNumber(0, 10);
    assert s[1..] == Digits(v, 10) && Digits(0, 10) == [48];
  }

  /** The number that is printed for a special or time base register, coded again. */
  lemma {:induction false} NumberCoded(o: Operand, relative: bool, memaddr: u32, v: nat, n: nat)
    requires Proper(o) && v < 1024 && n == Swapped(v) && (o.hint == Special || o.hint == TimeBase)
    ensures n < 1024
    ensures var c := Code(o, relative, memaddr, n);
            if (if o.hint == Special then n != 0 else n == 268 || n == 269) then c == Coded(Bits(v, o.bits))
            else c.Refused?
  {
    SwappedTwice(v);
    DivSmall(v, 1024);
    if n == 0 { assert v == 0; }
  }

  lemma {:induction false} SpecialReads(op: Opcode, o: Operand, v: nat, base: u32, sprs: seq<Spr>)
    requires Tabled(o) && o.hint == Special && v < 1024 && SprTable(sprs)
    ensures ReadsBack(op, o, v, base, sprs)
  {
    var n := Swapped(v);
    var k := ByNumber(sprs, n, 0);
    NumberCoded(o, op.relative, base, v, n);
    if k >= 0 {
      assert CapitalName(sprs[k].name);
      NamesRefused(o, op.relative, base, sprs, sprs[k].name);
    } else {
      ByDigits(n, sprs);
    }
  }

  lemma {:induction false} ByDigits(n: u32, sprs: seq<Spr>)
    ensures Solid(Digits(n, 10)) && Meant(Special, Digits(n, 10), sprs) == n
  {
    DecimalNumber(n, 10);
  }

  lemma {:induction false} TimeBaseReads(op: Opcode, o: Operand, v: nat, base: u32, sprs: seq<Spr>)
    requires Tabled(o) && o.hint == TimeBase && v < 1024
    ensures ReadsBack(op, o, v, base, sprs)
  {
    var n := Swapped(v);
    NumberCoded(o, op.relative, base, v, n);
    TimeBaseMeant(n, v, sprs);
  }

  lemma {:induction false} TimeBaseMeant(n: nat, v: nat, sprs: seq<Spr>)
    requires n == Swapped(v)
    ensures Solid(TbrName(v)) && Meant(TimeBase, TbrName(v), sprs) == if n == 268 || n == 269 then n else 0
  {
    var tbl: seq<byte>, tbu: seq<byte>, none: seq<byte> := [84, 66, 76], [84, 66, 85], [63, 63, 63];
    assert Lower(tbl) == [116, 98, 108] && Lower(tbu) == [116, 98, 117] && Lower(none) == [63, 63, 63];
  }

  lemma {:induction false} PlainReads(op: Opcode, o: Operand, v: nat, base: u32, sprs: seq<Spr>)
    requires Tabled(o) && (o.hint == Plain || o.hint == Offset) && v < 0x1_0000
    ensures ReadsBack(op, o, v, base, sprs)
  {
    HexNumber(v);
  }

  lemma {:induction false} OperandReads(op: Opcode, o: Operand, w: Word, base: u32, sprs: seq<Spr>)
    requires Tabled(o) && o.hint != Silent && SprTable(sprs)
    ensures ReadsBack(op, o, Value(o, w), base, sprs)
  {
    var v := Value(o, w);
    NumberBound(Field(o, w));
    FieldSizes();
    match o.hint
    case Address => AddressReads(op, o, v, base, sprs);
    case Register => RegisterReads(op, o, v, base, sprs);
    case Special => SpecialReads(op, o, v, base, sprs);
    case TimeBase => TimeBaseReads(op, o, v, base, sprs);
    case _ =>
      PlainSize(o.bits);
      PlainReads(op, o, v, base, sprs);
  }

  lemma {:induction false} PlainSize(bits: nat)
    requires bits <= 16
    ensures Pow2(bits) <= 0x1_0000
    decreases 16 - bits
  {
    if bits == 16 { Pow2Values(); } else { PlainSize(bits + 1); }
  }
}
