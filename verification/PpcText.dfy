/** The text that the PowerPC assembler of bedbug.c reads: words, numbers and register names, and the
    assembly of a line. */
module PpcText {
  import opened Machine
  import opened CType
  import opened BitWords
  import opened Numerals
  import opened Ppc

  const COMMA: byte := 44

  // ---- Words -------------------------------------------------------------------------

  predicate Blank(c: byte) { c == 32 || c == 9 }

  predicate InWord(c: byte) { !Blank(c) && c != COMMA }

  /** A word and the text behind it. */
  datatype Cut = Cut(word: seq<byte>, rest: seq<byte>)

  function Skip(s: seq<byte>): (r: seq<byte>)
    ensures |r| <= |s|
  {
    if s != [] && Blank(s[0]) then Skip(s[1..]) else s
  }

  /** The characters up to a blank or a comma; one comma goes with them. */
  function Take(s: seq<byte>): (c: Cut)
    ensures |c.word| + |c.rest| <= |s|
  {
    if s == [] || Blank(s[0]) then Cut([], s)
    else if s[0] == COMMA then Cut([], s[1..])
    else var c := Take(s[1..]); Cut([s[0]] + c.word, c.rest)
  }

  function NextWord(s: seq<byte>): (c: Cut)
    ensures |c.word| + |c.rest| <= |s|
  {
    Take(Skip(s))
  }

  /** get_word. */
  method GetWord(src: seq<byte>) returns (word: seq<byte>, rest: seq<byte>)
    ensures Cut(word, rest) == NextWord(src)
  {
    rest := src;
    while rest != [] && Blank(rest[0])
      invariant Skip(rest) == Skip(src)
      decreases |rest|
    {
      rest := rest[1..];
    }
    ghost var found := Take(rest);
    word := [];
    while rest != [] && InWord(rest[0])
      invariant found == Cut(word + Take(rest).word, Take(rest).rest)
      decreases |rest|
    {
      word, rest := word + [rest[0]], rest[1..];
    }
    if rest != [] && rest[0] == COMMA { rest := rest[1..]; }
  }

  /** downstring. */
  function Lower(s: seq<byte>): (r: seq<byte>)
    ensures |r| == |s| && forall i :: 0 <= i < |s| ==> !IsUpper(r[i])
  {
    seq(|s|, i requires 0 <= i < |s| => if IsUpper(s[i]) then s[i] + 32 else s[i])
  }

  // ---- Operands ----------------------------------------------------------------------

  /** read_number. */
  function ReadNumber(txt: seq<byte>): u32 {
    if txt != [] && txt[0] == 45 then Sub32(0, Unsigned(txt[1..])) else Unsigned(txt)
  }

  function Unsigned(t: seq<byte>): u32 {
    if |t| >= 2 && t[0] == 48 && (t[1] == 120 || t[1] == 88) then Strtoul(t[2..], 16).value else Strtoul(t, 10).value
  }

  /** The number of a register, after r, R, %r or %R. */
  function AfterPrefix(txt: seq<byte>): seq<byte> {
    if txt != [] && (txt[0] == 114 || txt[0] == 82) then txt[1..]
    else if |txt| >= 2 && txt[0] == 37 && (txt[1] == 114 || txt[1] == 82) then txt[2..]
    else txt
  }

  /** An entry of the table of special registers. */
  datatype Spr = Spr(number: nat, name: seq<byte>)

  /** The first entry with a name. */
  function ByName(sprs: seq<Spr>, name: seq<byte>, from: nat): (k: int)
    requires from <= |sprs|
    ensures k == -1 || from <= k < |sprs|
    decreases |sprs| - from
  {
    if from == |sprs| then -1 else if sprs[from].name == name then from else ByName(sprs, name, from + 1)
  }

  /** The number that a word stands for as an operand; 0 if it is the name of no register. */
  function Meant(hint: Hint, txt: seq<byte>, sprs: seq<Spr>): u32 {
    match hint
    case Register => ReadNumber(AfterPrefix(txt))
    case Special =>
      if txt != [] && IsDigit(txt[0]) then ReadNumber(txt)
      else var k := ByName(sprs, Lower(txt), 0); if k < 0 then 0 else Wrap(sprs[k].number)
    case TimeBase =>
      if txt != [] && IsDigit(txt[0]) then ReadNumber(Lower(txt))
      else if Lower(txt) == [116, 98, 108] then 268
      else if Lower(txt) == [116, 98, 117] then 269
      else 0
    case _ => ReadNumber(txt)
  }

  /** spr_value: the number of the register that a word names. */
  method SprValue(sprs: seq<Spr>, txt: seq<byte>) returns (v: u32)
    ensures v == Meant(Special, txt, sprs)
  {
    if txt != [] && IsDigit(txt[0]) { return ReadNumber(txt); }
    var name := Lower(txt);
    var i := 0;
    while i < |sprs|
      invariant 0 <= i <= |sprs| && ByName(sprs, name, 0) == ByName(sprs, name, i)
    {
      if sprs[i].name == name { return Wrap(sprs[i].number); }
      i := i + 1;
    }
    v := 0;
  }

  /** A number after a minus sign is its negative in 32 bits, decimal or hexadecimal. */
  lemma {:induction false} NegativeReads(v: u32)
    ensures ReadNumber(['-' as int] + Digits(v, 10)) == (if v == 0 then 0 else 0x1_0000_0000 - v)
    ensures ReadNumber(['-' as int, '0' as int, 'x' as int] + Digits(v, 16))
         == (if v == 0 then 0 else 0x1_0000_0000 - v)
  {
    var s, t := ['-' as int] + Digits(v, 10), ['-' as int, '0' as int, 'x' as int] + Digits(v, 16);
    assert s[1..] == Digits(v, 10) && t[1..] == ['0' as int, 'x' as int] + Digits(v, 16);
    PositiveReads(v);
  }

  lemma {:induction false} PositiveReads(v: u32)
    ensures Unsigned(Digits(v, 10)) == v && Unsigned(['0' as int, 'x' as int] + Digits(v, 16)) == v
  {
    var t := ['0' as int, 'x' as int] + Digits(v, 16);
    assert t[2..] == Digits(v, 16);
    DigitsPlain(v, 10);
    DigitsRead(v, 10, []);
    DigitsRead(v, 16, []);
    assert Digits(v, 10) + [] == Digits(v, 10) && Digits(v, 16) + [] == Digits(v, 16);
  }

  /** A register is its number after r, R, %r or %R, or the bare number. */
  lemma {:induction false} RegisterForms(v: u32, sprs: seq<Spr>)
    ensures var ds := Digits(v, 10);
            && Meant(Register, ds, sprs) == v
            && Meant(Register, ['r' as int] + ds, sprs) == v && Meant(Register, ['R' as int] + ds, sprs) == v
            && Meant(Register, ['%' as int, 'r' as int] + ds, sprs) == v
            && Meant(Register, ['%' as int, 'R' as int] + ds, sprs) == v
  {
    var ds := Digits(v, 10);
    DigitsPlain(v, 10);
    assert ds[0] in ds;
    PrefixForms(ds);
    assert ReadNumber(ds) == v by { PositiveReads(v); }
  }

  lemma {:induction false} PrefixForms(ds: seq<byte>)
    requires ds != [] && 48 <= ds[0] <= 57
    ensures AfterPrefix(ds) == ds && AfterPrefix(['r' as int] + ds) == ds && AfterPrefix(['R' as int] + ds) == ds
    ensures AfterPrefix(['%' as int, 'r' as int] + ds) == ds && AfterPrefix(['%' as int, 'R' as int] + ds) == ds
  {
  }

  /** The time base registers under their names, and special registers under their numbers. */
  lemma {:induction false} TimeBaseNames(sprs: seq<Spr>)
    ensures Meant(TimeBase, ['t' as int, 'b' as int, 'l' as int], sprs) == 268
    ensures Meant(TimeBase, ['T' as int, 'B' as int, 'U' as int], sprs) == 269
  {
    var tbl: seq<byte>, tbu: seq<byte> := ['t' as int, 'b' as int, 'l' as int], ['T' as int, 'B' as int, 'U' as int];
    assert Lower(tbl) == [116, 98, 108] && Lower(tbu) == [116, 98, 117];
  }

  // ---- asmppc ------------------------------------------------------------------------

  /** What the words of the text mean for the operands from the i-th on, as far as there are words. */
  function Args(op: Opcode, sprs: seq<Spr>, text: seq<byte>, i: nat): (args: seq<u32>)
    requires i <= |op.fields|
    ensures |args| <= Given(op, |op.fields|) - Given(op, i)
    decreases |op.fields| - i
  {
    if i == |op.fields| then []
    else if op.fields[i].hint == Silent then Args(op, sprs, text, i + 1)
    else
      var c := NextWord(text);
      if c.word == [] then GivenGrows(op, i, |op.fields|); []
      else [Meant(op.fields[i].hint, c.word, sprs)] + Args(op, sprs, c.rest, i + 1)
  }

  lemma {:induction false} GivenGrows(op: Opcode, i: nat, j: nat)
    requires i <= j <= |op.fields|
    ensures Given(op, i) <= Given(op, j)
  {
    if i < j { GivenGrows(op, i, j - 1); }
  }

  /** The operands before the n-th have been read. */
  predicate Underway(op: Opcode, sprs: seq<Spr>, args: seq<u32>, done: seq<u32>, rest: seq<byte>, n: nat)
    requires n <= |op.fields|
  {
    |done| == Given(op, n) && args == done + Args(op, sprs, rest, n)
  }

  lemma {:induction false} UnderwayOn(op: Opcode, sprs: seq<Spr>, args: seq<u32>, done: seq<u32>, rest: seq<byte>,
                                      n: nat)
    requires n < |op.fields| && op.fields[n].hint != Silent && Underway(op, sprs, args, done, rest, n)
    ensures var c := NextWord(rest);
            if c.word == [] then |args| == Given(op, n)
            else var v := Meant(op.fields[n].hint, c.word, sprs);
                 && Given(op, n) < |args| && args[Given(op, n)] == v
                 && Underway(op, sprs, args, done + [v], c.rest, n + 1)
  {
    var c := NextWord(rest);
    if c.word != [] {
      NextArg(args, done, Meant(op.fields[n].hint, c.word, sprs), Args(op, sprs, c.rest, n + 1));
    }
  }

  /** The loop of asmppc over the operands. */
  method Assemble(op: Opcode, sprs: seq<Spr>, memaddr: u32, text: seq<byte>) returns (a: Assembly)
    requires WellFormed(op)
    ensures a == Assembled(op, memaddr, Args(op, sprs, text, 0), |op.fields|)
  {
    var instr, n, rest := op.word, 0, text;
    ghost var args, done: seq<u32> := Args(op, sprs, text, 0), [];
    while n < |op.fields|
      invariant 0 <= n <= |op.fields| && Underway(op, sprs, args, done, rest, n)
      invariant Assembled(op, memaddr, args, n) == Instr(instr)
    {
      var o := op.fields[n];
      if o.hint == Silent {
        n := n + 1;
        continue;
      }
      a, rest, done := AssembleNext(op, sprs, memaddr, instr, rest, n, args, done);
      n := n + 1;
      if a.Failed? {
        StaysFailed(op, memaddr, args, n, |op.fields|);
        return;
      }
      instr := a.word;
    }
    a := Instr(instr);
  }

  /** One operand that is given in the text. */
  method AssembleNext(op: Opcode, sprs: seq<Spr>, memaddr: u32, instr: Word, text: seq<byte>, n: nat,
                      ghost args: seq<u32>, ghost done: seq<u32>)
    returns (a: Assembly, rest: seq<byte>, ghost next: seq<u32>)
    requires WellFormed(op) && n < |op.fields| && op.fields[n].hint != Silent
    requires Underway(op, sprs, args, done, text, n) && Assembled(op, memaddr, args, n) == Instr(instr)
    ensures a == Assembled(op, memaddr, args, n + 1)
    ensures a.Instr? ==> Underway(op, sprs, args, next, rest, n + 1)
  {
    var o := op.fields[n];
    var word: seq<byte>;
    UnderwayOn(op, sprs, args, done, text, n);
    word, rest := GetWord(text);
    next := done;
    if word == [] { return Failed(NumOperands), rest, next; }
    var v := Meant(o.hint, word, sprs);
    next := done + [v];
    var param := Code(o, op.relative, memaddr, v);
    if param.Refused? { return Failed(param.error), rest, next; }
    a := Instr(Merged(instr, Placed(o, param.bits)));
  }

  lemma {:induction false} NextArg(args: seq<u32>, done: seq<u32>, v: u32, rest: seq<u32>)
    requires args == done + ([v] + rest)
    ensures |done| < |args| && args[|done|] == v && args == (done + [v]) + rest
  {
  }

  /** The first opcode with a name. */
  function OpcodeNamed(table: seq<Opcode>, name: seq<byte>, from: nat): (k: int)
    requires from <= |table|
    ensures k == -1 || (from <= k < |table| && table[k].name == name)
    decreases |table| - from
  {
    if from == |table| then -1 else if table[from].name == name then from else OpcodeNamed(table, name, from + 1)
  }

  /** find_opcode_by_name. */
  method FindOpcodeByName(table: seq<Opcode>, name: seq<byte>) returns (k: int)
    ensures k == OpcodeNamed(table, Lower(name), 0)
  {
    var lower := Lower(name);
    k := 0;
    while k < |table|
      invariant 0 <= k <= |table| && OpcodeNamed(table, lower, 0) == OpcodeNamed(table, lower, k)
    {
      if table[k].name == lower { return k; }
      k := k + 1;
    }
    k := -1;
  }

  /** What a line assembles to; an empty line is no error and gives the word 0. */
  function LineAssembled(table: seq<Opcode>, sprs: seq<Spr>, memaddr: u32, line: seq<byte>): Assembly
    requires forall k :: 0 <= k < |table| ==> WellFormed(table[k])
  {
    var c := NextWord(line);
    if c.word == [] then Instr(Bits(0, 32))
    else
      var k := OpcodeNamed(table, Lower(c.word), 0);
      if k < 0 then Failed(BadOpcode)
      else Assembled(table[k], memaddr, Args(table[k], sprs, c.rest, 0), |table[k].fields|)
  }

  /** asmppc. */
  method Asmppc(table: seq<Opcode>, sprs: seq<Spr>, memaddr: u32, line: seq<byte>) returns (a: Assembly)
    requires forall k :: 0 <= k < |table| ==> WellFormed(table[k])
    ensures a == LineAssembled(table, sprs, memaddr, line)
  {
    var name, rest := GetWord(line);
    if name == [] { return Instr(Bits(0, 32)); }
    var k := FindOpcodeByName(table, name);
    if k < 0 { return Failed(BadOpcode); }
    a := Assemble(table[k], sprs, memaddr, rest);
  }
}
