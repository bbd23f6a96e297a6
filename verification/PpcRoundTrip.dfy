/** Exactly when the assembler of bedbug.c turns the line that the disassembler has printed for an
    instruction into that instruction again. */
module PpcRoundTrip {
  import opened Machine
  import opened CType
  import opened BitWords
  import opened Ppc
  import opened PpcText
  import opened PpcListing

  /** The opcodes of the table: a silent operand does not come first, and an offset is followed by the
      register that it is added to. */
  predicate TabledOpcode(op: Opcode) {
    && WellFormed(op)
    && (forall i :: 0 <= i < |op.fields| ==> Tabled(op.fields[i]))
    && (op.fields != [] ==> op.fields[0].hint != Silent)
    && forall i :: 0 <= i < |op.fields| && op.fields[i].hint == Offset ==>
         i + 1 < |op.fields| && op.fields[i + 1].hint == Register
  }

  predicate IsGiven(op: Opcode, j: int) {
    0 <= j < |op.fields| && op.fields[j].hint != Silent
  }

  /** A word that the opcode stands for: outside its operands it has the bits of the opcode. */
  ghost predicate Instance(op: Opcode, w: Word) {
    forall k :: 0 <= k < 32 && !OperandBit(op, k) ==> w[k] == op.word[k]
  }

  ghost predicate OperandBit(op: Opcode, k: int) {
    exists j :: IsGiven(op, j) && Inside(op.fields[j], k)
  }

  predicate NoOffset(op: Opcode) {
    forall j :: 0 <= j < |op.fields| ==> op.fields[j].hint != Offset
  }

  predicate AllReadable(op: Opcode, w: Word, sprs: seq<Spr>)
    requires WellFormed(op)
  {
    forall j :: 0 <= j < |op.fields| && op.fields[j].hint != Silent ==>
      Readable(op.fields[j], Value(op.fields[j], w), sprs)
  }

  // ---- The words of a listing without offsets ----------------------------------------

  /** What is still to be read when the i-th operand comes: the comma in front of it is gone. */
  function Unread(op: Opcode, w: Word, base: u32, sprs: seq<Spr>, i: nat): seq<byte>
    requires WellFormed(op) && i <= |op.fields|
  {
    var s := Listed(op, w, base, sprs, i, false);
    if i > 0 && s != [] then s[1..] else s
  }

  function Token(op: Opcode, w: Word, base: u32, sprs: seq<Spr>, j: nat): seq<byte>
    requires WellFormed(op) && j < |op.fields|
  {
    Shown(op, op.fields[j], Value(op.fields[j], w), base, sprs)
  }

  lemma {:induction false} StartsWithComma(op: Opcode, w: Word, base: u32, sprs: seq<Spr>, i: nat)
    requires WellFormed(op) && 0 < i <= |op.fields|
    ensures var s := Listed(op, w, base, sprs, i, false); s == [] || s[0] == COMMA
    decreases |op.fields| - i
  {
    if i < |op.fields| && op.fields[i].hint == Silent { StartsWithComma(op, w, base, sprs, i + 1); }
  }

  lemma {:induction false} WithoutOffset(op: Opcode, w: Word, base: u32, sprs: seq<Spr>, i: nat)
    requires TabledOpcode(op) && NoOffset(op) && IsGiven(op, i)
    ensures Unread(op, w, base, sprs, i) == Token(op, w, base, sprs, i) + Listed(op, w, base, sprs, i + 1, false)
  {
    var item := Token(op, w, base, sprs, i) + Bracket(op.fields[i], false);
    var rest := Listed(op, w, base, sprs, i + 1, false);
    assert Bracket(op.fields[i], false) == [] && item == Token(op, w, base, sprs, i);
    assert ([COMMA] + (item + rest))[1..] == item + rest && [] + (item + rest) == item + rest;
  }

  /** The next word is the printed form of the next operand. */
  lemma {:induction false} TokenNext(op: Opcode, w: Word, base: u32, sprs: seq<Spr>, i: nat)
    requires TabledOpcode(op) && NoOffset(op) && SprTable(sprs) && IsGiven(op, i)
    ensures NextWord(Unread(op, w, base, sprs, i)) == Cut(Token(op, w, base, sprs, i), Unread(op, w, base, sprs, i + 1))
    ensures Token(op, w, base, sprs, i) != []
  {
    OperandReads(op, op.fields[i], w, base, sprs);
    WithoutOffset(op, w, base, sprs, i);
    StartsWithComma(op, w, base, sprs, i + 1);
    WordTaken(Token(op, w, base, sprs, i), Listed(op, w, base, sprs, i + 1, false));
  }

  function Meaning(op: Opcode, w: Word, base: u32, sprs: seq<Spr>, j: nat): u32
    requires WellFormed(op) && j < |op.fields|
  {
    Meant(op.fields[j].hint, Token(op, w, base, sprs, j), sprs)
  }

  /** The operands that are read from the i-th on. */
  function ArgsFrom(op: Opcode, w: Word, base: u32, sprs: seq<Spr>, i: nat): seq<u32>
    requires WellFormed(op) && i <= |op.fields|
  {
    Args(op, sprs, Unread(op, w, base, sprs, i), i)
  }

  lemma {:induction false} ArgsStep(op: Opcode, w: Word, base: u32, sprs: seq<Spr>, i: nat)
    requires TabledOpcode(op) && NoOffset(op) && SprTable(sprs) && i < |op.fields|
    ensures ArgsFrom(op, w, base, sprs, i)
         == (if IsGiven(op, i) then [Meaning(op, w, base, sprs, i)] else []) + ArgsFrom(op, w, base, sprs, i + 1)
  {
    if IsGiven(op, i) {
      TokenNext(op, w, base, sprs, i);
    } else {
      assert Unread(op, w, base, sprs, i) == Unread(op, w, base, sprs, i + 1);
      assert [] + ArgsFrom(op, w, base, sprs, i + 1) == ArgsFrom(op, w, base, sprs, i + 1);
    }
  }

  /** Of one value for each field, those of the given operands from the i-th on. */
  function Picked(op: Opcode, values: seq<u32>, i: nat): seq<u32>
    requires i <= |op.fields| == |values|
    decreases |op.fields| - i
  {
    if i == |op.fields| then [] else (if IsGiven(op, i) then [values[i]] else []) + Picked(op, values, i + 1)
  }

  lemma {:induction false} PickedAt(op: Opcode, values: seq<u32>, i: nat, j: nat)
    requires |values| == |op.fields| && i <= j && IsGiven(op, j)
    ensures 0 <= Given(op, j) - Given(op, i) < |Picked(op, values, i)|
    ensures Picked(op, values, i)[Given(op, j) - Given(op, i)] == values[j]
    decreases j - i
  {
    var rest := Picked(op, values, i + 1);
    var front: seq<u32> := if IsGiven(op, i) then [values[i]] else [];
    assert Given(op, i + 1) == Given(op, i) + |front|;
    if i < j {
      PickedAt(op, values, i + 1, j);
      assert (front + rest)[|front| + (Given(op, j) - Given(op, i + 1))] == rest[Given(op, j) - Given(op, i + 1)];
    }
    assert Picked(op, values, i) == front + rest;
  }

  /** Each given operand is read as its value. */
  ghost predicate AsMeant(op: Opcode, values: seq<u32>, args: seq<u32>)
    requires |values| == |op.fields|
  {
    forall j :: IsGiven(op, j) ==> Given(op, j) < |args| && args[Given(op, j)] == values[j]
  }

  lemma {:induction false} PickedAsMeant(op: Opcode, values: seq<u32>)
    requires |values| == |op.fields|
    ensures AsMeant(op, values, Picked(op, values, 0))
  {
    forall j | IsGiven(op, j)
      ensures Given(op, j) < |Picked(op, values, 0)| && Picked(op, values, 0)[Given(op, j)] == values[j]
    {
      PickedAt(op, values, 0, j);
    }
  }

  function Meanings(op: Opcode, w: Word, base: u32, sprs: seq<Spr>): (values: seq<u32>)
    requires WellFormed(op)
    ensures |values| == |op.fields|
  {
    seq(|op.fields|, j requires 0 <= j < |op.fields| => Meaning(op, w, base, sprs, j))
  }

  /** They are what the printed forms mean. */
  lemma {:induction false} ArgsAre(op: Opcode, w: Word, base: u32, sprs: seq<Spr>, i: nat)
    requires TabledOpcode(op) && NoOffset(op) && SprTable(sprs) && i <= |op.fields|
    ensures ArgsFrom(op, w, base, sprs, i) == Picked(op, Meanings(op, w, base, sprs), i)
    decreases |op.fields| - i
  {
    if i < |op.fields| {
      ArgsStep(op, w, base, sprs, i);
      ArgsAre(op, w, base, sprs, i + 1);
    }
  }

  lemma {:induction false} ListingAsMeant(op: Opcode, w: Word, base: u32, sprs: seq<Spr>)
    requires TabledOpcode(op) && NoOffset(op) && SprTable(sprs)
    ensures AsMeant(op, Meanings(op, w, base, sprs), Args(op, sprs, Listed(op, w, base, sprs, 0, false), 0))
  {
    ArgsAre(op, w, base, sprs, 0);
    PickedAsMeant(op, Meanings(op, w, base, sprs));
  }

  // ---- A listing with an offset has a word too few -----------------------------------

  function Commas(s: seq<byte>): nat {
    if s == [] then 0 else (if s[0] == COMMA then 1 else 0) + Commas(s[1..])
  }

  predicate NoBlank(s: seq<byte>) {
    forall c :: c in s ==> !Blank(c)
  }

  lemma {:induction false} CommasAppend(s: seq<byte>, t: seq<byte>)
    ensures Commas(s + t) == Commas(s) + Commas(t)
  {
    if s == [] { assert s + t == t; } else {
      assert (s + t)[1..] == s[1..] + t;
      CommasAppend(s[1..], t);
    }
  }

  lemma {:induction false} NoCommas(s: seq<byte>)
    requires COMMA !in s
    ensures Commas(s) == 0
  {
    if s != [] {
      assert s[0] in s;
      NoCommas(s[1..]);
    }
  }

  /** Each word but the last takes a comma away. */
  lemma {:induction false} TakeCommas(s: seq<byte>)
    requires NoBlank(s)
    ensures var r := Take(s).rest; NoBlank(r) && if Commas(s) == 0 then r == [] else Commas(r) == Commas(s) - 1
  {
    if s != [] {
      assert s[0] in s && forall c :: c in s[1..] ==> c in s;
      if s[0] != COMMA { TakeCommas(s[1..]); }
    }
  }

  lemma {:induction false} NoArgs(op: Opcode, sprs: seq<Spr>, i: nat)
    requires i <= |op.fields|
    ensures Args(op, sprs, [], i) == []
    decreases |op.fields| - i
  {
    if i < |op.fields| { NoArgs(op, sprs, i + 1); }
  }

  lemma {:induction false} FewWords(op: Opcode, sprs: seq<Spr>, s: seq<byte>, i: nat)
    requires i <= |op.fields| && NoBlank(s)
    ensures |Args(op, sprs, s, i)| <= Commas(s) + 1
    decreases |op.fields| - i
  {
    if i < |op.fields| {
      assert s != [] ==> s[0] in s;
      TakeCommas(s);
      if op.fields[i].hint == Silent {
        FewWords(op, sprs, s, i + 1);
      } else if Commas(s) == 0 {
        NoArgs(op, sprs, i + 1);
      } else {
        FewWords(op, sprs, Take(s).rest, i + 1);
      }
    }
  }

  /** The commas of a listing. */
  function Separators(op: Opcode, i: nat, open: bool): nat
    requires i <= |op.fields|
    decreases |op.fields| - i
  {
    if i == |op.fields| then 0
    else if op.fields[i].hint == Silent then Separators(op, i + 1, open)
    else (if i > 0 && !open then 1 else 0) + Separators(op, i + 1, OpenAfter(op.fields[i], open))
  }

  lemma {:induction false} ListedCommas(op: Opcode, w: Word, base: u32, sprs: seq<Spr>, i: nat, open: bool)
    requires TabledOpcode(op) && SprTable(sprs) && i <= |op.fields|
    ensures var s := Listed(op, w, base, sprs, i, open); Commas(s) == Separators(op, i, open) && NoBlank(s)
    decreases |op.fields| - i
  {
    if i < |op.fields| {
      var o := op.fields[i];
      if o.hint == Silent {
        ListedCommas(op, w, base, sprs, i + 1, open);
      } else {
        ListedCommas(op, w, base, sprs, i + 1, OpenAfter(o, open));
        OperandReads(op, o, w, base, sprs);
        ItemCommas(if i > 0 && !open then [COMMA] else [], Token(op, w, base, sprs, i), Bracket(o, open),
                   Listed(op, w, base, sprs, i + 1, OpenAfter(o, open)));
      }
    }
  }

  lemma {:induction false} ItemCommas(comma: seq<byte>, token: seq<byte>, bracket: seq<byte>, rest: seq<byte>)
    requires comma == [COMMA] || comma == []
    requires Solid(token) && bracket in [[], [40], [41]] && NoBlank(rest)
    ensures var s := comma + (token + bracket + rest); Commas(s) == |comma| + Commas(rest) && NoBlank(s)
  {
    CommasAppend(comma, token + bracket + rest);
    CommasAppend(token + bracket, rest);
    NoCommas(token + bracket);
    assert comma == [COMMA] ==> comma[1..] == [];
  }

  lemma {:induction false} SeparatorsAtMost(op: Opcode, i: nat, open: bool)
    requires i <= |op.fields|
    ensures Separators(op, i, open) <= Given(op, |op.fields|) - Given(op, i)
    decreases |op.fields| - i
  {
    if i < |op.fields| {
      var o := op.fields[i];
      SeparatorsAtMost(op, i + 1, if o.hint == Silent then open else OpenAfter(o, open));
    }
  }

  /** Between an offset and its register there is a parenthesis instead of a comma. */
  lemma {:induction false} SeparatorMissing(op: Opcode, i: nat, open: bool, j: nat)
    requires TabledOpcode(op) && i <= j < |op.fields| && op.fields[j].hint == Offset && (i == 0 ==> !open)
    ensures Separators(op, i, open) + 1 + (if i == 0 then 1 else 0) <= Given(op, |op.fields|) - Given(op, i)
    decreases j - i
  {
    if i < j {
      SeparatorMissing(op, i + 1, if op.fields[i].hint == Silent then open else OpenAfter(op.fields[i], open), j);
    } else {
      OffsetSeparators(op, i, open);
    }
  }

  lemma {:induction false} OffsetSeparators(op: Opcode, i: nat, open: bool)
    requires i + 1 < |op.fields| && op.fields[i].hint == Offset && op.fields[i + 1].hint == Register
    requires i == 0 ==> !open
    ensures Separators(op, i, open) + 1 + (if i == 0 then 1 else 0) <= Given(op, |op.fields|) - Given(op, i)
  {
    var register := op.fields[i + 1];
    assert Separators(op, i + 1, true) == Separators(op, i + 2, OpenAfter(register, true));
    SeparatorsAtMost(op, i + 2, OpenAfter(register, true));
    assert Given(op, i + 2) == Given(op, i + 1) + 1 == Given(op, i) + 2;
  }

  lemma {:induction false} TooFewWords(op: Opcode, w: Word, base: u32, sprs: seq<Spr>)
    requires TabledOpcode(op) && SprTable(sprs) && !NoOffset(op)
    ensures |Args(op, sprs, Listed(op, w, base, sprs, 0, false), 0)| < Given(op, |op.fields|)
  {
    var j :| 0 <= j < |op.fields| && op.fields[j].hint == Offset;
    SeparatorMissing(op, 0, false, j);
    ListedCommas(op, w, base, sprs, 0, false);
    FewWords(op, sprs, Listed(op, w, base, sprs, 0, false), 0);
  }

  // ---- The instruction that is assembled ---------------------------------------------

  lemma {:induction false} EnoughArgs(op: Opcode, memaddr: u32, args: seq<u32>, i: nat)
    requires WellFormed(op) && i <= |op.fields| && Assembled(op, memaddr, args, i).Instr?
    ensures Given(op, i) <= |args|
  {
    if i > 0 { EnoughArgs(op, memaddr, args, i - 1); }
  }

  /** The j-th operand was read as what the word has in its field. */
  predicate Matches(op: Opcode, memaddr: u32, args: seq<u32>, w: Word, j: int)
    requires WellFormed(op) && IsGiven(op, j)
  {
    && Given(op, j) < |args|
    && Code(op.fields[j], op.relative, memaddr, args[Given(op, j)]) == Coded(Field(op.fields[j], w))
  }

  lemma {:induction false} Accepted(op: Opcode, memaddr: u32, args: seq<u32>, w: Word, i: nat)
    requires WellFormed(op) && i <= |op.fields|
    requires forall j :: 0 <= j < i && IsGiven(op, j) ==> Matches(op, memaddr, args, w, j)
    ensures Assembled(op, memaddr, args, i).Instr?
  {
    if i > 0 {
      Accepted(op, memaddr, args, w, i - 1);
      if IsGiven(op, i - 1) { assert Matches(op, memaddr, args, w, i - 1); }
    }
  }

  /** Operands that match the fields of a word assemble to that word. */
  lemma {:induction false} AssembledWord(op: Opcode, memaddr: u32, args: seq<u32>, w: Word)
    requires WellFormed(op) && Instance(op, w)
    requires forall j :: IsGiven(op, j) ==> Matches(op, memaddr, args, w, j)
    ensures Assembled(op, memaddr, args, |op.fields|) == Instr(w)
  {
    Accepted(op, memaddr, args, w, |op.fields|);
    var a := Assembled(op, memaddr, args, |op.fields|).word;
    forall k | 0 <= k < 32 ensures a[k] == w[k] { BitAssembled(op, memaddr, args, w, k); }
  }

  lemma {:induction false} BitAssembled(op: Opcode, memaddr: u32, args: seq<u32>, w: Word, k: nat)
    requires WellFormed(op) && Instance(op, w) && k < 32 && Assembled(op, memaddr, args, |op.fields|).Instr?
    requires forall j :: IsGiven(op, j) ==> Matches(op, memaddr, args, w, j)
    ensures Assembled(op, memaddr, args, |op.fields|).word[k] == w[k]
  {
    if OperandBit(op, k) {
      var j :| IsGiven(op, j) && Inside(op.fields[j], k);
      assert Matches(op, memaddr, args, w, j);
      OperandsRecovered(op, memaddr, args, |op.fields|, j);
      SameBit(op.fields[j], Assembled(op, memaddr, args, |op.fields|).word, w, k);
    } else {
      forall j | 0 <= j < |op.fields| && op.fields[j].hint != Silent ensures !Inside(op.fields[j], k) {
        assert IsGiven(op, j);
      }
      OpcodeKept(op, memaddr, args, |op.fields|, k);
    }
  }

  lemma {:induction false} SameBit(o: Operand, a: Word, w: Word, k: nat)
    requires Proper(o) && k < 32 && Inside(o, k) && Field(o, a) == Field(o, w)
    ensures a[k] == w[k]
  {
    assert Field(o, a)[k - o.shift] == a[k] && Field(o, w)[k - o.shift] == w[k];
  }

  lemma {:induction false} BitsBack(b: seq<bool>)
    ensures Bits(Number(b), |b|) == b
  {
    if b != [] {
      BitsBack(b[1..]);
      assert Number(b) / 2 == Number(b[1..]) && b == [b[0]] + b[1..];
    }
  }

  /** A printed operand matches its field exactly if it is readable. */
  lemma {:induction false} MatchesIff(op: Opcode, w: Word, base: u32, sprs: seq<Spr>, args: seq<u32>, j: nat)
    requires TabledOpcode(op) && SprTable(sprs) && IsGiven(op, j) && AsMeant(op, Meanings(op, w, base, sprs), args)
    ensures Matches(op, base, args, w, j) <==> Readable(op.fields[j], Value(op.fields[j], w), sprs)
  {
    assert args[Given(op, j)] == Meaning(op, w, base, sprs, j);
    CodedIff(op, w, base, sprs, j);
  }

  lemma {:induction false} CodedIff(op: Opcode, w: Word, base: u32, sprs: seq<Spr>, j: nat)
    requires TabledOpcode(op) && SprTable(sprs) && IsGiven(op, j)
    ensures var o := op.fields[j];
            Code(o, op.relative, base, Meaning(op, w, base, sprs, j)) == Coded(Field(o, w))
            <==> Readable(o, Value(o, w), sprs)
  {
    OperandReads(op, op.fields[j], w, base, sprs);
    BitsBack(Field(op.fields[j], w));
  }

  /** The printed operands of an instruction assemble to that instruction if and only if none of them is an
      offset, none is a special register that has a name or the number 0, and none is an unknown time base
      register. */
  lemma {:induction false} Reassembled(op: Opcode, w: Word, base: u32, sprs: seq<Spr>)
    requires TabledOpcode(op) && Instance(op, w) && SprTable(sprs)
    ensures Assembled(op, base, Args(op, sprs, Listed(op, w, base, sprs, 0, false), 0), |op.fields|) == Instr(w)
       <==> NoOffset(op) && AllReadable(op, w, sprs)
  {
    var args := Args(op, sprs, Listed(op, w, base, sprs, 0, false), 0);
    var a := Assembled(op, base, args, |op.fields|);
    if !NoOffset(op) {
      TooFewWords(op, w, base, sprs);
      if a.Instr? { EnoughArgs(op, base, args, |op.fields|); }
    } else {
      ListingAsMeant(op, w, base, sprs);
      forall j | IsGiven(op, j)
        ensures Matches(op, base, args, w, j) <==> Readable(op.fields[j], Value(op.fields[j], w), sprs)
        ensures a == Instr(w) ==> Matches(op, base, args, w, j)
      {
        MatchesIff(op, w, base, sprs, args, j);
        if a == Instr(w) { OperandsRecovered(op, base, args, |op.fields|, j); }
      }
      if AllReadable(op, w, sprs) { AssembledWord(op, base, args, w); }
    }
  }

  // ---- Whole lines -------------------------------------------------------------------

  lemma {:induction false} SkipPadding(p: seq<byte>, s: seq<byte>)
    requires forall i :: 0 <= i < |p| ==> p[i] == 32
    ensures Skip(p + s) == Skip(s)
  {
    if p == [] { assert p + s == s; } else {
      assert (p + s)[1..] == p[1..] + s;
      SkipPadding(p[1..], s);
    }
  }

  /** Blanks in front of the operands have no effect. */
  lemma {:induction false} ArgsAfterPadding(op: Opcode, sprs: seq<Spr>, p: seq<byte>, s: seq<byte>)
    requires TabledOpcode(op) && forall i :: 0 <= i < |p| ==> p[i] == 32
    ensures Args(op, sprs, p + s, 0) == Args(op, sprs, s, 0)
  {
    SkipPadding(p, s);
  }

  /** A table of such opcodes, in which an opcode is found by its name. */
  ghost predicate OpcodeTable(table: seq<Opcode>) {
    && (forall k :: 0 <= k < |table| ==> TabledOpcode(table[k]))
    && forall k :: 0 <= k < |table| ==> Solid(table[k].name) && Lower(table[k].name) == table[k].name
  }

  /** The line that is printed for an instruction assembles to the instruction again exactly in that case. */
  lemma {:induction false} LineReassembled(table: seq<Opcode>, k: nat, w: Word, base: u32, sprs: seq<Spr>)
    requires OpcodeTable(table) && k < |table| && OpcodeNamed(table, table[k].name, 0) == k
    requires Instance(table[k], w) && SprTable(sprs)
    ensures LineAssembled(table, sprs, base, Line(table[k], w, base, sprs)) == Instr(w)
       <==> NoOffset(table[k]) && AllReadable(table[k], w, sprs)
  {
    var op := table[k];
    var text := Listed(op, w, base, sprs, 0, false);
    var pad := Padding(7 - |op.name|) + [32];
    assert Line(op, w, base, sprs) == op.name + (pad + text);
    assert LineAssembled(table, sprs, base, op.name + (pad + text))
        == Assembled(op, base, Args(op, sprs, text, 0), |op.fields|) by { LineIs(table, sprs, base, k, pad, text); }
    Reassembled(op, w, base, sprs);
  }

  lemma {:induction false} LineIs(table: seq<Opcode>, sprs: seq<Spr>, base: u32, k: nat, pad: seq<byte>,
                                  text: seq<byte>)
    requires OpcodeTable(table) && k < |table| && OpcodeNamed(table, table[k].name, 0) == k
    requires pad != [] && forall i :: 0 <= i < |pad| ==> pad[i] == 32
    ensures LineAssembled(table, sprs, base, table[k].name + (pad + text))
         == Assembled(table[k], base, Args(table[k], sprs, text, 0), |table[k].fields|)
  {
    WordTaken(table[k].name, pad + text);
    ArgsAfterPadding(table[k], sprs, pad, text);
  }

  /** A load with an offset is not accepted as it is printed. */
  lemma {:induction false} LoadNotReassembled(op: Opcode, w: Word, base: u32, sprs: seq<Spr>)
    requires op.word == seq(32, k => k == 31)
    requires op.fields == [Operand(5, 21, Register), Operand(15, 0, Offset), RA]
    requires SprTable(sprs)
    ensures Assembled(op, base, Args(op, sprs, Listed(op, w, base, sprs, 0, false), 0), 3).Failed?
  {
    assert op.fields[1].hint == Offset && TabledOpcode(op);
    TooFewWords(op, w, base, sprs);
    var args := Args(op, sprs, Listed(op, w, base, sprs, 0, false), 0);
    if Assembled(op, base, args, 3).Instr? { EnoughArgs(op, base, args, 3); }
  }

  /** Nor is the link register under the name that is printed for it. */
  lemma {:induction false} LinkRegisterNotFound(sprs: seq<Spr>, name: seq<byte>, base: u32)
    requires name == [76, 82] && sprs == [Spr(8, name)]
    ensures ByNumber(sprs, 8, 0) == 0
    ensures Code(Operand(10, 11, Special), false, base, Meant(Special, name, sprs)) == Refused(BadSpr)
  {
    assert IsUpper(name[0]) && Solid(name);
    assert CapitalName(sprs[0].name);
    NamesRefused(Operand(10, 11, Special), false, base, sprs, name);
  }
}
