/** The loops of cmd_fdt.c that read a property value from the words of a command and print one, and of
    simple_strtoul, against the text functions of FdtText. */
module FdtCommands {
  import opened Machine
  import opened CType
  import opened FdtText
  import opened Numerals

  /** simple_strtoul: the value, and how many characters it used. */
  method SimpleStrtoul(cp: seq<byte>, base0: nat) returns (value: u32, used: nat)
    ensures used <= |cp| && Strtoul(cp, base0) == Num(value, cp[used..])
  {
    var base: nat;
    used, base := Prefix(cp, base0);
    value := 0;
    ghost var result := Strtoul(cp, base0);
    while used < |cp| && IsXdigit(cp[used]) && Digit(cp[used]) < base
      invariant used <= |cp| && Scan(value, cp[used..], base) == result
    {
      assert cp[used..][1..] == cp[used + 1..];
      value := Wrap(value * base + Digit(cp[used]));
      used := used + 1;
    }
  }

  /** The prefix decides the base. */
  method Prefix(cp: seq<byte>, base0: nat) returns (used: nat, base: nat)
    ensures used <= |cp| && Strtoul(cp, base0) == Scan(0, cp[used..], base)
  {
    base := base0;
    used := 0;
    if used < |cp| && cp[used] == 48 {
      used := used + 1;
      if used + 1 < |cp| && cp[used] == 120 && IsXdigit(cp[used + 1]) {
        base := 16;
        used := used + 1;
      }
      if base == 0 { base := 8; }
    }
    if base == 0 { base := 10; }
    assert used == 0 ==> cp[used..] == cp;
  }

  // ---- fdt_parse_prop ----------------------------------------------------------------

  /** The characters of the words from the i-th on. */
  function Size(words: seq<seq<byte>>, i: nat): nat
    requires i <= |words|
    decreases |words| - i
  {
    if i == |words| then 0 else |words[i]| + Size(words, i + 1)
  }

  /** What the reading loops make of the rest of the words, from a place in one of them on. */
  function Rest(kind: Kind, words: seq<seq<byte>>, i: nat, pos: nat, out: seq<byte>, beyond: byte): Outcome
    requires i <= |words| && (i < |words| ==> pos <= |words[i]|)
  {
    if i == |words| then Ended(kind, out, beyond) else Items(kind, words[i][pos..], words[i + 1..], out, beyond)
  }

  /** At the end of a word reading goes on with the next. */
  lemma {:induction false} NextWord(kind: Kind, words: seq<seq<byte>>, i: nat, pos: nat, out: seq<byte>, beyond: byte)
    requires i < |words| && pos == |words[i]|
    ensures Rest(kind, words, i + 1, 0, out, beyond) == Rest(kind, words, i, pos, out, beyond)
  {
    assert words[i][pos..] == [];
    if i + 1 < |words| {
      assert words[i + 1..][1..] == words[i + 2..] && words[i + 1][0..] == words[i + 1];
    }
  }

  /** Where the next item does not start with a bracket or a space, it is a number or an error. */
  lemma {:induction false} NextItem(kind: Kind, words: seq<seq<byte>>, i: nat, pos: nat, out: seq<byte>, n: Num,
                                    beyond: byte)
    requires i < |words| && pos < |words[i]| && words[i][pos] != Close(kind)
    requires kind == Bytes ==> words[i][pos] != SPACE && IsXdigit(words[i][pos])
    requires n == Strtoul(words[i][pos..], Base(kind))
    ensures |n.rest| == |words[i]| - pos ==> Rest(kind, words, i, pos, out, beyond) == Error
    ensures |n.rest| < |words[i]| - pos ==>
      Rest(kind, words, i, pos, out, beyond)
      == Items(kind, if kind == Cells then Skip(n.rest) else n.rest, words[i + 1..], out + Stored(kind, n.value),
               beyond)
  {
  }

  /** Words that fit the scratch buffer: four bytes for each character are enough. */
  predicate Fits(words: seq<seq<byte>>, i: nat, pos: nat, len: nat, room: nat)
    requires i <= |words|
  {
    len + 4 * (Size(words, i) - pos) <= room
  }

  method PutCell(data: array<byte>, len: nat, v: u32)
    requires len + 4 <= data.Length
    modifies data
    ensures data[..len + 4] == old(data[..len]) + Stored(Cells, v)
  {
    var high, low := v / 0x1_0000, v % 0x1_0000;
    data[len], data[len + 1], data[len + 2], data[len + 3] := high / 0x100, high % 0x100, low / 0x100, low % 0x100;
  }

  /** The loop over the cells. */
  method ParseCells(words: seq<seq<byte>>, data: array<byte>, beyond: byte) returns (rc: int, len: nat)
    requires words != [] && words[0] != [] && 4 * Size(words, 0) <= data.Length
    modifies data
    ensures match Rest(Cells, words, 0, 1, [], beyond)
            case Read(bytes) => rc == 0 && len <= data.Length && data[..len] == bytes
            case Error => rc == 1
  {
    ghost var result := Rest(Cells, words, 0, 1, [], beyond);
    var i: nat, pos: nat := 0, 1;
    len := 0;
    while i < |words| && (pos == |words[i]| || words[i][pos] != 62)
      invariant i <= |words| && (i < |words| ==> pos <= |words[i]|) && len <= data.Length
      invariant Fits(words, i, pos, len, data.Length)
      invariant Rest(Cells, words, i, pos, data[..len], beyond) == result
      decreases |words| - i, if i < |words| then |words[i]| - pos else 0
    {
      if pos == |words[i]| {
        NextWord(Cells, words, i, pos, data[..len], beyond);
        i, pos := i + 1, 0;
        continue;
      }
      var ok: bool;
      ok, pos := ReadCell(words, i, pos, data, len, beyond);
      len := len + 4;
      if !ok { return 1, len; }
    }
    if i == |words| && beyond != 62 { return 1, len; }
    return 0, len;
  }

  /** A cell is converted and stored, and only then checked. */
  method ReadCell(words: seq<seq<byte>>, i: nat, pos0: nat, data: array<byte>, len: nat, beyond: byte)
    returns (ok: bool, pos: nat)
    requires i < |words| && pos0 < |words[i]| && words[i][pos0] != 62 && len + 4 <= data.Length
    modifies data
    ensures !ok ==> Rest(Cells, words, i, pos0, old(data[..len]), beyond) == Error
    ensures ok ==> pos0 < pos <= |words[i]|
    ensures ok ==>
      Rest(Cells, words, i, pos, data[..len + 4], beyond) == Rest(Cells, words, i, pos0, old(data[..len]), beyond)
  {
    var v: u32, used: nat;
    v, used := SimpleStrtoul(words[i][pos0..], 0);
    ghost var out := data[..len];
    ok := used != 0;
    pos := SkipSpaces(words[i], pos0 + used);
    CellRead(words, i, pos0, used, pos, v, out, beyond);
    PutCell(data, len, v);
  }

  lemma {:induction false} CellRead(words: seq<seq<byte>>, i: nat, pos0: nat, used: nat, pos: nat, v: u32,
                                    out: seq<byte>, beyond: byte)
    requires i < |words| && pos0 < |words[i]| && words[i][pos0] != 62 && used <= |words[i]| - pos0
    requires Strtoul(words[i][pos0..], 0) == Num(v, words[i][pos0..][used..])
    requires pos <= |words[i]| && words[i][pos..] == Skip(words[i][pos0 + used..])
    ensures used == 0 ==> Rest(Cells, words, i, pos0, out, beyond) == Error
    ensures used > 0 ==>
      Rest(Cells, words, i, pos, out + Stored(Cells, v), beyond) == Rest(Cells, words, i, pos0, out, beyond)
  {
    NextItem(Cells, words, i, pos0, out, Num(v, words[i][pos0..][used..]), beyond);
    assert words[i][pos0..][used..] == words[i][pos0 + used..];
  }

  method SkipSpaces(word: seq<byte>, pos0: nat) returns (pos: nat)
    requires pos0 <= |word|
    ensures pos0 <= pos <= |word| && word[pos..] == Skip(word[pos0..])
    ensures pos < |word| ==> word[pos] != SPACE
  {
    pos := pos0;
    while pos < |word| && word[pos] == SPACE
      invariant pos0 <= pos <= |word| && Skip(word[pos..]) == Skip(word[pos0..])
    {
      assert word[pos..][1..] == word[pos + 1..];
      pos := pos + 1;
    }
  }

  /** The loop over the bytes. */
  method ParseBytes(words: seq<seq<byte>>, data: array<byte>, beyond: byte) returns (rc: int, len: nat)
    requires words != [] && words[0] != [] && 4 * Size(words, 0) <= data.Length
    modifies data
    ensures match Rest(Bytes, words, 0, 1, [], beyond)
            case Read(bytes) => rc == 0 && len <= data.Length && data[..len] == bytes
            case Error => rc == 1
  {
    ghost var result := Rest(Bytes, words, 0, 1, [], beyond);
    var i: nat, pos: nat := 0, 1;
    len := 0;
    while i < |words| && (pos == |words[i]| || words[i][pos] != 93)
      invariant i <= |words| && (i < |words| ==> pos <= |words[i]|) && len <= data.Length
      invariant Fits(words, i, pos, len, data.Length)
      invariant Rest(Bytes, words, i, pos, data[..len], beyond) == result
      decreases |words| - i, if i < |words| then |words[i]| - pos else 0
    {
      ghost var pos0 := pos;
      pos := SkipSpaces(words[i], pos);
      SkippedRest(words, i, pos0, pos, data[..len], beyond);
      if pos == |words[i]| {
        NextWord(Bytes, words, i, pos, data[..len], beyond);
        i, pos := i + 1, 0;
        continue;
      }
      if !IsXdigit(words[i][pos]) { break; }
      pos := ReadByte(words, i, pos, data, len, beyond);
      len := len + 1;
    }
    if (if i == |words| then beyond else words[i][pos]) != 93 { return 1, len; }
    return 0, len;
  }

  /** Spaces in front of a byte have no effect. */
  lemma {:induction false} SkippedRest(words: seq<seq<byte>>, i: nat, pos0: nat, pos: nat, out: seq<byte>, beyond: byte)
    requires i < |words| && pos0 <= pos <= |words[i]| && words[i][pos..] == Skip(words[i][pos0..])
    ensures Rest(Bytes, words, i, pos, out, beyond) == Rest(Bytes, words, i, pos0, out, beyond)
  {
    SkipTwice(words[i][pos0..]);
  }

  lemma {:induction false} SkipTwice(s: seq<byte>)
    ensures Skip(Skip(s)) == Skip(s)
  {
    if s != [] && s[0] == SPACE { SkipTwice(s[1..]); }
  }

  method ReadByte(words: seq<seq<byte>>, i: nat, pos0: nat, data: array<byte>, len: nat, beyond: byte)
    returns (pos: nat)
    requires i < |words| && pos0 < |words[i]| && IsXdigit(words[i][pos0]) && len < data.Length
    modifies data
    ensures pos0 < pos <= |words[i]|
    ensures Rest(Bytes, words, i, pos, data[..len + 1], beyond) == Rest(Bytes, words, i, pos0, old(data[..len]), beyond)
  {
    var v: u32, used: nat;
    v, used := SimpleStrtoul(words[i][pos0..], 16);
    ghost var n := Num(v, words[i][pos0..][used..]);
    NextItem(Bytes, words, i, pos0, data[..len], n, beyond);
    Advances(words[i][pos0..]);
    data[len] := v % 0x100;
    assert data[..len + 1] == old(data[..len]) + Stored(Bytes, v);
    pos := pos0 + used;
    assert words[i][pos0..][used..] == words[i][pos..];
  }

  /** A text that starts with a hexadecimal digit is at least one digit of a number. */
  lemma {:induction false} Advances(s: seq<byte>)
    requires s != [] && IsXdigit(s[0])
    ensures |Strtoul(s, 16).rest| < |s|
  {
  }

  /** The loop over strings. */
  method ParseStrings(words: seq<seq<byte>>, data: array<byte>) returns (len: nat)
    requires Size(words, 0) + |words| <= data.Length
    modifies data
    ensures len <= data.Length && data[..len] == Strings(words)
  {
    len := 0;
    var i := 0;
    assert words[0..] == words;
    while i < |words|
      invariant i <= |words| && len + Size(words, i) + (|words| - i) <= data.Length
      invariant data[..len] + Strings(words[i..]) == Strings(words)
    {
      CopyString(data, len, words[i]);
      assert words[i..][1..] == words[i + 1..];
      len := len + |words[i]| + 1;
      i := i + 1;
    }
  }

  /** strcpy. */
  method CopyString(data: array<byte>, at: nat, word: seq<byte>)
    requires at + |word| + 1 <= data.Length
    modifies data
    ensures data[..at + |word| + 1] == old(data[..at]) + (word + [0])
  {
    for k := 0 to |word|
      invariant data[..at] == old(data[..at]) && data[at..at + k] == word[..k]
    {
      data[at + k] := word[k];
    }
    data[at + |word|] := 0;
    assert data[..at + |word| + 1] == data[..at] + data[at..at + |word|] + [0];
  }

  /** fdt_parse_prop. */
  method ParseProp(words: seq<seq<byte>>, data: array<byte>, beyond: byte) returns (rc: int, len: nat)
    requires words != [] && 4 * Size(words, 0) + |words| <= data.Length
    modifies data
    ensures match Parse(words, beyond)
            case Read(bytes) => rc == 0 && len <= data.Length && data[..len] == bytes
            case Error => rc == 1
  {
    var first := words[0];
    if first != [] && first[0] == 60 {
      rc, len := ParseCells(words, data, beyond);
    } else if first != [] && first[0] == 91 {
      rc, len := ParseBytes(words, data, beyond);
    } else {
      rc := 0;
      len := ParseStrings(words, data);
    }
  }

  // ---- print_data --------------------------------------------------------------------

  /** A NUL, a space or a printable character of the character table. */
  predicate Textual(c: byte) {
    c == 0 || IsPrint(c) || IsSpace(c)
  }

  /** All but the control characters that are not blanks. */
  lemma {:induction false} TextualIs(c: byte)
    ensures Textual(c) <==> c == 0 || 9 <= c <= 13 || 32 <= c <= 126 || c >= 160
  {
  }

  predicate TwoNuls(data: seq<byte>, i: int) {
    0 <= i < |data| - 1 && data[i] == 0 && data[i + 1] == 0
  }

  /** One or more strings, each ended by a NUL, of which only the last may be missing: then the value
      ends with a newline and the byte behind it is 0. */
  ghost predicate Printable(data: seq<byte>, next: byte) {
    && data != [] && (data[|data| - 1] == 0 || (data[|data| - 1] == 10 && next == 0))
    && (forall i :: 0 <= i < |data| ==> Textual(data[i]))
    && forall i :: 0 <= i < |data| ==> !TwoNuls(data, i)
  }

  /** is_printable_string; `next` is the byte behind the value, which it looks at. */
  method IsPrintableString(data: seq<byte>, next: byte) returns (yes: bool)
    ensures yes <==> Printable(data, next)
  {
    var len := |data|;
    if len == 0 { return false; }
    if data[len - 1] != 0 && data[len - 1] != 10 { return false; }
    var i := 0;
    while i < len && Textual(data[i])
      invariant 0 <= i <= len
      invariant forall j :: 0 <= j < i ==> Textual(data[j]) && !TwoNuls(data, j)
      invariant i == len ==> data[len - 1] != 0
    {
      if data[i] == 0 {
        if i == len - 1 { return true; }
        if data[i + 1] == 0 {
          assert TwoNuls(data, i);
          return false;
        }
      }
      i := i + 1;
    }
    yes := i == len && next == 0;
  }

  /** What print_data does with a property. */
  datatype Printout = Nothing | Quoted | Summary | Plain(text: seq<byte>)

  /** print_data: every value that is not a string and within the limit is shown as cells or bytes. */
  method PrintData(data: seq<byte>, next: byte, limit: nat) returns (p: Printout)
    ensures p == Nothing <==> data == []
    ensures p == Quoted <==> Printable(data, next)
    ensures p == Summary <==> data != [] && !Printable(data, next) && |data| > limit
    ensures p.Plain? ==> p.text == Shown(data)
  {
    var len := |data|;
    if len == 0 { return Nothing; }
    var str := IsPrintableString(data, next);
    if str { return Quoted; }
    if len > limit { return Summary; }
    var text := Print(data);
    p := Plain(text);
  }

  /** The two loops that print values. */
  method Print(data: seq<byte>) returns (text: seq<byte>)
    requires data != []
    ensures text == Shown(data)
  {
    var kind := KindOf(data);
    var n := |data| / Width(kind);
    HowMany(kind, data);
    text := PrintValues(kind, data, n);
  }

  method PrintValues(kind: Kind, data: seq<byte>, n: nat) returns (text: seq<byte>)
    requires |data| % Width(kind) == 0 && |Values(kind, data)| == n > 0 && n * Width(kind) == |data|
    ensures text == [Open(kind)] + Text(kind, Values(kind, data))
  {
    ghost var vs := Values(kind, data);
    ghost var all := [Open(kind)] + Text(kind, vs);
    text := [Open(kind)];
    assert vs[0..] == vs;
    for j := 0 to n
      invariant text + Tail(kind, vs, j) == all
    {
      InData(kind, data, n, j);
      var item := Item(kind, Value(kind, data, j), j < n - 1);
      Printed(kind, vs, j, text, item);
      text := text + item;
    }
    text := text + [Close(kind)];
  }

  lemma {:induction false} InData(kind: Kind, data: seq<byte>, n: nat, j: nat)
    requires |data| % Width(kind) == 0 && n * Width(kind) == |data| && j < n
    ensures (j + 1) * Width(kind) <= |data|
    ensures j < |Values(kind, data)| && Values(kind, data)[j] == Value(kind, data, j)
  {
    if kind == Bytes { assert Width(kind) == 1; }
    ValueAt(kind, data, j);
  }

  lemma {:induction false} Printed(kind: Kind, vs: seq<u32>, j: nat, text: seq<byte>, item: seq<byte>)
    requires j < |vs| && forall i :: 0 <= i < |vs| ==> InRange(kind, vs[i])
    requires item == Item(kind, vs[j], j < |vs| - 1)
    ensures (text + item) + Tail(kind, vs, j + 1) == text + Tail(kind, vs, j)
  {
    NextText(kind, vs, j);
    assert (text + item) + Tail(kind, vs, j + 1) == text + (item + Tail(kind, vs, j + 1));
  }

  /** p[j] or s[j]. */
  function Value(kind: Kind, data: seq<byte>, j: nat): (v: u32)
    requires (j + 1) * Width(kind) <= |data|
    ensures InRange(kind, v)
  {
    if kind == Cells then FromBigEndian(data[4 * j..4 * j + 4]) else data[j]
  }

  function Item(kind: Kind, v: u32, more: bool): seq<byte>
    requires InRange(kind, v)
  {
    Token(kind, v) + if more then [SPACE] else []
  }

  /** What is still to be printed. */
  function Tail(kind: Kind, vs: seq<u32>, j: nat): seq<byte>
    requires j <= |vs| && forall i :: 0 <= i < |vs| ==> InRange(kind, vs[i])
  {
    if j < |vs| then Text(kind, vs[j..]) else [Close(kind)]
  }

  lemma {:induction false} NextText(kind: Kind, vs: seq<u32>, j: nat)
    requires j < |vs| && forall i :: 0 <= i < |vs| ==> InRange(kind, vs[i])
    ensures Tail(kind, vs, j) == Item(kind, vs[j], j < |vs| - 1) + Tail(kind, vs, j + 1)
  {
    assert vs[j..][1..] == vs[j + 1..];
  }

  lemma {:induction false} HowMany(kind: Kind, data: seq<byte>)
    requires |data| % Width(kind) == 0
    ensures |Values(kind, data)| * Width(kind) == |data|
    decreases |data|
  {
    if data != [] { HowMany(kind, data[Width(kind)..]); }
  }

  lemma {:induction false} ValueAt(kind: Kind, data: seq<byte>, j: nat)
    requires |data| % Width(kind) == 0 && (j + 1) * Width(kind) <= |data|
    ensures j < |Values(kind, data)|
    ensures Values(kind, data)[j] == Value(kind, data, j)
    decreases j
  {
    if j > 0 {
      var w := Width(kind);
      ValueAt(kind, data[w..], j - 1);
      if kind == Cells { assert data[4..][4 * (j - 1)..4 * (j - 1) + 4] == data[4 * j..4 * j + 4]; }
    }
  }
}
