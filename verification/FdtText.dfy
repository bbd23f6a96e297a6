/** Property values of cmd_fdt.c as text: how they are printed, how they are read back from the words
    of a command, and that the two fit together. The notation is that of section 6.3 of the Devicetree
    Specification: cells in angle brackets and bytes in square brackets. */
module FdtText {
  import opened Machine
  import opened Numerals

  const SPACE: byte := 32

  // ---- The two formats ---------------------------------------------------------------

  datatype Kind = Cells | Bytes

  function Open(kind: Kind): byte { if kind == Cells then 60 else 91 }
  function Close(kind: Kind): byte { if kind == Cells then 62 else 93 }
  function Base(kind: Kind): nat { if kind == Cells then 0 else 16 }

  predicate InRange(kind: Kind, v: u32) { kind == Cells || v < 256 }

  lemma {:induction false} Pow16Values()
    ensures Pow16(2) == 0x100 && Pow16(8) == 0x1_0000_0000
  {
    assert Pow16(4) == 0x1_0000;
  }

  /** "0x%08x" or "%02x". */
  function Token(kind: Kind, v: u32): seq<byte>
    requires InRange(kind, v)
  {
    Pow16Values();
    if kind == Cells then [48, 120] + Hex(v, 8) else Hex(v, 2)
  }

  /** The printed values, up to the closing bracket. */
  function Text(kind: Kind, vs: seq<u32>): seq<byte>
    requires forall i :: 0 <= i < |vs| ==> InRange(kind, vs[i])
  {
    if vs == [] then []
    else Token(kind, vs[0]) + if |vs| == 1 then [Close(kind)] else [SPACE] + Text(kind, vs[1..])
  }

  /** The number as it is put into the property: a big-endian cell, or its low byte. */
  function Stored(kind: Kind, v: u32): seq<byte> {
    if kind == Cells then BigEndian(v) else [v % 0x100]
  }

  function AllStored(kind: Kind, vs: seq<u32>): seq<byte> {
    if vs == [] then [] else Stored(kind, vs[0]) + AllStored(kind, vs[1..])
  }

  /** The words that are printed for a property: its cells or its bytes. */
  function Width(kind: Kind): nat { if kind == Cells then 4 else 1 }

  function Values(kind: Kind, data: seq<byte>): (vs: seq<u32>)
    requires |data| % Width(kind) == 0
    ensures forall i :: 0 <= i < |vs| ==> InRange(kind, vs[i])
    ensures data != [] ==> vs != []
  {
    if data == [] then []
    else if kind == Cells then [FromBigEndian(data[..4])] + Values(kind, data[4..])
    else [data[0]] + Values(kind, data[1..])
  }

  lemma {:induction false} ValuesStored(kind: Kind, data: seq<byte>)
    requires |data| % Width(kind) == 0
    ensures AllStored(kind, Values(kind, data)) == data
    decreases |data|
  {
    if data != [] {
      var w := Width(kind);
      var vs := Values(kind, data);
      ValuesStored(kind, data[w..]);
      if kind == Cells { BigEndianOf(data[..4]); }
      assert vs[1..] == Values(kind, data[w..]) && Stored(kind, vs[0]) == data[..w];
    }
  }

  // ---- Reading -----------------------------------------------------------------------

  function Skip(s: seq<byte>): (r: seq<byte>)
    ensures |r| <= |s|
  {
    if s != [] && s[0] == SPACE then Skip(s[1..]) else s
  }

  datatype Outcome = Read(data: seq<byte>) | Error

  /** Behind the last word the character to which the next entry of the argument vector points, a null
      pointer, is taken for the end of the value. */
  function Ended(kind: Kind, out: seq<byte>, beyond: byte): Outcome {
    if beyond == Close(kind) then Read(out) else Error
  }

  /** The loops of fdt_parse_prop: `cur` is what is left of the current word, `more` the words after it
      and `beyond` the character behind the last of them. */
  function Items(kind: Kind, cur: seq<byte>, more: seq<seq<byte>>, out: seq<byte>, beyond: byte): Outcome
    decreases |more|, |cur|
  {
    var s := if kind == Bytes then Skip(cur) else cur;
    if s == [] then if more == [] then Ended(kind, out, beyond) else Items(kind, more[0], more[1..], out, beyond)
    else if s[0] == Close(kind) then Read(out)
    else if kind == Bytes && !IsXdigit(s[0]) then Error
    else
      var n := Strtoul(s, Base(kind));
      if |n.rest| == |s| then Error
      else Items(kind, if kind == Cells then Skip(n.rest) else n.rest, more, out + Stored(kind, n.value), beyond)
  }

  function Strings(words: seq<seq<byte>>): seq<byte> {
    if words == [] then [] else words[0] + [0] + Strings(words[1..])
  }

  /** fdt_parse_prop. */
  function Parse(words: seq<seq<byte>>, beyond: byte): Outcome
    requires words != []
  {
    var w := words[0];
    if w != [] && w[0] == 60 then Items(Cells, w[1..], words[1..], [], beyond)
    else if w != [] && w[0] == 91 then Items(Bytes, w[1..], words[1..], [], beyond)
    else Read(Strings(words))
  }

  /** A value whose bracket is never closed is refused, unless that character happens to close it. */
  lemma {:induction false} UnclosedRefused(kind: Kind, cur: seq<byte>, more: seq<seq<byte>>, out: seq<byte>,
                                           beyond: byte)
    requires Close(kind) !in cur && forall i :: 0 <= i < |more| ==> Close(kind) !in more[i]
    ensures beyond != Close(kind) ==> Items(kind, cur, more, out, beyond) == Error
    decreases |more|, |cur|
  {
    var s := if kind == Bytes then Skip(cur) else cur;
    SkipSuffix(cur);
    if s == [] {
      if more != [] { UnclosedRefused(kind, more[0], more[1..], out, beyond); }
    } else {
      var n := Strtoul(s, Base(kind));
      StrtoulSuffix(s, Base(kind));
      SkipSuffix(n.rest);
      if |n.rest| < |s| {
        var rest := if kind == Cells then Skip(n.rest) else n.rest;
        UnclosedRefused(kind, rest, more, out + Stored(kind, n.value), beyond);
      }
    }
  }

  lemma {:induction false} SkipSuffix(s: seq<byte>)
    ensures forall c :: c !in s ==> c !in Skip(s)
  {
    if s != [] && s[0] == SPACE {
      SkipSuffix(s[1..]);
      assert forall c :: c !in s ==> c !in s[1..];
    }
  }

  lemma {:induction false} ScanSuffix(acc: u32, s: seq<byte>, base: nat)
    ensures forall c :: c !in s ==> c !in Scan(acc, s, base).rest
    decreases |s|
  {
    if s != [] && 0 <= Digit(s[0]) < base {
      ScanSuffix(Wrap(acc * base + Digit(s[0])), s[1..], base);
      assert forall c :: c !in s ==> c !in s[1..];
    }
  }

  lemma {:induction false} StrtoulSuffix(s: seq<byte>, base: nat)
    ensures forall c :: c !in s ==> c !in Strtoul(s, base).rest
  {
    if s == [] || s[0] != 48 {
      ScanSuffix(0, s, if base == 0 then 10 else base);
    } else {
      ScanSuffix(0, s[1..], if base == 0 then 8 else base);
      if |s| >= 3 { ScanSuffix(0, s[2..], 16); }
    }
  }

  // ---- Words -------------------------------------------------------------------------

  /** A text cut into words: the first one and the others. */
  datatype Cut = Cut(cur: seq<byte>, more: seq<seq<byte>>)

  /** The text, cut at those of its spaces whose positions are in the set; `i` is where it starts. */
  function Split(t: seq<byte>, cuts: set<nat>, i: nat): Cut {
    if t == [] then Cut([], [])
    else
      var r := Split(t[1..], cuts, i + 1);
      if t[0] == ' ' as int && i in cuts then Cut([], [r.cur] + r.more) else Cut([t[0]] + r.cur, r.more)
  }

  /** A text without spaces is not cut. */
  lemma {:induction false} SplitLater(p: seq<byte>, t: seq<byte>, cuts: set<nat>, i: nat)
    requires SPACE !in p
    ensures var r := Split(t, cuts, i + |p|); Split(p + t, cuts, i) == Cut(p + r.cur, r.more)
  {
    if p == [] {
      assert p + t == t && [] + Split(t, cuts, i).cur == Split(t, cuts, i).cur;
    } else {
      assert p[0] in p;
      SplitLater(p[1..], t, cuts, i + 1);
      assert (p + t)[1..] == p[1..] + t;
      Rejoined(p, Split(t, cuts, i + |p|).cur);
    }
  }

  lemma {:induction false} Rejoined(p: seq<byte>, x: seq<byte>)
    requires p != []
    ensures [p[0]] + (p[1..] + x) == p + x
  {
  }

  // ---- Reading back what was printed -------------------------------------------------

  lemma {:induction false} HexPlain(v: nat, n: nat)
    requires v < Pow16(n)
    ensures SPACE !in Hex(v, n) && forall i :: 0 <= i < n ==> IsXdigit(Hex(v, n)[i]) && Hex(v, n)[i] != 120
    decreases n
  {
    if n > 0 {
      FirstDigit(v, Pow16(n - 1));
      HexPlain(v % Pow16(n - 1), n - 1);
    }
  }

  lemma {:induction false} TokenPlain(kind: Kind, v: u32)
    requires InRange(kind, v)
    ensures Token(kind, v) != [] && SPACE !in Token(kind, v) && IsXdigit(Token(kind, v)[0])
  {
    Pow16Values();
    HexPlain(v, if kind == Cells then 8 else 2);
  }

  /** A printed value is read back, whatever follows it. */
  lemma {:induction false} TokenReads(kind: Kind, v: u32, x: seq<byte>)
    requires InRange(kind, v) && Ends(x)
    ensures Strtoul(Token(kind, v) + x, Base(kind)) == Num(v, x)
  {
    Pow16Values();
    if kind == Cells {
      HexPlain(v, 8);
      ScanHex(0, v, 8, x, v);
      HexPrefix(Hex(v, 8) + x);
      assert Token(kind, v) + x == [48, 120] + (Hex(v, 8) + x);
    } else {
      ByteReads(v, x);
    }
  }

  lemma {:induction false} ByteReads(v: nat, x: seq<byte>)
    requires v < Pow16(2) == 0x100 && Ends(x)
    ensures Strtoul(Hex(v, 2) + x, 16) == Num(v, x)
  {
    var s := Hex(v, 2) + x;
    HexPlain(v, 2);
    assert Pow16(1) == 16;
    FirstDigit(v, 16);
    assert s[1] == Hex(v, 2)[1] != 120;
    if s[0] == 48 {
      assert v / 16 == 0;
      assert s[1..] == Hex(v, 1) + x;
      ScanHex(0, v, 1, x, v);
    } else {
      ScanHex(0, v, 2, x, v);
    }
  }

  // ---- Strings -----------------------------------------------------------------------

  /** The strings of a value: what stands before each NUL. */
  function AtNuls(data: seq<byte>, cur: seq<byte>): seq<seq<byte>>
    decreases |data|
  {
    if data == [] then []
    else if data[0] == 0 then [cur] + AtNuls(data[1..], []) else AtNuls(data[1..], cur + [data[0]])
  }

  /** A value of strings is read as its words, each one with its NUL. */
  lemma {:induction false} StringsRead(words: seq<seq<byte>>)
    requires forall i :: 0 <= i < |words| ==> 0 !in words[i]
    ensures AtNuls(Strings(words), []) == words
  {
    if words != [] {
      StringsRead(words[1..]);
      UpToNul(words[0], Strings(words[1..]), []);
      assert Strings(words) == words[0] + ([0] + Strings(words[1..]));
      assert [] + words[0] == words[0];
    }
  }

  lemma {:induction false} UpToNul(w: seq<byte>, rest: seq<byte>, cur: seq<byte>)
    requires 0 !in w
    ensures AtNuls(w + ([0] + rest), cur) == [cur + w] + AtNuls(rest, [])
    decreases |w|
  {
    var all := w + ([0] + rest);
    if w == [] {
      assert all == [0] + rest && all[1..] == rest && cur + w == cur;
    } else {
      assert w[0] in w && all[1..] == w[1..] + ([0] + rest);
      UpToNul(w[1..], rest, cur + [w[0]]);
      assert (cur + [w[0]]) + w[1..] == cur + w;
    }
  }

  // ---- Reading a list of values ------------------------------------------------------

  /** A text that is read as a value, whatever follows it. */
  ghost predicate Reads(kind: Kind, t: seq<byte>, v: u32) {
    && t != [] && SPACE !in t && IsXdigit(t[0])
    && forall x: seq<byte> :: Stops(x) ==> Strtoul(t + x, Base(kind)) == Num(v, x)
  }

  /** The values up to the closing bracket, with spaces between them. */
  function Joined(kind: Kind, ts: seq<seq<byte>>): seq<byte> {
    var close := if kind == Cells then '>' as int else ']' as int;
    if ts == [] then [close]
    else ts[0] + if |ts| == 1 then [close] else [' ' as int] + Joined(kind, ts[1..])
  }

  /** One step of the reading loops over a value. */
  lemma {:induction false} ItemReads(kind: Kind, t: seq<byte>, v: u32, x: seq<byte>, more: seq<seq<byte>>,
                                     out: seq<byte>, beyond: byte)
    requires Reads(kind, t, v) && Stops(x)
    ensures Items(kind, t + x, more, out, beyond)
         == Items(kind, if kind == Cells then Skip(x) else x, more, out + Stored(kind, v), beyond)
  {
    assert (t + x)[0] == t[0] != Close(kind);
    assert Strtoul(t + x, Base(kind)) == Num(v, x);
  }

  /** The reading loops over a text that is cut into words. */
  function Reading(kind: Kind, t: seq<byte>, cuts: set<nat>, i: nat, out: seq<byte>, beyond: byte): Outcome {
    Items(kind, Split(t, cuts, i).cur, Split(t, cuts, i).more, out, beyond)
  }

  predicate Starts(r: Cut) { r.cur != [] && r.cur[0] != SPACE }

  ghost predicate AllRead(kind: Kind, ts: seq<seq<byte>>, vs: seq<u32>) {
    |ts| == |vs| && forall j :: 0 <= j < |ts| ==> Reads(kind, ts[j], vs[j])
  }

  /** A list of values is read as the values, however it is cut at its spaces. */
  lemma {:induction false} ListReads(kind: Kind, ts: seq<seq<byte>>, vs: seq<u32>, cuts: set<nat>, i: nat,
                                     out: seq<byte>, beyond: byte)
    requires AllRead(kind, ts, vs)
    ensures Reading(kind, Joined(kind, ts), cuts, i, out, beyond) == Read(out + AllStored(kind, vs))
    decreases |vs|
  {
    if vs == [] {
      NothingReads(kind, cuts, i, out, beyond);
    } else if |vs| == 1 {
      LastReads(kind, ts[0], vs[0], cuts, i, out, beyond);
      assert AllStored(kind, vs) == Stored(kind, vs[0]);
    } else {
      AddStored(kind, vs, out);
      ListReads(kind, ts[1..], vs[1..], cuts, i + |ts[0]| + 1, out + Stored(kind, vs[0]), beyond);
      NextReads(kind, ts, vs, cuts, i, out, beyond);
    }
  }

  lemma {:induction false} NextReads(kind: Kind, ts: seq<seq<byte>>, vs: seq<u32>, cuts: set<nat>, i: nat,
                                     out: seq<byte>, beyond: byte)
    requires AllRead(kind, ts, vs) && |ts| > 1
    ensures Reading(kind, Joined(kind, ts), cuts, i, out, beyond)
         == Reading(kind, Joined(kind, ts[1..]), cuts, i + |ts[0]| + 1, out + Stored(kind, vs[0]), beyond)
  {
    var u := Joined(kind, ts[1..]);
    assert Starts(Split(u, cuts, i + |ts[0]| + 1)) by {
      StartsWithDigit(kind, ts[1..], vs[1..], cuts, i + |ts[0]| + 1);
    }
    JoinedSplits(kind, ts);
    FirstReads(kind, ts[0], vs[0], u, cuts, i, out, beyond);
  }

  lemma {:induction false} JoinedSplits(kind: Kind, ts: seq<seq<byte>>)
    requires |ts| > 1
    ensures Joined(kind, ts) == ts[0] + ([SPACE] + Joined(kind, ts[1..]))
  {
  }

  lemma {:induction false} NothingReads(kind: Kind, cuts: set<nat>, i: nat, out: seq<byte>, beyond: byte)
    ensures Reading(kind, [Close(kind)], cuts, i, out, beyond) == Read(out + AllStored(kind, []))
  {
    var close := [Close(kind)];
    assert close[1..] == [] && [Close(kind)] + [] == close;
    assert Split(close, cuts, i) == Cut(close, []);
    assert out + [] == out;
  }

  lemma {:induction false} AddStored(kind: Kind, vs: seq<u32>, out: seq<byte>)
    requires vs != []
    ensures out + Stored(kind, vs[0]) + AllStored(kind, vs[1..]) == out + AllStored(kind, vs)
  {
    Regrouped(out, Stored(kind, vs[0]), AllStored(kind, vs[1..]));
  }

  lemma {:induction false} Regrouped(a: seq<byte>, b: seq<byte>, c: seq<byte>)
    ensures (a + b) + c == a + (b + c)
  {
  }

  lemma {:induction false} FirstReads(kind: Kind, t: seq<byte>, v: u32, u: seq<byte>, cuts: set<nat>, i: nat,
                                      out: seq<byte>, beyond: byte)
    requires Reads(kind, t, v) && Starts(Split(u, cuts, i + |t| + 1))
    ensures Reading(kind, t + ([SPACE] + u), cuts, i, out, beyond)
         == Reading(kind, u, cuts, i + |t| + 1, out + Stored(kind, v), beyond)
  {
    var r := Split(u, cuts, i + |t| + 1);
    SpaceSplits(t, u, cuts, i);
    CutReads(kind, t, v, r, out, beyond);
    UncutReads(kind, t, v, r, out, beyond);
  }

  lemma {:induction false} CutReads(kind: Kind, t: seq<byte>, v: u32, r: Cut, out: seq<byte>, beyond: byte)
    requires Reads(kind, t, v) && Starts(r)
    ensures Items(kind, t + [], [r.cur] + r.more, out, beyond)
         == Items(kind, r.cur, r.more, out + Stored(kind, v), beyond)
  {
    ItemReads(kind, t, v, [], [r.cur] + r.more, out, beyond);
    AfterSpace(kind, r, true, out + Stored(kind, v), beyond);
  }

  lemma {:induction false} UncutReads(kind: Kind, t: seq<byte>, v: u32, r: Cut, out: seq<byte>, beyond: byte)
    requires Reads(kind, t, v) && Starts(r)
    ensures Items(kind, t + ([SPACE] + r.cur), r.more, out, beyond)
         == Items(kind, r.cur, r.more, out + Stored(kind, v), beyond)
  {
    ItemReads(kind, t, v, [SPACE] + r.cur, r.more, out, beyond);
    AfterSpace(kind, r, false, out + Stored(kind, v), beyond);
  }

  lemma {:induction false} SpaceSplits(t: seq<byte>, u: seq<byte>, cuts: set<nat>, i: nat)
    requires SPACE !in t
    ensures var k := i + |t|;
            var r := Split(u, cuts, k + 1);
            Split(t + ([SPACE] + u), cuts, i)
            == if k in cuts then Cut(t + [], [r.cur] + r.more) else Cut(t + ([SPACE] + r.cur), r.more)
  {
    SplitLater(t, [SPACE] + u, cuts, i);
    assert ([SPACE] + u)[1..] == u;
  }

  lemma {:induction false} LastReads(kind: Kind, t: seq<byte>, v: u32, cuts: set<nat>, i: nat, out: seq<byte>,
                                     beyond: byte)
    requires Reads(kind, t, v)
    ensures Reading(kind, t + [Close(kind)], cuts, i, out, beyond) == Read(out + Stored(kind, v))
  {
    var close := [Close(kind)];
    SplitLater(t, close, cuts, i);
    assert Split(close, cuts, i + |t|) == Cut(close, []);
    ItemReads(kind, t, v, close, [], out, beyond);
  }

  /** A space between two values is skipped, or was the end of a word. */
  lemma {:induction false} AfterSpace(kind: Kind, r: Cut, cut: bool, out: seq<byte>, beyond: byte)
    requires Starts(r)
    ensures cut ==> Items(kind, [], [r.cur] + r.more, out, beyond) == Items(kind, r.cur, r.more, out, beyond)
    ensures Skip([SPACE] + r.cur) == r.cur
    ensures Items(Bytes, [SPACE] + r.cur, r.more, out, beyond) == Items(Bytes, r.cur, r.more, out, beyond)
  {
    assert ([SPACE] + r.cur)[1..] == r.cur;
    assert ([r.cur] + r.more)[1..] == r.more;
  }

  lemma {:induction false} StartsWithDigit(kind: Kind, ts: seq<seq<byte>>, vs: seq<u32>, cuts: set<nat>, i: nat)
    requires AllRead(kind, ts, vs) && ts != []
    ensures Starts(Split(Joined(kind, ts), cuts, i))
  {
    var t := ts[0];
    assert Reads(kind, t, vs[0]) && t[0] in t;
    SplitLater(t, if |ts| == 1 then [Close(kind)] else [SPACE] + Joined(kind, ts[1..]), cuts, i);
  }

  /** A whole value in brackets, cut into words anywhere at its spaces. */
  lemma {:induction false} ValueReads(kind: Kind, ts: seq<seq<byte>>, vs: seq<u32>, cuts: set<nat>, beyond: byte)
    requires AllRead(kind, ts, vs)
    ensures var words := Split([Open(kind)] + Joined(kind, ts), cuts, 0);
            Parse([words.cur] + words.more, beyond) == Read(AllStored(kind, vs))
  {
    var r := Split(Joined(kind, ts), cuts, 1);
    SplitLater([Open(kind)], Joined(kind, ts), cuts, 0);
    ListReads(kind, ts, vs, cuts, 1, [], beyond);
    var word := [Open(kind)] + r.cur;
    assert word[1..] == r.cur && ([word] + r.more)[1..] == r.more;
    assert [] + AllStored(kind, vs) == AllStored(kind, vs);
  }

  // ---- Cells and bytes as they are written -------------------------------------------

  /** A cell in the property: its most significant byte comes first. */
  function Cell(v: u32): seq<byte> {
    [v / 0x100_0000, (v / 0x1_0000) % 0x100, (v / 0x100) % 0x100, v % 0x100]
  }

  lemma {:induction false} StoredIsCell(v: u32)
    ensures Stored(Cells, v) == Cell(v)
  {
    assert v / 0x1_0000 / 0x100 == v / 0x100_0000 && (v % 0x1_0000) / 0x100 == (v / 0x100) % 0x100;
    assert (v % 0x1_0000) % 0x100 == v % 0x100;
  }

  function AllCells(ns: seq<Numeral>): seq<byte>
    requires forall i :: 0 <= i < |ns| ==> IsNumeral(ns[i])
  {
    if ns == [] then [] else Cell(Worth(ns[0])) + AllCells(ns[1..])
  }

  function AllSpelled(ns: seq<Numeral>): seq<seq<byte>> {
    seq(|ns|, i requires 0 <= i < |ns| => Spelled(ns[i]))
  }

  function AllWorth(ns: seq<Numeral>): seq<u32>
    requires forall i :: 0 <= i < |ns| ==> IsNumeral(ns[i])
  {
    seq(|ns|, i requires 0 <= i < |ns| => Worth(ns[i]))
  }

  lemma {:induction false} NumeralIsRead(n: Numeral)
    requires IsNumeral(n)
    ensures Reads(Cells, Spelled(n), Worth(n))
  {
    forall x: seq<byte> | Stops(x) ensures Strtoul(Spelled(n) + x, 0) == Num(Worth(n), x) { NumeralReads(n, x); }
    assert n.digits != [] ==> n.digits[0] in n.digits;
    assert SPACE !in n.digits;
  }

  lemma {:induction false} WorthStored(ns: seq<Numeral>)
    requires forall i :: 0 <= i < |ns| ==> IsNumeral(ns[i])
    ensures AllStored(Cells, AllWorth(ns)) == AllCells(ns)
  {
    if ns != [] {
      StoredIsCell(Worth(ns[0]));
      WorthStored(ns[1..]);
      assert AllWorth(ns)[1..] == AllWorth(ns[1..]);
    }
  }

  /** Decimal, octal and hexadecimal numbers in angle brackets, cut into words anywhere at their spaces, give
      the cells of their values. */
  lemma {:induction false} CellsRead(ns: seq<Numeral>, cuts: set<nat>, beyond: byte)
    requires forall i :: 0 <= i < |ns| ==> IsNumeral(ns[i])
    ensures var words := Split(['<' as int] + Joined(Cells, AllSpelled(ns)), cuts, 0);
            Parse([words.cur] + words.more, beyond) == Read(AllCells(ns))
  {
    forall i | 0 <= i < |ns| ensures Reads(Cells, AllSpelled(ns)[i], AllWorth(ns)[i]) { NumeralIsRead(ns[i]); }
    ValueReads(Cells, AllSpelled(ns), AllWorth(ns), cuts, beyond);
    WorthStored(ns);
  }

  predicate HexStrings(hs: seq<seq<byte>>) {
    forall i :: 0 <= i < |hs| ==> hs[i] != [] && AllDigits(hs[i], 16)
  }

  /** The low bytes of the numbers that hexadecimal digits stand for. */
  function LowBytes(hs: seq<seq<byte>>): (r: seq<byte>)
    requires HexStrings(hs)
    ensures |r| == |hs|
  {
    seq(|hs|, i requires 0 <= i < |hs| => Positional(hs[i], 16) % 0x100)
  }

  function HexWorth(hs: seq<seq<byte>>): (r: seq<u32>)
    requires HexStrings(hs)
    ensures |r| == |hs|
  {
    seq(|hs|, i requires 0 <= i < |hs| => Wrap(Positional(hs[i], 16)))
  }

  lemma {:induction false} LowBytesStored(hs: seq<seq<byte>>)
    requires HexStrings(hs)
    ensures AllStored(Bytes, HexWorth(hs)) == LowBytes(hs)
  {
    if hs == [] {
      assert HexWorth(hs) == [] && LowBytes(hs) == [];
    } else {
      LowBytesStored(hs[1..]);
      assert HexWorth(hs)[1..] == HexWorth(hs[1..]);
      assert LowBytes(hs) == [LowBytes(hs)[0]] + LowBytes(hs[1..]);
      LowByteKept(Positional(hs[0], 16));
    }
  }

  lemma {:induction false} LowByteKept(v: nat)
    ensures Wrap(v) % 0x100 == v % 0x100
  {
    QuotientAndRemainder(v, WORD_SIZE);
    RemainderUnique(v, 0x100, 0x100_0000 * (v / WORD_SIZE) + Wrap(v) / 0x100, Wrap(v) % 0x100);
  }

  lemma {:induction false} HexIsRead(h: seq<byte>)
    requires h != [] && AllDigits(h, 16)
    ensures Reads(Bytes, h, Wrap(Positional(h, 16)))
  {
    forall x: seq<byte> | Stops(x) ensures Strtoul(h + x, 16) == Num(Wrap(Positional(h, 16)), x) {
      PlainHexReads(h, x);
    }
    assert h[0] in h;
  }

  /** Hexadecimal numbers in square brackets give their low bytes. */
  lemma {:induction false} BytesRead(hs: seq<seq<byte>>, cuts: set<nat>, beyond: byte)
    requires HexStrings(hs)
    ensures var words := Split(['[' as int] + Joined(Bytes, hs), cuts, 0);
            Parse([words.cur] + words.more, beyond) == Read(LowBytes(hs))
  {
    forall i | 0 <= i < |hs| ensures Reads(Bytes, hs[i], HexWorth(hs)[i]) { HexIsRead(hs[i]); }
    ValueReads(Bytes, hs, HexWorth(hs), cuts, beyond);
    LowBytesStored(hs);
  }

  // ---- What was printed --------------------------------------------------------------

  function Tokens(kind: Kind, vs: seq<u32>): seq<seq<byte>>
    requires forall i :: 0 <= i < |vs| ==> InRange(kind, vs[i])
  {
    seq(|vs|, i requires 0 <= i < |vs| => Token(kind, vs[i]))
  }

  lemma {:induction false} TextIsJoined(kind: Kind, vs: seq<u32>)
    requires vs != [] && forall j :: 0 <= j < |vs| ==> InRange(kind, vs[j])
    ensures Text(kind, vs) == Joined(kind, Tokens(kind, vs))
  {
    if |vs| > 1 {
      TextIsJoined(kind, vs[1..]);
      assert Tokens(kind, vs)[1..] == Tokens(kind, vs[1..]);
    }
  }

  lemma {:induction false} TokenIsRead(kind: Kind, v: u32)
    requires InRange(kind, v)
    ensures Reads(kind, Token(kind, v), v)
  {
    TokenPlain(kind, v);
    forall x: seq<byte> | Stops(x) ensures Strtoul(Token(kind, v) + x, Base(kind)) == Num(v, x) {
      TokenReads(kind, v, x);
    }
  }

  /** The text of a property that is not a string: its cells, or its bytes if they are not cells. */
  function KindOf(data: seq<byte>): (kind: Kind)
    ensures |data| % Width(kind) == 0
  {
    if |data| % 4 == 0 then Cells else Bytes
  }

  function Shown(data: seq<byte>): seq<byte> {
    [Open(KindOf(data))] + Text(KindOf(data), Values(KindOf(data), data))
  }

  /** Reading the text of a property gives back the property, however the text is cut into words. */
  lemma {:induction false} RoundTrip(data: seq<byte>, cuts: set<nat>, beyond: byte)
    requires data != []
    ensures var words := Split(Shown(data), cuts, 0); Parse([words.cur] + words.more, beyond) == Read(data)
  {
    var kind := KindOf(data);
    var vs := Values(kind, data);
    TextIsJoined(kind, vs);
    forall j | 0 <= j < |vs| ensures Reads(kind, Tokens(kind, vs)[j], vs[j]) { TokenIsRead(kind, vs[j]); }
    ValueReads(kind, Tokens(kind, vs), vs, cuts, beyond);
    ValuesStored(kind, data);
  }
}
