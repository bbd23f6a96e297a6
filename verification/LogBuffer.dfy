/** The log buffer of cmd_log.c: a ring of 16384 characters with free-running 32-bit positions, kept
    in one of two layouts, and logbuff_printk, which fills it from a work buffer that it edits in
    place. */
module LogBuffer {
  import opened Machine
  import opened Ring
  import opened LogText

  const LEN: nat := 16384             // LOGBUFF_LEN
  const LEN_BITS: nat := 14
  const WORK_LEN: nat := 1024

  lemma {:induction false} LenIsPowerOfTwo()
    ensures LEN == Pow2(LEN_BITS)
  {
    Pow2Split(8, 6);
    assert Pow2(8) == 256 && Pow2(6) == 64;
  }

  // ---- The last characters -----------------------------------------------------------

  /** As much of a text as the log keeps. */
  function Last(t: seq<byte>): (r: seq<byte>)
    ensures |r| <= LEN
  {
    if |t| <= LEN then t else t[|t| - LEN..]
  }

  function Pushed(r: seq<byte>, c: byte): seq<byte> {
    if |r| < LEN then r + [c] else r[1..] + [c]
  }

  lemma {:induction false} LastPushed(t: seq<byte>, c: byte)
    ensures Pushed(Last(t), c) == Last(t + [c])
  {
  }

  /** Dropping old characters early makes no difference later. */
  lemma {:induction false} LastTwice(a: seq<byte>, b: seq<byte>)
    ensures Last(Last(a) + b) == Last(a + b)
  {
    if |a| > LEN {
      var k := |a| - LEN;
      assert Last(a) + b == (a + b)[k..];
      assert b != [] ==> (a + b)[k..][|b|..] == (a + b)[k + |b|..];
    }
  }

  lemma {:induction false} KeepsLast(held: seq<byte>, e: seq<byte>, rest: seq<byte>)
    ensures Last(Last(held + e) + rest) == Last(held + (e + rest))
  {
    LastTwice(held + e, rest);
    assert (held + e) + rest == held + (e + rest);
  }

  lemma {:induction false} PushNext(held: seq<byte>, t: seq<byte>, k: nat)
    requires k < |t|
    ensures Pushed(Last(held + t[..k]), t[k]) == Last(held + t[..k + 1])
  {
    LastPushed(held + t[..k], t[k]);
    assert held + t[..k] + [t[k]] == held + t[..k + 1];
  }

  /** The first `k` characters of a text, put into the log one by one. */
  function Feed(held: seq<byte>, t: seq<byte>, k: nat): seq<byte>
    requires k <= |t|
  {
    if k == 0 then held else Pushed(Feed(held, t, k - 1), t[k - 1])
  }

  lemma {:induction false} FeedIsLast(held: seq<byte>, t: seq<byte>, k: nat)
    requires |held| <= LEN && k <= |t|
    ensures Feed(held, t, k) == Last(held + t[..k])
  {
    if k == 0 {
      assert held + t[..0] == held;
    } else {
      FeedIsLast(held, t, k - 1);
      PushNext(held, t, k - 1);
    }
  }

  // ---- Messages ----------------------------------------------------------------------

  /** What logging is about: the characters held, the priority of the line that has been started, or
      -1, and what has reached the console. */
  datatype State = State(held: seq<byte>, level: int, console: seq<byte>)

  /** A whole message. */
  function Message(s: State, limit: nat, t: seq<byte>): State {
    State(Last(s.held + Emit(s.level >= 0, t)), LevelAfter(s.level, t), s.console + Console(s.level, limit, t))
  }

  /** Its first line. */
  function OneLine(s: State, limit: nat, t: seq<byte>): State
    requires t != []
  {
    State(Last(s.held + (Tag(s.level >= 0, t) + t[..LineEnd(t)])), LevelNext(s.level, t),
          s.console + Printed(s.level, limit, t))
  }

  /** What one line prints. */
  function Printed(level: int, limit: nat, t: seq<byte>): seq<byte> {
    if LevelOf(level, t) < limit then t[TagSize(level >= 0, t)..] else []
  }

  lemma {:induction false} LineByLine(s: State, limit: nat, t: seq<byte>)
    requires t != []
    ensures Message(s, limit, t) == Message(OneLine(s, limit, t), limit, t[LineEnd(t)..])
  {
    HeldByLine(s.held, s.level >= 0, t);
    ConsoleByLine(s.console, s.level, limit, t);
    assert LevelNext(s.level, t) >= 0 <==> !Complete(t);
  }

  lemma {:induction false} HeldByLine(held: seq<byte>, open: bool, t: seq<byte>)
    requires t != []
    ensures Last(held + Emit(open, t))
         == Last(Last(held + (Tag(open, t) + t[..LineEnd(t)])) + Emit(!Complete(t), t[LineEnd(t)..]))
  {
    EmitStep(open, t);
    KeepsLast(held, Tag(open, t) + t[..LineEnd(t)], Emit(!Complete(t), t[LineEnd(t)..]));
  }

  lemma {:induction false} ConsoleByLine(console: seq<byte>, level: int, limit: nat, t: seq<byte>)
    requires t != []
    ensures console + Console(level, limit, t)
         == (console + Printed(level, limit, t)) + Console(LevelNext(level, t), limit, t[LineEnd(t)..])
  {
    var printed, later := Printed(level, limit, t), Console(LevelNext(level, t), limit, t[LineEnd(t)..]);
    assert console + (printed + later) == (console + printed) + later;
  }

  lemma {:induction false} EmptyMessage(s: State, limit: nat)
    requires |s.held| <= LEN
    ensures Message(s, limit, []) == s
  {
    assert s.held + [] == s.held && s.console + [] == s.console;
  }

  /** A run of messages. */
  function Messages(s: State, limit: nat, ms: seq<seq<byte>>): State
    decreases |ms|
  {
    if ms == [] then s else Messages(Message(s, limit, ms[0]), limit, ms[1..])
  }

  /** All that a run of messages logs. */
  function Logged(open: bool, ms: seq<seq<byte>>): seq<byte>
    decreases |ms|
  {
    if ms == [] then [] else Emit(open, ms[0]) + Logged(OpenAfter(open, ms[0]), ms[1..])
  }

  /** After any run the log holds the last characters of everything that was logged. */
  lemma {:induction false} RunKeepsLast(s: State, limit: nat, ms: seq<seq<byte>>)
    requires |s.held| <= LEN
    ensures Messages(s, limit, ms).held == Last(s.held + Logged(s.level >= 0, ms))
    decreases |ms|
  {
    if ms == [] {
      assert s.held + [] == s.held;
    } else {
      LevelOpen(s.level, ms[0]);
      RunKeepsLast(Message(s, limit, ms[0]), limit, ms[1..]);
      KeepsLast(s.held, Emit(s.level >= 0, ms[0]), Logged(OpenAfter(s.level >= 0, ms[0]), ms[1..]));
    }
  }

  /** The messages of "log append": each word, then a space, or a newline after the last one. */
  function WordMessages(args: seq<seq<byte>>): seq<seq<byte>> {
    if args == [] then [] else [args[0], [if |args| == 1 then NEWLINE else 32]] + WordMessages(args[1..])
  }

  lemma {:induction false} WordsAreLogged(open: bool, args: seq<seq<byte>>)
    ensures Logged(open, WordMessages(args)) == Words(open, args)
    decreases |args|
  {
    if args != [] {
      var ms, c := WordMessages(args), if |args| == 1 then NEWLINE else 32;
      var open1 := OpenAfter(open, args[0]);
      var open2 := OpenAfter(open1, [c]);
      assert ms[1..][1..] == WordMessages(args[1..]);
      WordsAreLogged(open2, args[1..]);
      assert Logged(open1, ms[1..]) == Emit(open1, [c]) + Logged(open2, ms[1..][1..]);
    }
  }

  /** "log append" logs its words, with spaces between them, as one message. */
  lemma {:induction false} AppendLogs(s: State, limit: nat, args: seq<seq<byte>>)
    requires |s.held| <= LEN
    ensures Messages(s, limit, WordMessages(args)).held == Last(s.held + Emit(s.level >= 0, Joined(args)))
  {
    RunKeepsLast(s, limit, WordMessages(args));
    WordsAreLogged(s.level >= 0, args);
    AppendIsOneMessage(s.level >= 0, args);
  }

  // ---- The ring ----------------------------------------------------------------------

  /** `(start + n) & LOGBUFF_MASK`, in 32 bits. */
  function Place(start: u32, n: u32): (p: nat)
    ensures p < LEN
  {
    LenIsPowerOfTwo();
    MaskIsRemainder(Add32(start, n), LEN_BITS);
    And(Add32(start, n), LEN - 1)
  }

  lemma {:induction false} PlaceIsSpot(start: u32, n: u32)
    ensures Place(start, n) == Spot(start, n, LEN)
  {
    LenIsPowerOfTwo();
    MaskIsRemainder(Add32(start, n), LEN_BITS);
    WrapAround(start + n, LEN_BITS);
  }

  /** Writing behind the last character adds it. */
  lemma {:induction false} PutGrows(data: seq<byte>, start: int, n: nat, c: byte)
    requires n < |data|
    ensures Slice(data[Spot(start, n, |data|) := c], start, n + 1) == Slice(data, start, n) + [c]
  {
    var len := |data|;
    forall i | 0 <= i < n ensures Spot(start, i, len) != Spot(start, n, len) { Distinct(start, i, n, len); }
  }

  /** In a full ring that overwrites the oldest one. */
  lemma {:induction false} PutReplaces(data: seq<byte>, start: int, c: byte)
    requires |data| > 0
    ensures Slice(data[Spot(start, |data|, |data|) := c], start + 1, |data|) == Slice(data, start, |data|)[1..] + [c]
  {
    var len, next := |data|, start + 1;
    var after := data[Spot(start, len, len) := c];
    Around(start, 1, len);
    forall i | 0 <= i < len - 1 ensures after[Spot(next, i, len)] == data[Spot(start, i + 1, len)] {
      Distinct(start, 0, i + 1, len);
      assert Spot(next, i, len) == Spot(start, i + 1, len);
    }
    assert Spot(next, len - 1, len) == Spot(start, len, len);
  }

  /** Both layouts do this: with `n` characters from `start` on, put one more. */
  lemma {:induction false} PutStep(data: seq<byte>, start: u32, n: u32, c: byte)
    requires |data| == LEN && n <= LEN
    ensures var after := data[Place(start, n) := c];
            && (n < LEN ==> Slice(after, start, n + 1) == Pushed(Slice(data, start, n), c))
            && (n == LEN ==> Slice(after, Add32(start, 1), LEN) == Pushed(Slice(data, start, n), c))
  {
    PlaceIsSpot(start, n);
    if n < LEN {
      PutGrows(data, start, n, c);
    } else {
      PutReplaces(data, start, c);
      LenIsPowerOfTwo();
      SliceWrap(data[Place(start, n) := c], start, 1, LEN, LEN_BITS);
    }
  }

  datatype Layout = V1 | V2

  class Log {
    const layout: Layout
    const lbuf: array<byte>
    var start: u32
    var size: u32                     // layout 1
    var end: u32                      // layout 2
    var chars: u32
    const buf: array<byte>            // the work buffer
    var level: int                    // msg_level: -1 at the start of a line
    const consoleLevel: nat
    var console: seq<byte>
    ghost var held: seq<byte>         // the characters in the ring

    ghost predicate Valid()
      reads this, lbuf
    {
      && lbuf.Length == LEN && buf.Length == WORK_LEN && lbuf != buf && level >= -1
      && Used() <= LEN && held == Slice(lbuf[..], start, Used())
    }

    function Used(): u32
      reads this
    {
      if layout == V2 then Sub32(end, start) else size
    }

    ghost function Now(): State
      reads this
    {
      State(held, level, console)
    }

    /** A log in its initial state: the header fields are zero and no line has been started. */
    constructor (layout: Layout, consoleLevel: nat)
      ensures Valid() && Now() == State([], -1, []) && fresh(lbuf) && fresh(buf)
      ensures this.layout == layout && this.consoleLevel == consoleLevel && chars == 0
    {
      this.layout, this.consoleLevel := layout, consoleLevel;
      start, size, end, chars := 0, 0, 0, 0;
      level, console, held := -1, [], [];
      lbuf := new byte[LEN];
      buf := new byte[WORK_LEN];
    }

    /** logbuff_reset. A line that was started stays started. */
    method Reset()
      requires Valid()
      modifies this`start, this`size, this`end, this`chars, this`held
      ensures Valid() && Now() == old(Now()).(held := []) && chars == 0
    {
      start, chars, held := 0, 0, [];
      if layout == V2 { end := 0; } else { size := 0; }
    }

    /** The statements that put one character into the ring. */
    method Put(c: byte)
      requires Valid()
      modifies this`start, this`size, this`end, this`chars, this`held, lbuf
      ensures Valid() && held == Pushed(old(held), c)
      ensures chars == Add32(old(chars), 1)
    {
      PutStep(lbuf[..], start, Used(), c);
      if layout == V2 {
        assert And(end, LEN - 1) == Place(start, Used());
        lbuf[Masked14(end)] := c;
        end := Add32(end, 1);
        if Sub32(end, start) > LEN { start := Add32(start, 1); }
      } else {
        lbuf[Place(start, size)] := c;
        if size < LEN { size := size + 1; } else { start := Add32(start, 1); }
      }
      chars := Add32(chars, 1);
      held := Pushed(held, c);
    }

    /** "log show": the characters in the log, oldest first. */
    method Show() returns (out: seq<byte>)
      requires Valid()
      ensures out == held
    {
      var n := Used();
      if n > LEN { n := LEN; }
      out := [];
      for i := 0 to n
        invariant out == Slice(lbuf[..], start, i)
      {
        PlaceIsSpot(start, i);
        out := out + [lbuf[Place(start, i)]];
      }
    }

    /** logbuff_printk: log a message and print what its priority asks for. */
    method Printk(line: seq<byte>) returns (n: nat)
      requires Valid() && 0 !in line && |line| + 4 <= WORK_LEN
      modifies this`start, this`size, this`end, this`chars, this`held, this`level, this`console, lbuf, buf
      ensures Valid() && n == |line| && Now() == Message(old(Now()), consoleLevel, line)
    {
      Copy(line);
      n := |line|;
      var bufEnd, p := 3 + n, 3;
      ghost var rest, result := line, Message(Now(), consoleLevel, line);
      while p < bufEnd
        invariant Valid() && 3 <= p <= bufEnd + 1 && Left(p, bufEnd, rest)
        invariant Message(Now(), consoleLevel, rest) == result
        decreases bufEnd - p
      {
        p, rest := NextLine(p, bufEnd, rest);
      }
      EmptyMessage(Now(), consoleLevel);
    }

    /** What of a message is still to be logged. */
    ghost predicate Left(p: nat, bufEnd: nat, rest: seq<byte>)
      reads this, buf
    {
      LeftIn(buf[..], p, bufEnd, rest)
    }

    /** A turn of the outer loop takes one line off the message. */
    method NextLine(p0: nat, bufEnd: nat, ghost t: seq<byte>) returns (p: nat, ghost rest: seq<byte>)
      requires Valid() && 3 <= p0 < bufEnd < WORK_LEN && Left(p0, bufEnd, t)
      modifies this`start, this`size, this`end, this`chars, this`held, this`level, this`console, lbuf, buf
      ensures Valid() && p0 < p <= bufEnd + 1 && Left(p, bufEnd, rest)
      ensures Message(Now(), consoleLevel, rest) == Message(old(Now()), consoleLevel, t)
    {
      LineByLine(Now(), consoleLevel, t);
      p := Turn(p0, bufEnd, t);
      LeftOn(buf[..], p0, bufEnd, t, p);
      rest := t[LineEnd(t)..];
    }

    /** strcpy(buf + 3, line). */
    method Copy(line: seq<byte>)
      requires buf.Length == WORK_LEN && |line| + 4 <= WORK_LEN
      modifies buf
      ensures buf[3..3 + |line|] == line && buf[3 + |line|] == 0
    {
      for i := 0 to |line|
        invariant buf[3..3 + i] == line[..i]
      {
        buf[3 + i] := line[i];
      }
      buf[3 + |line|] := 0;
    }

    /** One turn of the outer loop: from `p` to the end of the line or of the message. */
    method Turn(p0: nat, bufEnd: nat, ghost t: seq<byte>) returns (p: nat)
      requires Valid() && 3 <= p0 < bufEnd < WORK_LEN && buf[bufEnd] == 0 && t == buf[p0..bufEnd] && 0 !in t
      modifies this`start, this`size, this`end, this`chars, this`held, this`level, this`console, lbuf, buf
      ensures Valid() && Now() == OneLine(old(Now()), consoleLevel, t)
      ensures buf[bufEnd] == 0 && buf[p0..bufEnd] == t
      ensures p == (if Complete(t) then p0 + LineEnd(t) else bufEnd + 1) && (!Complete(t) ==> LineEnd(t) == |t|)
    {
      ghost var was, tag := Now(), Tag(level >= 0, t);
      var msg: nat;
      p, msg := Mark(p0, bufEnd, t);
      p := Rest(p, msg, bufEnd, t, was, tag);
    }

    /** The inner loop and what comes after it. */
    method Rest(p0: nat, msg: nat, bufEnd: nat, ghost t: seq<byte>, ghost was: State, ghost tag: seq<byte>)
      returns (p: nat)
      requires Valid() && p0 < bufEnd < WORK_LEN && buf[bufEnd] == 0
      requires held == was.held && console == was.console && level == LevelOf(was.level, t) && t != []
      requires tag == Tag(was.level >= 0, t) && buf[p0..bufEnd] == tag + t
      requires msg <= bufEnd && buf[msg..bufEnd] == t[TagSize(was.level >= 0, t)..] && 0 !in buf[msg..bufEnd]
      modifies this`start, this`size, this`end, this`chars, this`held, this`level, this`console, lbuf
      ensures Valid() && Now() == OneLine(was, consoleLevel, t)
      ensures p == (if Complete(t) then p0 + |tag| + LineEnd(t) else bufEnd + 1)
      ensures !Complete(t) ==> LineEnd(t) == |t|
    {
      var lineFeed: bool;
      ghost var n: nat;
      p, lineFeed, n := EmitRest(p0, bufEnd, tag + t);
      Finish(msg, bufEnd, lineFeed);
      LineDone(was, consoleLevel, t, n, Now());
      p := p + 1;
    }

    /** The end of a turn: print, and note the end of the line. */
    method Finish(msg: nat, ghost bufEnd: nat, lineFeed: bool)
      requires msg <= bufEnd < buf.Length && buf[bufEnd] == 0 && 0 !in buf[msg..bufEnd]
      modifies this`console, this`level
      ensures console == old(console) + if old(level) < consoleLevel then buf[msg..bufEnd] else []
      ensures level == if lineFeed then -1 else old(level)
    {
      if level < consoleLevel { Print(msg, bufEnd); }
      if lineFeed { level := -1; }
    }

    method PutTag(p: nat, ghost bufEnd: nat, ghost t: seq<byte>)
      requires p + 3 <= bufEnd < buf.Length && buf[p + 3..bufEnd] == t
      modifies buf
      ensures buf[p..bufEnd] == DefaultTag() + t && buf[p + 3..bufEnd] == t && buf[bufEnd] == old(buf[bufEnd])
      ensures buf[p + 1] == DEFAULT_LEVEL + 48
    {
      buf[p], buf[p + 1], buf[p + 2] := 60, DEFAULT_LEVEL + 48, 62;
      assert buf[p..p + 3] == DefaultTag() && buf[p + 3..bufEnd] == t;
      assert buf[p..bufEnd] == buf[p..p + 3] + buf[p + 3..bufEnd];
    }

    /** At the start of a line: find its tag, or write the default one over the three characters
        before it, which have been logged already. */
    method Mark(p0: nat, bufEnd: nat, ghost t: seq<byte>) returns (p: nat, msg: nat)
      requires Valid() && 3 <= p0 < bufEnd < WORK_LEN && buf[bufEnd] == 0 && t == buf[p0..bufEnd] && 0 !in t
      modifies this`level, buf
      ensures Valid() && level == LevelOf(old(level), t)
      ensures p == p0 - |Tag(old(level) >= 0, t)| && buf[p..bufEnd] == Tag(old(level) >= 0, t) + t
      ensures buf[p0..bufEnd] == t && buf[bufEnd] == 0
      ensures p0 <= msg <= bufEnd && buf[msg..bufEnd] == t[TagSize(old(level) >= 0, t)..] && 0 !in buf[msg..bufEnd]
    {
      assert buf[p0] == t[0] && (p0 + 1 < bufEnd ==> buf[p0 + 1] == t[1]) && (p0 + 2 < bufEnd ==> buf[p0 + 2] == t[2]);
      p, msg := p0, p0;
      if level < 0 {
        if buf[p] != 60 || buf[p + 1] < 48 || buf[p + 1] > 55 || buf[p + 2] != 62 {
          assert !HasTag(t);
          p := p - 3;
          PutTag(p, bufEnd, t);
        } else {
          msg := msg + 3;
        }
        level := buf[p + 1] - 48;
      }
      assert buf[msg..bufEnd] == t[msg - p0..];
    }

    /** The inner loop: log up to the newline or the end. */
    method EmitRest(p0: nat, bufEnd: nat, ghost t: seq<byte>) returns (p: nat, lineFeed: bool, ghost n: nat)
      requires Valid() && p0 < bufEnd < WORK_LEN && t == buf[p0..bufEnd]
      modifies this`start, this`size, this`end, this`chars, this`held, lbuf
      ensures Valid() && IsLineEnd(t, n) && held == Feed(old(held), t, n)
      ensures lineFeed == (t[n - 1] == NEWLINE) && p == (if lineFeed then p0 + n - 1 else bufEnd)
    {
      p, lineFeed := p0, false;
      while p < bufEnd
        invariant Valid() && p0 <= p <= bufEnd
        invariant forall i :: 0 <= i < p - p0 ==> t[i] != NEWLINE
        invariant held == Feed(old(held), t, p - p0)
      {
        ghost var k := p - p0;
        assert buf[p] == t[k];
        Put(buf[p]);
        assert held == Feed(old(held), t, k + 1);
        if buf[p] == NEWLINE { return p, true, k + 1; }
        p := p + 1;
      }
      n := |t|;
    }

    /** printf("%s", msg): everything up to the NUL. */
    method Print(msg: nat, ghost bufEnd: nat)
      requires msg <= bufEnd < buf.Length && buf[bufEnd] == 0 && 0 !in buf[msg..bufEnd]
      modifies this`console
      ensures console == old(console) + buf[msg..bufEnd]
    {
      forall k | msg <= k < bufEnd ensures buf[k] != 0 { assert buf[k] == buf[msg..bufEnd][k - msg]; }
      var i := msg;
      while buf[i] != 0
        invariant msg <= i <= bufEnd && console == old(console) + buf[msg..i]
        decreases bufEnd - i
      {
        console := console + [buf[i]];
        i := i + 1;
      }
    }

    /** "log append": its words one by one, with a space or the final newline after each. */
    method Append(args: seq<seq<byte>>)
      requires Valid() && forall i :: 0 <= i < |args| ==> 0 !in args[i] && |args[i]| + 4 <= WORK_LEN
      modifies this`start, this`size, this`end, this`chars, this`held, this`level, this`console, lbuf, buf
      ensures Valid() && Now() == Messages(old(Now()), consoleLevel, WordMessages(args))
      ensures held == Last(old(held) + Emit(old(level) >= 0, Joined(args)))
    {
      var i := 0;
      assert args[0..] == args;
      while i < |args|
        invariant Valid() && 0 <= i <= |args|
        invariant Messages(Now(), consoleLevel, WordMessages(args[i..]))
               == Messages(old(Now()), consoleLevel, WordMessages(args))
      {
        var c := if i < |args| - 1 then 32 else NEWLINE;
        TwoMessages(Now(), consoleLevel, args[i..], c);
        var n := Printk(args[i]);
        n := Printk([c]);
        assert args[i..][1..] == args[i + 1..];
        i := i + 1;
      }
      AppendLogs(old(Now()), consoleLevel, args);
    }
  }

  lemma {:induction false} TwoMessages(s: State, limit: nat, args: seq<seq<byte>>, c: byte)
    requires args != [] && c == if |args| == 1 then NEWLINE else 32
    ensures Messages(s, limit, WordMessages(args))
         == Messages(Message(Message(s, limit, args[0]), limit, [c]), limit, WordMessages(args[1..]))
  {
    var ms := WordMessages(args);
    assert ms[0] == args[0] && ms[1..][0] == [c] && ms[1..][1..] == WordMessages(args[1..]);
  }

  /** With a tag in front a first line is longer by it. */
  lemma {:induction false} TaggedLine(tag: seq<byte>, t: seq<byte>, n: nat)
    requires t != [] && NEWLINE !in tag && IsLineEnd(tag + t, n)
    ensures n == |tag| + LineEnd(t) && Complete(t) == ((tag + t)[n - 1] == NEWLINE)
    ensures (tag + t)[..n] == tag + t[..LineEnd(t)]
  {
    LineEndFinds(t);
    LineEndIs(tag + t, |tag| + LineEnd(t));
    LineEndIs(tag + t, n);
  }

  /** What of a message that ends at `bufEnd` is left from `p` on. */
  ghost predicate LeftIn(b: seq<byte>, p: nat, bufEnd: nat, rest: seq<byte>) {
    bufEnd < |b| && b[bufEnd] == 0 && rest == (if p <= bufEnd then b[p..bufEnd] else []) && 0 !in rest
  }

  lemma {:induction false} LeftOn(b: seq<byte>, p0: nat, bufEnd: nat, t: seq<byte>, p: nat)
    requires p0 <= bufEnd && t != [] && b != [] && bufEnd < |b| && b[bufEnd] == 0 && b[p0..bufEnd] == t && 0 !in t
    requires p == (if Complete(t) then p0 + LineEnd(t) else bufEnd + 1) && (!Complete(t) ==> LineEnd(t) == |t|)
    ensures LeftIn(b, p, bufEnd, t[LineEnd(t)..])
  {
    RestOfLine(b, p0, bufEnd, t, LineEnd(t));
  }

  lemma {:induction false} RestOfLine(b: seq<byte>, p0: nat, bufEnd: nat, t: seq<byte>, n: nat)
    requires p0 <= bufEnd <= |b| && t == b[p0..bufEnd] && n <= |t|
    ensures t[n..] == b[p0 + n..bufEnd] && (0 !in t ==> 0 !in t[n..])
  {
  }

  /** A turn of the outer loop has done the first line. */
  lemma {:induction false} LineDone(s: State, limit: nat, t: seq<byte>, n: nat, now: State)
    requires t != [] && |s.held| <= LEN && IsLineEnd(Tag(s.level >= 0, t) + t, n)
    requires now.held == Feed(s.held, Tag(s.level >= 0, t) + t, n)
    requires now.level == if (Tag(s.level >= 0, t) + t)[n - 1] == NEWLINE then -1 else LevelOf(s.level, t)
    requires now.console == s.console + Printed(s.level, limit, t)
    ensures now == OneLine(s, limit, t)
    ensures n == |Tag(s.level >= 0, t)| + LineEnd(t)
    ensures Complete(t) == ((Tag(s.level >= 0, t) + t)[n - 1] == NEWLINE)
    ensures !Complete(t) ==> LineEnd(t) == |t|
  {
    var tag := Tag(s.level >= 0, t);
    TaggedLine(tag, t, n);
    FeedIsLast(s.held, tag + t, n);
    LineEndFinds(t);
  }

  /** `x & LOGBUFF_MASK`. */
  function Masked14(x: u32): (p: nat)
    ensures p == And(x, LEN - 1) < LEN
  {
    LenIsPowerOfTwo();
    MaskIsRemainder(x, LEN_BITS);
    And(x, LEN - 1)
  }
}
