/** How the log of cmd_log.c marks each line with a priority: the text that reaches the ring, and the
    text that reaches the console, for the messages that are logged. */
module LogText {
  import opened Machine

  const NEWLINE: byte := 10
  const DEFAULT_LEVEL: int := 4

  /** "<0>" to "<7>" at the start of a text. */
  predicate HasTag(t: seq<byte>) {
    |t| >= 3 && t[0] == 60 && 48 <= t[1] <= 55 && t[2] == 62
  }

  function DefaultTag(): (tag: seq<byte>)
    ensures HasTag(tag) && |tag| == 3
  {
    [60, DEFAULT_LEVEL + 48, 62]
  }

  /** The length of the first line, with its newline if it has one. */
  function LineEnd(t: seq<byte>): (n: nat)
    ensures n <= |t| && (t != [] ==> n > 0)
  {
    if t == [] then 0 else if t[0] == NEWLINE then 1 else 1 + LineEnd(t[1..])
  }

  ghost predicate IsLineEnd(t: seq<byte>, n: nat) {
    && 0 < n <= |t| && (t[n - 1] == '\n' as int || n == |t|)
    && forall i :: 0 <= i < n - 1 ==> t[i] != '\n' as int
  }

  /** That describes it completely. */
  lemma {:induction false} LineEndFinds(t: seq<byte>)
    requires t != []
    ensures IsLineEnd(t, LineEnd(t))
  {
    if t[0] != NEWLINE && t[1..] != [] {
      LineEndFinds(t[1..]);
      var n := LineEnd(t[1..]);
      forall i | 0 <= i < n ensures t[i] != NEWLINE { assert i > 0 ==> t[i] == t[1..][i - 1]; }
    }
  }

  lemma {:induction false} LineEndIs(t: seq<byte>, n: nat)
    requires IsLineEnd(t, n)
    ensures LineEnd(t) == n
  {
    LineEndFinds(t);
  }

  /** Whether the first line is complete. */
  predicate Complete(t: seq<byte>)
    requires t != []
  {
    t[LineEnd(t) - 1] == NEWLINE
  }

  // ---- What is logged ----------------------------------------------------------------

  /** The tag that logbuff_printk puts in front: none in the middle of a line, and none if the line
      has its own. */
  function Tag(open: bool, t: seq<byte>): seq<byte> {
    if open || HasTag(t) then [] else DefaultTag()
  }

  /** The text that is logged for a message; `open` says that the message continues a line. */
  function Emit(open: bool, t: seq<byte>): seq<byte>
    decreases |t|, !open
  {
    if t == [] then []
    else if open then [t[0]] + Emit(t[0] != NEWLINE, t[1..])
    else if HasTag(t) then t[..3] + Emit(true, t[3..])
    else DefaultTag() + Emit(true, t)
  }

  predicate OpenAfter(open: bool, t: seq<byte>) {
    if t == [] then open else t[|t| - 1] != NEWLINE
  }

  /** Every line that starts in the text starts with a tag. */
  predicate LinesTagged(open: bool, e: seq<byte>)
    decreases |e|, !open
  {
    e == [] || if open then LinesTagged(e[0] != NEWLINE, e[1..]) else HasTag(e) && LinesTagged(true, e[3..])
  }

  /** The text without the tags. */
  function Strip(open: bool, t: seq<byte>): seq<byte>
    decreases |t|, !open
  {
    if t == [] then []
    else if open then [t[0]] + Strip(t[0] != NEWLINE, t[1..])
    else Strip(true, if HasTag(t) then t[3..] else t)
  }

  lemma {:induction false} EmitTagged(open: bool, t: seq<byte>)
    ensures LinesTagged(open, Emit(open, t))
    decreases |t|, !open
  {
    var e := Emit(open, t);
    if t == [] {
    } else if open {
      EmitTagged(t[0] != NEWLINE, t[1..]);
      assert e[1..] == Emit(t[0] != NEWLINE, t[1..]);
    } else if HasTag(t) {
      EmitTagged(true, t[3..]);
      assert e[3..] == Emit(true, t[3..]);
    } else {
      EmitTagged(true, t);
      assert e[3..] == Emit(true, t);
    }
  }

  /** A text whose lines are tagged is logged as it is. */
  lemma {:induction false} TaggedIsKept(open: bool, e: seq<byte>)
    requires LinesTagged(open, e)
    ensures Emit(open, e) == e
    decreases |e|, !open
  {
    if e != [] {
      if open { TaggedIsKept(e[0] != NEWLINE, e[1..]); } else { TaggedIsKept(true, e[3..]); }
    }
  }

  /** So logging what was logged changes nothing. */
  lemma {:induction false} EmitTwice(open: bool, t: seq<byte>)
    ensures Emit(open, Emit(open, t)) == Emit(open, t)
  {
    EmitTagged(open, t);
    TaggedIsKept(open, Emit(open, t));
  }

  /** Nothing but tags is added, and nothing is lost. */
  lemma {:induction false} EmitAddsTagsOnly(open: bool, t: seq<byte>)
    ensures Strip(open, Emit(open, t)) == Strip(open, t)
    decreases |t|, !open
  {
    var e := Emit(open, t);
    if t == [] {
    } else if open {
      EmitAddsTagsOnly(t[0] != NEWLINE, t[1..]);
      assert e[1..] == Emit(t[0] != NEWLINE, t[1..]);
    } else if HasTag(t) {
      EmitAddsTagsOnly(true, t[3..]);
      assert e[3..] == Emit(true, t[3..]);
    } else {
      EmitAddsTagsOnly(true, t);
      assert e[3..] == Emit(true, t);
    }
  }

  // ---- Messages in pieces ------------------------------------------------------------

  /** A line starts at position `k` of a message. */
  predicate LineStart(open: bool, t: seq<byte>, k: nat)
    requires k < |t|
  {
    if k == 0 then !open else t[k - 1] == NEWLINE
  }

  /** At position `k` of `t` a line starts with a tag that ends in `u`. */
  predicate CutAt(open: bool, t: seq<byte>, u: seq<byte>, k: int) {
    0 <= k < |t| < k + 3 && LineStart(open, t, k) && HasTag((t + u)[k..])
  }

  predicate Straddles(open: bool, t: seq<byte>, u: seq<byte>) {
    exists k :: 0 <= k < |t| && CutAt(open, t, u, k)
  }

  /** Logging a text in two pieces is logging it at once. */
  predicate Splits(open: bool, t: seq<byte>, u: seq<byte>) {
    Emit(open, t + u) == Emit(open, t) + Emit(OpenAfter(open, t), u)
  }

  /** That is so if and only if no tag lies across the cut. */
  lemma {:induction false} SplitIff(open: bool, t: seq<byte>, u: seq<byte>)
    ensures Splits(open, t, u) <==> !Straddles(open, t, u)
    decreases |t|, !open
  {
    if t == [] {
      assert t + u == u;
    } else if open {
      SplitIff(t[0] != NEWLINE, t[1..], u);
      SplitsOne(t, u);
      SkipOne(t, u);
    } else if HasTag(t) {
      SplitIff(true, t[3..], u);
      SplitsTag(t, u);
      SkipTag(t, u);
    } else if HasTag(t + u) {
      CutTag(t, u);
    } else {
      SplitIff(true, t, u);
      Cancel(DefaultTag(), Emit(true, t + u), Emit(true, t), Emit(OpenAfter(true, t), u));
      SkipStart(t, u);
    }
  }

  lemma {:induction false} SplitsOne(t: seq<byte>, u: seq<byte>)
    requires t != []
    ensures Splits(true, t, u) == Splits(t[0] != NEWLINE, t[1..], u)
  {
    var open, rest := t[0] != NEWLINE, t[1..];
    assert (t + u)[1..] == rest + u;
    Cancel([t[0]], Emit(open, rest + u), Emit(open, rest), Emit(OpenAfter(true, t), u));
  }

  lemma {:induction false} SplitsTag(t: seq<byte>, u: seq<byte>)
    requires HasTag(t)
    ensures Splits(false, t, u) == Splits(true, t[3..], u)
  {
    assert (t + u)[3..] == t[3..] + u && (t + u)[..3] == t[..3];
    Cancel(t[..3], Emit(true, t[3..] + u), Emit(true, t[3..]), Emit(OpenAfter(false, t), u));
  }

  lemma {:induction false} Cancel(p: seq<byte>, whole: seq<byte>, a: seq<byte>, b: seq<byte>)
    ensures p + whole == (p + a) + b <==> whole == a + b
  {
    assert (p + a) + b == p + (a + b);
    assert (p + whole)[|p|..] == whole && (p + (a + b))[|p|..] == a + b;
  }

  lemma {:induction false} CutShift(open: bool, open': bool, t: seq<byte>, u: seq<byte>, d: nat, k: nat)
    requires d <= k < |t| && LineStart(open, t, k) == LineStart(open', t[d..], k - d)
    ensures CutAt(open, t, u, k) == CutAt(open', t[d..], u, k - d)
  {
    assert (t + u)[k..] == (t[d..] + u)[k - d..];
  }

  /** In the middle of a line the first character does not matter. */
  lemma {:induction false} SkipOne(t: seq<byte>, u: seq<byte>)
    requires t != []
    ensures Straddles(true, t, u) == Straddles(t[0] != NEWLINE, t[1..], u)
  {
    var open, rest := t[0] != NEWLINE, t[1..];
    forall k | 0 < k < |t| ensures CutAt(true, t, u, k) == CutAt(open, rest, u, k - 1) {
      CutShift(true, open, t, u, 1, k);
    }
    if k :| 0 <= k < |rest| && CutAt(open, rest, u, k) { assert CutAt(true, t, u, k + 1); }
  }

  lemma {:induction false} SkipTag(t: seq<byte>, u: seq<byte>)
    requires HasTag(t)
    ensures Straddles(false, t, u) == Straddles(true, t[3..], u)
  {
    var rest := t[3..];
    forall k | 3 <= k < |t| ensures CutAt(false, t, u, k) == CutAt(true, rest, u, k - 3) {
      CutShift(false, true, t, u, 3, k);
    }
    if k :| 0 <= k < |rest| && CutAt(true, rest, u, k) { assert CutAt(false, t, u, k + 3); }
  }

  /** A tag that is cut is not seen, and the line gets another one. */
  lemma {:induction false} CutTag(t: seq<byte>, u: seq<byte>)
    requires t != [] && !HasTag(t) && HasTag(t + u)
    ensures Straddles(false, t, u)
    ensures |Emit(false, t + u)| < |Emit(false, t) + Emit(OpenAfter(false, t), u)|
  {
    var n := |t|;
    assert (t + u)[0..] == t + u;
    assert CutAt(false, t, u, 0);
    assert forall i :: 0 <= i < 3 ==> (t + u)[i] != NEWLINE;
    PlainPrefix(t, []);
    assert t + [] == t;
    assert u == u[..3 - n] + u[3 - n..] && (t + u)[3..] == u[3 - n..];
    PlainPrefix(u[..3 - n], u[3 - n..]);
  }

  /** "<5>" logged as "<" and "5>" becomes "<4><5>". */
  lemma {:induction false} TagInTwoPieces()
    ensures Straddles(false, [60], [53, 62])
    ensures Emit(false, [60]) + Emit(OpenAfter(false, [60]), [53, 62]) == DefaultTag() + [60, 53, 62]
    ensures Emit(false, [60, 53, 62]) == [60, 53, 62]
  {
    CutTag([60], [53, 62]);
    PlainPrefix([60], []);
    PlainPrefix([53, 62], []);
    assert [60] + [] == [60] && [53, 62] + [] == [53, 62];
  }

  /** Without a newline the rest of a line goes through as it is. */
  lemma {:induction false} PlainPrefix(t: seq<byte>, u: seq<byte>)
    requires NEWLINE !in t
    ensures Emit(true, t + u) == t + Emit(true, u)
  {
    if t == [] {
      assert t + u == u;
    } else {
      assert t[0] in t && (t + u)[1..] == t[1..] + u;
      PlainPrefix(t[1..], u);
    }
  }

  lemma {:induction false} SkipStart(t: seq<byte>, u: seq<byte>)
    requires t != [] && !HasTag(t + u)
    ensures Straddles(false, t, u) == Straddles(true, t, u)
  {
    assert (t + u)[0..] == t + u;
    forall k | 0 <= k < |t| ensures CutAt(false, t, u, k) == CutAt(true, t, u, k) {}
  }

  /** A character that is in no tag can be logged on its own before or after anything. */
  lemma {:induction false} PlainSplits(open: bool, t: seq<byte>, c: byte, u: seq<byte>)
    requires c == 32 || c == NEWLINE
    ensures Emit(open, t + [c]) == Emit(open, t) + Emit(OpenAfter(open, t), [c])
    ensures Emit(open, t + [c] + u) == Emit(open, t + [c]) + Emit(OpenAfter(open, t + [c]), u)
  {
    NotInTag(open, t, c, u);
    SplitIff(open, t, [c]);
    SplitIff(open, t + [c], u);
  }

  lemma {:induction false} NotInTag(open: bool, t: seq<byte>, c: byte, u: seq<byte>)
    requires c == 32 || c == NEWLINE
    ensures !Straddles(open, t, [c]) && !Straddles(open, t + [c], u)
  {
    forall k | 0 <= k < |t| < k + 3 ensures !HasTag((t + [c])[k..]) {
      assert (t + [c])[k..][|t| - k] == c;
    }
    forall k | 0 <= k <= |t| < k + 2 ensures !HasTag((t + [c] + u)[k..]) {
      assert (t + [c] + u)[k..][|t| - k] == c;
    }
  }

  /** Line by line: an open line goes through up to its end. */
  lemma {:induction false} EmitLine(t: seq<byte>)
    requires t != []
    ensures Emit(true, t) == t[..LineEnd(t)] + Emit(!Complete(t), t[LineEnd(t)..])
  {
    LineEndFinds(t);
    EmitUpTo(t, LineEnd(t));
  }

  /** Each line is logged with the tag it needs. */
  lemma {:induction false} EmitStep(open: bool, t: seq<byte>)
    requires t != []
    ensures Emit(open, t) == Tag(open, t) + t[..LineEnd(t)] + Emit(!Complete(t), t[LineEnd(t)..])
  {
    EmitLine(t);
    var line, rest := t[..LineEnd(t)], Emit(!Complete(t), t[LineEnd(t)..]);
    assert DefaultTag() + (line + rest) == DefaultTag() + line + rest && [] + line == line;
    if !open && HasTag(t) {
      PlainPrefix(t[..3], t[3..]);
      assert t[..3] + t[3..] == t;
    }
  }

  lemma {:induction false} EmitUpTo(t: seq<byte>, n: nat)
    requires IsLineEnd(t, n)
    ensures Emit(true, t) == t[..n] + Emit(t[n - 1] != NEWLINE, t[n..])
  {
    var head, tail := t[..n - 1], t[n - 1..];
    assert t == head + tail && t[..n] == head + [tail[0]] && tail[1..] == t[n..];
    PlainPrefix(head, tail);
  }

  // ---- Commands ----------------------------------------------------------------------

  /** What "log append" logs: each word, then a space, or a newline after the last one. */
  function Words(open: bool, args: seq<seq<byte>>): seq<byte>
    decreases |args|
  {
    if args == [] then []
    else
      var c := if |args| == 1 then NEWLINE else 32;
      var after := OpenAfter(open, args[0]);
      Emit(open, args[0]) + Emit(after, [c]) + Words(OpenAfter(after, [c]), args[1..])
  }

  /** The words with spaces between them. */
  function Joined(args: seq<seq<byte>>): seq<byte> {
    if args == [] then [] else args[0] + [if |args| == 1 then NEWLINE else 32] + Joined(args[1..])
  }

  /** "log append" logs its words as one message. */
  lemma {:induction false} AppendIsOneMessage(open: bool, args: seq<seq<byte>>)
    ensures Words(open, args) == Emit(open, Joined(args))
    decreases |args|
  {
    if args != [] {
      var c := if |args| == 1 then NEWLINE else 32;
      var t := args[0] + [c];
      PlainSplits(open, args[0], c, Joined(args[1..]));
      AppendIsOneMessage(OpenAfter(open, t), args[1..]);
    }
  }

  // ---- What reaches the console ------------------------------------------------------

  function TagSize(open: bool, t: seq<byte>): (k: nat)
    ensures k <= LineEnd(t) && (k == 3 ==> HasTag(t))
  {
    if !open && HasTag(t) then TagInLine(t); 3 else 0
  }

  /** A tag does not reach into the next line. */
  lemma {:induction false} TagInLine(t: seq<byte>)
    requires HasTag(t)
    ensures LineEnd(t) >= 3
  {
    LineEndFinds(t);
    var n := LineEnd(t);
    assert t[n - 1] == NEWLINE || n == |t|;
  }

  /** The priority of the first line; a line that goes on keeps the one it has. */
  function LevelOf(level: int, t: seq<byte>): (l: int)
    ensures level >= 0 ==> l == level
    ensures l >= 0
  {
    if level >= 0 then level else if HasTag(t) then t[1] - 48 else DEFAULT_LEVEL
  }

  function LevelNext(level: int, t: seq<byte>): int
    requires t != []
  {
    if Complete(t) then -1 else LevelOf(level, t)
  }

  function LevelAfter(level: int, t: seq<byte>): int
    decreases |t|
  {
    if t == [] then level else LevelAfter(LevelNext(level, t), t[LineEnd(t)..])
  }

  lemma {:induction false} LevelOpen(level: int, t: seq<byte>)
    ensures LevelAfter(level, t) >= 0 <==> OpenAfter(level >= 0, t)
    decreases |t|
  {
    if t != [] {
      LineEndFinds(t);
      LevelOpen(LevelNext(level, t), t[LineEnd(t)..]);
    }
  }

  /** What is printed for each line whose priority is below the limit: everything from the line on. */
  function Console(level: int, limit: nat, t: seq<byte>): seq<byte>
    decreases |t|
  {
    if t == [] then []
    else (if LevelOf(level, t) < limit then t[TagSize(level >= 0, t)..] else [])
         + Console(LevelNext(level, t), limit, t[LineEnd(t)..])
  }

  // ---- What ought to reach it --------------------------------------------------------

  /** A tag is one of "<0>" to "<7>". */
  lemma {:induction false} TagIs(t: seq<byte>)
    ensures HasTag(t) <==> exists d: nat :: IsTag(t, d)
  {
    if HasTag(t) { assert IsTag(t, t[1] - 48); }
  }

  predicate IsTag(t: seq<byte>, d: nat) {
    d < 8 && |t| >= 3 && t[..3] == ['<' as int, '0' as int + d, '>' as int]
  }

  /** A line that has none gets "<4>". */
  lemma {:induction false} DefaultIsFour(t: seq<byte>)
    requires t != [] && !HasTag(t)
    ensures Emit(false, t)[..3] == ['<' as int, '4' as int, '>' as int]
  {
  }

  /** A line of the log: its priority, and its characters without the tag. */
  datatype Line = Line(priority: int, text: seq<byte>)

  /** The lines of a logged text as a reader of the log finds them: each has the digit of its tag for its
      priority, and one that was started earlier has the priority it was started with. */
  function ReadLog(level: int, e: seq<byte>): seq<Line>
    decreases |e|
  {
    var n := LineEnd(e);
    if e == [] then []
    else if level >= 0 then [Line(level, e[..n])] + ReadLog(-1, e[n..])
    else if n < 3 then []
    else [Line(e[1] - '0' as int, e[3..n])] + ReadLog(-1, e[n..])
  }

  /** The lines of a message, read from what is logged for it. */
  function LinesOf(level: int, t: seq<byte>): seq<Line> {
    ReadLog(level, Emit(level >= 0, t))
  }

  function Below(limit: nat, lines: seq<Line>): seq<byte> {
    if lines == [] then []
    else (if lines[0].priority < limit then lines[0].text else []) + Below(limit, lines[1..])
  }

  /** What is promised: each line of the message whose priority is below the limit, once. */
  function Promised(level: int, limit: nat, t: seq<byte>): seq<byte> {
    Below(limit, LinesOf(level, t))
  }

  /** Such a line is not the last one of the message. */
  ghost predicate Repeats(level: int, limit: nat, t: seq<byte>) {
    EarlyBelow(limit, LinesOf(level, t))
  }

  ghost predicate EarlyBelow(limit: nat, lines: seq<Line>) {
    exists i :: 0 <= i < |lines| - 1 && lines[i].priority < limit
  }

  /** The first line of a message and the others. */
  lemma {:induction false} FirstLine(level: int, t: seq<byte>)
    requires t != []
    ensures var n := LineEnd(t);
            LinesOf(level, t)
            == [Line(LevelOf(level, t), t[TagSize(level >= 0, t)..n])] + LinesOf(LevelNext(level, t), t[n..])
  {
    var open, n := level >= 0, LineEnd(t);
    var rest := Emit(!Complete(t), t[n..]);
    EmitStep(open, t);
    LineEndFinds(t);
    ReadOne(level, t, rest);
    RestOfLines(level, t, n, rest);
  }

  lemma {:induction false} ReadOne(level: int, t: seq<byte>, rest: seq<byte>)
    requires t != [] && (!Complete(t) ==> rest == [])
    ensures var n := LineEnd(t);
            ReadLog(level, Tag(level >= 0, t) + t[..n] + rest)
            == [Line(LevelOf(level, t), t[TagSize(level >= 0, t)..n])] + ReadLog(-1, rest)
  {
    var open, n := level >= 0, LineEnd(t);
    var tag := Tag(open, t);
    var e := tag + t[..n] + rest;
    TaggedLine(tag, t, rest);
    assert e[|tag| + n..] == rest;
    if open {
      assert e[..n] == t[..n];
    } else {
      ReadTagged(tag, t, rest, e);
    }
  }

  lemma {:induction false} ReadTagged(tag: seq<byte>, t: seq<byte>, rest: seq<byte>, e: seq<byte>)
    requires t != [] && tag == Tag(false, t) && e == tag + t[..LineEnd(t)] + rest
    ensures |e| >= |tag| + LineEnd(t) >= 3
    ensures e[1] == '0' as int + LevelOf(-1, t) && e[3..|tag| + LineEnd(t)] == t[TagSize(false, t)..LineEnd(t)]
  {
    if HasTag(t) { TagInLine(t); }
  }

  lemma {:induction false} RestOfLines(level: int, t: seq<byte>, n: nat, rest: seq<byte>)
    requires t != [] && n == LineEnd(t) && rest == Emit(!Complete(t), t[n..])
    ensures ReadLog(-1, rest) == LinesOf(LevelNext(level, t), t[n..])
  {
    LineEndFinds(t);
    if !Complete(t) {
      assert t[n..] == [] && rest == [];
      assert LinesOf(LevelNext(level, t), []) == [];
    }
  }

  lemma {:induction false} TaggedLine(tag: seq<byte>, t: seq<byte>, rest: seq<byte>)
    requires t != [] && NEWLINE !in tag && (!Complete(t) ==> rest == [])
    ensures LineEnd(tag + t[..LineEnd(t)] + rest) == |tag| + LineEnd(t)
  {
    var n := LineEnd(t);
    var e := tag + t[..n] + rest;
    LineEndFinds(t);
    forall i | 0 <= i < |tag| + n - 1 ensures e[i] != NEWLINE {
      if i < |tag| { assert e[i] == tag[i]; } else { assert e[i] == t[i - |tag|]; }
    }
    assert e[|tag| + n - 1] == t[n - 1];
    LineEndIs(e, |tag| + n);
  }

  /** The priority of a line is the digit of the tag that is logged for it. */
  lemma {:induction false} PriorityIsTag(t: seq<byte>)
    requires t != []
    ensures |Emit(false, t)| >= 3 && Emit(false, t)[1] == '0' as int + LevelOf(-1, t) && 0 <= LevelOf(-1, t) < 8
  {
  }

  /** A line that is not ended keeps the priority of the tag that opened it for later messages. */
  lemma {:induction false} PriorityKept(level: int, t: seq<byte>)
    requires t != []
    ensures LinesOf(level, t) != []
    ensures LevelAfter(level, t)
         == if t[|t| - 1] == NEWLINE then -1 else LinesOf(level, t)[|LinesOf(level, t)| - 1].priority
    decreases |t|
  {
    var n := LineEnd(t);
    LineEndFinds(t);
    FirstLine(level, t);
    var rest := LinesOf(LevelNext(level, t), t[n..]);
    if t[n..] != [] {
      PriorityKept(LevelNext(level, t), t[n..]);
      LastOfRest(Line(LevelOf(level, t), t[TagSize(level >= 0, t)..n]), rest);
      assert t[n..][|t[n..]| - 1] == t[|t| - 1];
    } else {
      assert rest == [];
    }
  }

  lemma {:induction false} LastOfRest(first: Line, rest: seq<Line>)
    requires rest != []
    ensures ([first] + rest)[|rest|] == rest[|rest| - 1]
  {
  }

  /** What the lines of a message promise, line by line. */
  lemma {:induction false} PromisedStep(level: int, limit: nat, t: seq<byte>)
    requires t != []
    ensures var n, next := LineEnd(t), LevelNext(level, t);
            && Promised(level, limit, t)
               == (if LevelOf(level, t) < limit then t[TagSize(level >= 0, t)..n] else [])
                  + Promised(next, limit, t[n..])
            && (Repeats(level, limit, t)
                <==> (LevelOf(level, t) < limit && n < |t|) || Repeats(next, limit, t[n..]))
  {
    var n, next := LineEnd(t), LevelNext(level, t);
    var first, rest := Line(LevelOf(level, t), t[TagSize(level >= 0, t)..n]), LinesOf(next, t[n..]);
    FirstLine(level, t);
    assert ([first] + rest)[1..] == rest;
    EarlyStep(limit, first, rest);
    if t[n..] != [] { PriorityKept(next, t[n..]); } else { assert rest == []; }
  }

  lemma {:induction false} EarlyStep(limit: nat, first: Line, rest: seq<Line>)
    ensures EarlyBelow(limit, [first] + rest) <==> (first.priority < limit && rest != []) || EarlyBelow(limit, rest)
  {
    var all := [first] + rest;
    if first.priority < limit && rest != [] { assert all[0] == first; }
    if EarlyBelow(limit, rest) {
      var i :| 0 <= i < |rest| - 1 && rest[i].priority < limit;
      assert all[i + 1] == rest[i];
    }
    if EarlyBelow(limit, all) {
      var i :| 0 <= i < |all| - 1 && all[i].priority < limit;
      assert i > 0 ==> all[i] == rest[i - 1];
    }
  }

  /** The console shows what is promised if and only if no line below the limit is followed by more text in
      its message; otherwise it shows that text again. */
  lemma {:induction false} ConsoleIff(level: int, limit: nat, t: seq<byte>)
    ensures Console(level, limit, t) == Promised(level, limit, t) <==> !Repeats(level, limit, t)
    ensures |Console(level, limit, t)| >= |Promised(level, limit, t)|
    ensures Repeats(level, limit, t) ==> |Console(level, limit, t)| > |Promised(level, limit, t)|
    decreases |t|
  {
    if t == [] {
      assert LinesOf(level, t) == [];
    } else {
      ConsoleIff(LevelNext(level, t), limit, t[LineEnd(t)..]);
      PromisedStep(level, limit, t);
      if LineEnd(t) == |t| { assert t[TagSize(level >= 0, t)..LineEnd(t)] == t[TagSize(level >= 0, t)..]; }
    }
  }

  /** Two lines of priority 0 in one message: the second is printed twice. */
  lemma {:induction false} SecondLineTwice()
    ensures var one, two := [60, 48, 62, 65, NEWLINE], [60, 48, 62, 66, NEWLINE];
            && Promised(-1, 3, one + two) == [65, NEWLINE, 66, NEWLINE]
            && Console(-1, 3, one + two) == [65, NEWLINE] + two + [66, NEWLINE]
  {
    var one: seq<byte>, two: seq<byte> := [60, 48, 62, 65, NEWLINE], [60, 48, 62, 66, NEWLINE];
    var t := one + two;
    LineEndIs(t, 5);
    LineEndIs(two, 5);
    assert t[5..] == two && two[5..] == [] && t[3..] == [65, NEWLINE] + two && two[3..] == [66, NEWLINE];
    assert t[3..5] == [65, NEWLINE] && two[3..5] == [66, NEWLINE];
    assert LevelNext(-1, t) == -1 && LevelOf(-1, t) == 0 && LevelOf(-1, two) == 0;
    PromisedStep(-1, 3, t);
    PromisedStep(-1, 3, two);
    assert LinesOf(-1, []) == [];
    assert Console(-1, 3, two) == [66, NEWLINE] && Promised(-1, 3, two) == [66, NEWLINE];
  }
}
