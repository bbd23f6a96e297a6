/** The three-pointer circular buffer of cycle_buff/buff.c: free-running 32-bit counters over a
    power-of-two byte array, refining a queue in two parts. */
module CircularBuffer {
  import opened Machine
  import opened Ring

  // ---- The queue ---------------------------------------------------------------------

  /** What is in the buffer: sent but not yet acknowledged, then not yet sent. */
  datatype Queue = Queue(sent: seq<byte>, unsent: seq<byte>)

  function All(q: Queue): seq<byte> { q.sent + q.unsent }

  function PushIn(q: Queue, bytes: seq<byte>): Queue { q.(unsent := q.unsent + bytes) }

  /** What buff_try returns, and the queue it leaves. */
  function Tried(q: Queue, max: nat): seq<byte> { q.unsent[..Min(max, |q.unsent|)] }

  function AfterTry(q: Queue, max: nat): Queue {
    var n := Min(max, |q.unsent|);
    Queue(q.sent + q.unsent[..n], q.unsent[n..])
  }

  /** buff_out removes from the front of everything; while unsent data remained before the call,
      the trial pointer is rewound, so that what is left counts as unsent. */
  function Removed(q: Queue, max: nat): seq<byte> { All(q)[..Min(max, |All(q)|)] }

  function AfterOut(q: Queue, max: nat): Queue {
    var rest := All(q)[Min(max, |All(q)|)..];
    if q.unsent == [] then Queue(rest, []) else Queue([], rest)
  }

  function AfterRetry(q: Queue, max: nat): Queue {
    var k := |q.sent| - Min(max, |q.sent|);
    Queue(q.sent[..k], q.sent[k..] + q.unsent)
  }

  datatype Op = In(bytes: seq<byte>) | Try(max: nat) | Out(max: nat) | OutByte | Retry(max: nat) | ClearTrial

  /** The guards: input is cut to the free space by buff_in, and buff_outb needs trial data. */
  predicate Enabled(q: Queue, capacity: nat, op: Op) {
    match op
    case In(bytes) => |All(q)| + |bytes| <= capacity
    case OutByte => q.sent != []
    case _ => true
  }

  function Step(q: Queue, op: Op): Queue {
    match op
    case In(bytes) => PushIn(q, bytes)
    case Try(max) => AfterTry(q, max)
    case Out(max) => AfterOut(q, max)
    case OutByte => if q.sent == [] then q else Queue(q.sent[1..], q.unsent)
    case Retry(max) => AfterRetry(q, max)
    case ClearTrial => Queue([], All(q))
  }

  function Entered(op: Op): seq<byte> { if op.In? then op.bytes else [] }

  function Left(q: Queue, op: Op): seq<byte> {
    match op
    case Out(max) => Removed(q, max)
    case OutByte => if q.sent == [] then [] else q.sent[..1]
    case _ => []
  }

  function Run(q: Queue, ops: seq<Op>): Queue {
    if ops == [] then q else Step(Run(q, ops[..|ops| - 1]), ops[|ops| - 1])
  }

  ghost predicate Guarded(q: Queue, capacity: nat, ops: seq<Op>) {
    forall i :: 0 <= i < |ops| ==> Enabled(Run(q, ops[..i]), capacity, ops[i])
  }

  function AllEntered(ops: seq<Op>): seq<byte> {
    if ops == [] then [] else AllEntered(ops[..|ops| - 1]) + Entered(ops[|ops| - 1])
  }

  function AllLeft(q: Queue, ops: seq<Op>): seq<byte> {
    if ops == [] then []
    else AllLeft(q, ops[..|ops| - 1]) + Left(Run(q, ops[..|ops| - 1]), ops[|ops| - 1])
  }

  lemma {:induction false} OutConserves(q: Queue, max: nat)
    ensures All(q) == Removed(q, max) + All(AfterOut(q, max))
  {
    var all, n := All(q), Min(max, |All(q)|);
    assert all == all[..n] + all[n..];
  }

  lemma {:induction false} StepConserves(q: Queue, op: Op)
    ensures All(q) + Entered(op) == Left(q, op) + All(Step(q, op))
  {
    match op
    case In(bytes) => assert All(q) + bytes == All(PushIn(q, bytes));
    case Try(max) => assert All(q) == All(AfterTry(q, max));
    case Out(max) => OutConserves(q, max);
    case OutByte => assert q.sent != [] ==> q.sent == q.sent[..1] + q.sent[1..];
    case Retry(max) => assert All(q) == All(AfterRetry(q, max));
    case ClearTrial =>
  }

  /** First in, first out, over every sequence of operations: what has left, followed by what is
      still inside, is what was inside at first followed by what has entered. */
  lemma {:induction false} Fifo(q: Queue, ops: seq<Op>)
    ensures All(q) + AllEntered(ops) == AllLeft(q, ops) + All(Run(q, ops))
  {
    if ops == [] {
      assert All(q) + AllEntered(ops) == AllLeft(q, ops) + All(Run(q, ops));
    } else {
      var init, op := ops[..|ops| - 1], ops[|ops| - 1];
      var mid := Run(q, init);
      Fifo(q, init);
      StepConserves(mid, op);
      Chain(All(q), AllEntered(init), Entered(op), AllLeft(q, init), All(mid), Left(mid, op), All(Step(mid, op)));
    }
  }

  lemma {:induction false} Chain(start: seq<byte>, entered: seq<byte>, e: seq<byte>, left: seq<byte>, mid: seq<byte>,
                                 l: seq<byte>, end: seq<byte>)
    requires start + entered == left + mid && mid + e == l + end
    ensures start + (entered + e) == (left + l) + end
  {
    assert start + (entered + e) == (start + entered) + e == left + (mid + e) == (left + l) + end;
  }

  /** Guarded operations never overfill the buffer. */
  lemma {:induction false} NeverOverfull(q: Queue, capacity: nat, ops: seq<Op>)
    requires |All(q)| <= capacity && Guarded(q, capacity, ops)
    ensures |All(Run(q, ops))| <= capacity
  {
    if ops != [] {
      var k := |ops| - 1;
      forall i | 0 <= i < k ensures Enabled(Run(q, ops[..k][..i]), capacity, ops[..k][i]) {
        assert ops[..k][..i] == ops[..i];
      }
      NeverOverfull(q, capacity, ops[..k]);
      StepConserves(Run(q, ops[..k]), ops[k]);
    }
  }

  lemma {:induction false} InputsOnlyAppend(q: Queue, ops: seq<Op>)
    requires forall i :: 0 <= i < |ops| ==> ops[i].In?
    ensures Run(q, ops) == PushIn(q, AllEntered(ops))
  {
    if ops != [] { InputsOnlyAppend(q, ops[..|ops| - 1]); }
  }

  /** Bytes that have been sent and are rewound come out again, the same and first, however much
      input arrives in between. */
  lemma {:induction false} RetryThenTry(q: Queue, n: nat, ops: seq<Op>)
    requires n <= |q.sent| && forall i :: 0 <= i < |ops| ==> ops[i].In?
    ensures Tried(Run(AfterRetry(q, n), ops), n) == q.sent[|q.sent| - n..]
  {
    InputsOnlyAppend(AfterRetry(q, n), ops);
  }

  /** In particular a whole trial can be repeated. */
  lemma {:induction false} TryAgain(q: Queue, max: nat, ops: seq<Op>)
    requires forall i :: 0 <= i < |ops| ==> ops[i].In?
    ensures var b := Tried(q, max);
            Tried(Run(AfterRetry(AfterTry(q, max), |b|), ops), |b|) == b
  {
    RetryThenTry(AfterTry(q, max), |Tried(q, max)|, ops);
  }

  // ---- The buffer --------------------------------------------------------------------

  function SplitAt(all: seq<byte>, k: nat): Queue
    requires k <= |all|
  {
    Queue(all[..k], all[k..])
  }

  /** The queue of `d` bytes that starts at position `out`, the first `t` of them sent. */
  function QueueAt(data: seq<byte>, out: int, t: nat, d: nat): Queue
    requires |data| > 0 && t <= d
  {
    SplitAt(Slice(data, out, d), t)
  }

  lemma {:induction false} PartOfSlice(data: seq<byte>, from: int, t: nat, n: nat, d: nat)
    requires |data| > 0 && t + n <= d
    ensures Slice(data, from + t, n) == Slice(data, from, d)[t..][..n]
  {
    SliceJoin(data, from, t, d - t);
    SliceJoin(data, from + t, n, d - t - n);
  }

  /** New bytes copied in after the `d` bytes of the queue. */
  lemma {:induction false} PushedIn(before: seq<byte>, after: seq<byte>, out: int, t: nat, d: nat, p0: nat,
                                    src: seq<byte>)
    requires t <= d && d + |src| < |before| && CopiedIn(before, after, p0, src) && p0 == (out + d) % |before|
    ensures QueueAt(after, out, t, d + |src|) == PushIn(QueueAt(before, out, t, d), src)
  {
    assert Slice(after, out, d) == Slice(before, out, d) by { CopiedKeeps(before, after, p0, src, out + d, d); }
    assert Slice(after, out + d, |src|) == src by { CopiedSlice(before, after, p0, src, out + d); }
    SliceJoin(after, out, d, |src|);
    SplitGrows(Slice(before, out, d), t, src);
  }

  lemma {:induction false} SplitGrows(all: seq<byte>, t: nat, src: seq<byte>)
    requires t <= |all|
    ensures SplitAt(all + src, t) == PushIn(SplitAt(all, t), src)
  {
    assert (all + src)[..t] == all[..t] && (all + src)[t..] == all[t..] + src;
  }

  lemma {:induction false} TrialForward(data: seq<byte>, out: int, t: nat, d: nat, max: nat)
    requires |data| > 0 && t <= d
    ensures QueueAt(data, out, t + Min(max, d - t), d) == AfterTry(QueueAt(data, out, t, d), max)
  {
    var all, n := Slice(data, out, d), Min(max, d - t);
    assert all[..t + n] == all[..t] + all[t..][..n] && all[t + n..] == all[t..][n..];
  }

  lemma {:induction false} TrialBack(data: seq<byte>, out: int, t: nat, d: nat, max: nat)
    requires |data| > 0 && t <= d
    ensures QueueAt(data, out, t - Min(max, t), d) == AfterRetry(QueueAt(data, out, t, d), max)
  {
    var all, k := Slice(data, out, d), t - Min(max, t);
    assert all[..k] == all[..t][..k] && all[k..] == all[..t][k..] + all[t..];
  }

  /** The bytes that are left when the first `n` have been taken. */
  lemma {:induction false} FrontTaken(data: seq<byte>, out: int, d: nat, n: nat)
    requires |data| > 0 && n <= d
    ensures Slice(data, out + n, d - n) == Slice(data, out, d)[n..]
    ensures Slice(data, out, n) == Slice(data, out, d)[..n]
  {
    PartOfSlice(data, out, n, d - n, d);
    PartOfSlice(data, out, 0, n, d);
  }

  lemma {:induction false} OutMoves(data: seq<byte>, out: int, t: nat, d: nat, max: nat)
    requires |data| > 0 && t <= d
    ensures var q, n := QueueAt(data, out, t, d), Min(max, d);
            && Slice(data, out, n) == Removed(q, max)
            && QueueAt(data, out + n, if t < d then 0 else d - n, d - n) == AfterOut(q, max)
  {
    var q, n, all := QueueAt(data, out, t, d), Min(max, d), Slice(data, out, d);
    FrontTaken(data, out, d, n);
    assert All(q) == all;
    assert all[n..][..d - n] == all[n..] && all[n..][d - n..] == [];
  }

  lemma {:induction false} OutOne(data: seq<byte>, out: int, t: nat, d: nat)
    requires |data| > 0 && 0 < t <= d
    ensures var q := QueueAt(data, out, t, d);
            && data[out % |data|] == q.sent[0]
            && QueueAt(data, out + 1, t - 1, d - 1) == Queue(q.sent[1..], q.unsent)
  {
    FrontTaken(data, out, d, 1);
    var all := Slice(data, out, d);
    assert all[1..][..t - 1] == all[..t][1..] && all[1..][t - 1..] == all[t..];
    assert all[0] == data[Spot(out, 0, |data|)];
  }

  class CBuff {
    const bits: nat              // _CBUFFLEN_ is 1 << bits
    var len: nat
    var inp: u32                 // in
    var out: u32
    var trial: u32
    const data: array<byte>
    ghost predicate Valid()
      reads this
    {
      && bits <= 15 && data.Length == len == Pow2(bits) && len <= 0x8000
      && Sub32(trial, out) <= Sub32(inp, out) < len   // out <= trial <= in, at most len - 1 bytes
    }

    ghost function View(): Queue
      requires Valid()
      reads this, data
    {
      QueueAt(data[..], out, Sub32(trial, out), Sub32(inp, out))
    }

    /** buff_init on the global buffer, whose length field it sets. */
    constructor (bits: nat, start: u32)
      requires bits <= 15
      ensures Valid() && fresh(data) && len == Pow2(bits) && View() == Queue([], [])
    {
      Pow2AtMost(bits);
      this.bits, len := bits, Pow2(bits);
      out, inp, trial := start, start, start;
      data := new byte[Pow2(bits)];
    }

    function DLen(): (n: nat)
      requires Valid()
      reads this, data
      ensures n == |All(View())| <= len - 1
    {
      MaskedExact(Sub32(inp, out), bits);
      Masked(Sub32(inp, out), bits)
    }

    function UntriedLen(): (n: nat)
      requires Valid()
      reads this, data
      ensures n == |View().unsent|
    {
      MaskedExact(Sub32(inp, trial), bits);
      Masked(Sub32(inp, trial), bits)
    }

    function TryLen(): (n: nat)
      requires Valid()
      reads this, data
      ensures n == |View().sent|
    {
      MaskedExact(Sub32(trial, out), bits);
      Masked(Sub32(trial, out), bits)
    }

    function FreeLen(): (n: nat)
      requires Valid()
      reads this, data
      ensures n == len - 1 - |All(View())|
    {
      len - 1 - DLen()
    }

    /** memcpy into the array. */
    method CopyTo(p: nat, src: seq<byte>)
      requires p + |src| <= data.Length
      modifies data
      ensures forall i :: 0 <= i < data.Length ==>
        data[i] == (if p <= i < p + |src| then src[i - p] else old(data[i]))
    {
      for k := 0 to |src|
        invariant forall i :: 0 <= i < data.Length ==>
          data[i] == (if p <= i < p + k then src[i - p] else old(data[i]))
      {
        data[p + k] := src[k];
      }
    }

    /** The two memcpy calls of buff_in. */
    method CopyWrapped(at: nat, src: seq<byte>)
      requires at < data.Length && |src| < data.Length
      modifies data
      ensures CopiedIn(old(data[..]), data[..], at, src)
    {
      var n1 := Min(|src|, data.Length - at);
      var n2 := |src| - n1;
      if n1 != 0 { CopyTo(at, src[..n1]); }
      if n2 != 0 { CopyTo(0, src[n1..]); }
    }

    /** What buff_in copies, if anything: the bytes that its counter then moves over. */
    method Place(src: Option<seq<byte>>, at: nat, n: nat) returns (ghost bytes: seq<byte>)
      requires at < data.Length && n < data.Length && (src.Some? ==> |src.value| >= n)
      modifies data
      ensures |bytes| == n && CopiedIn(old(data[..]), data[..], at, bytes)
      ensures src.Some? ==> bytes == src.value[..n]
      ensures src.None? ==> data[..] == old(data[..]) && bytes == CopyOut(old(data[..]), at, n)
    {
      if src.Some? {
        bytes := src.value[..n];
        CopyWrapped(at, src.value[..n]);
      } else {
        bytes := CopyOut(data[..], at, n);
        StaleCopied(data[..], at, n);
      }
    }

    /** buff_in: as much as there is room for is appended; with a null pointer the counter moves
        over whatever the array holds. */
    method In(src: Option<seq<byte>>, max: nat) returns (n: nat)
      requires Valid() && max < 0x1_0000 && (src.Some? ==> |src.value| >= max)
      modifies this`inp, data
      ensures Valid() && n == Min(max, len - 1 - |All(old(View()))|)
      ensures src.Some? ==> View() == PushIn(old(View()), src.value[..n])
      ensures src.None? ==> data[..] == old(data[..])
      ensures src.None? ==> View() == PushIn(old(View()), CopyOut(old(data[..]), Index(old(inp), bits), n))
    {
      var at := Index(inp, bits);
      n := Min(max, FreeLen());
      ghost var bytes := Place(src, at, n);
      Advanced(old(data[..]), data[..], bits, out, trial, inp, bytes);
      inp := Add32(inp, n);
    }

    /** buff_inb, which checks nothing. It appends the byte and keeps the counters in order if and only if
        there is room; a full buffer counts as empty afterwards. */
    method InByte(b: byte) returns (n: byte)
      requires Valid()
      modifies this`inp, data
      ensures n == 1 && (Valid() <==> old(FreeLen()) > 0)
      ensures old(FreeLen()) > 0 ==> View() == PushIn(old(View()), [b])
      ensures old(FreeLen()) == 0 ==> Masked(Sub32(inp, out), bits) == 0
    {
      var at := Index(inp, bits);
      data[at] := b;
      if FreeLen() > 0 {
        OneCopied(old(data[..]), at, b);
        Advanced(old(data[..]), data[..], bits, out, trial, inp, [b]);
      } else {
        PastFull(bits, out, inp);
      }
      inp := Add32(inp, 1);
      n := 1;
    }

    /** buff_instr: the string's length is cut to 16 bits first. */
    method InString(str: seq<byte>) returns (n: nat)
      requires Valid()
      modifies this`inp, data
      ensures Valid() && n == Min(|str| % 0x1_0000, len - 1 - |All(old(View()))|)
      ensures View() == PushIn(old(View()), str[..n])
    {
      n := In(Some(str), |str| % 0x1_0000);
    }

    /** The two memcpy calls that read `n` bytes from a counter value. */
    method ReadOut(from: u32, n: nat) returns (bytes: seq<byte>)
      requires Valid() && n <= len
      ensures bytes == Slice(data[..], from, n)
    {
      IndexIsSpot(from, bits);
      var at := Index(from, bits);
      CopiedOut(data[..], at, n, from);
      bytes := CopyOut(data[..], at, n);
    }

    /** buff_try: unsent bytes are handed out, unless the pointer is null, and count as sent. */
    method Try(wanted: bool, max: nat) returns (n: nat, bytes: seq<byte>)
      requires Valid() && max < 0x1_0000
      modifies this`trial
      ensures Valid() && View() == AfterTry(old(View()), max)
      ensures n == |Tried(old(View()), max)| && bytes == (if wanted then Tried(old(View()), max) else [])
    {
      n := Min(max, UntriedLen());
      bytes := [];
      if wanted { bytes := ReadOut(trial, n); }
      TryStep(data[..], bits, out, trial, inp, max);
      trial := Add32(trial, n);
    }

    /** buff_out: bytes leave at the front; the trial counter follows while unsent data remains. */
    method Out(wanted: bool, max: nat) returns (n: nat, bytes: seq<byte>)
      requires Valid() && max < 0x1_0000
      modifies this`out, this`trial
      ensures Valid() && View() == AfterOut(old(View()), max)
      ensures n == |Removed(old(View()), max)| && bytes == (if wanted then Removed(old(View()), max) else [])
    {
      n := Min(max, DLen());
      bytes := [];
      if wanted { bytes := ReadOut(out, n); }
      OutStep(data[..], bits, out, trial, inp, max);
      var untried := UntriedLen();   // does not depend on out
      out := Add32(out, n);
      if untried != 0 { trial := out; }
    }

    /** buff_outb, which checks nothing. It takes the first sent byte and keeps the counters in order if and
        only if there is one; otherwise the buffer seems full of sent bytes afterwards. */
    method OutByte() returns (n: byte, b: byte)
      requires Valid()
      modifies this`out
      ensures n == 1 && (Valid() <==> old(TryLen()) > 0)
      ensures old(TryLen()) > 0 ==> old(View()).sent != [] && b == old(View()).sent[0]
      ensures old(TryLen()) > 0 ==> View() == Queue(old(View()).sent[1..], old(View()).unsent)
      ensures old(TryLen()) == 0 ==> Masked(Sub32(trial, out), bits) == len - 1
    {
      if TryLen() > 0 { OneStep(data[..], bits, out, trial, inp); } else { PastTrial(bits, out, trial); }
      b := data[Index(out, bits)];
      out := Add32(out, 1);
      n := 1;
    }

    /** buff_retry: the trial counter goes back over at most the bytes that are on trial. */
    method Retry(max: nat) returns (n: nat)
      requires Valid() && max < 0x1_0000
      modifies this`trial
      ensures Valid() && n == Min(max, |old(View()).sent|) && View() == AfterRetry(old(View()), max)
    {
      n := Min(max, TryLen());
      TrialBack(data[..], out, Sub32(trial, out), Sub32(inp, out), max);
      trial := Sub32(trial, n);
    }

    /** buff_clrtrial. */
    method ClearTrial()
      requires Valid()
      modifies this`trial
      ensures Valid() && View() == Queue([], All(old(View())))
    {
      trial := out;
    }
  }

  /** The whole step of buff_in on values: new bytes at the input counter extend the queue. */
  lemma {:induction false} Advanced(before: seq<byte>, after: seq<byte>, bits: nat, out: u32, trial: u32, inp: u32,
                                    src: seq<byte>)
    requires bits <= 15 && |before| == Pow2(bits) <= 0x8000 && Sub32(trial, out) <= Sub32(inp, out)
    requires Sub32(inp, out) + |src| < |before| && CopiedIn(before, after, Index(inp, bits), src)
    ensures Sub32(Add32(inp, |src|), out) == Sub32(inp, out) + |src|
    ensures QueueAt(after, out, Sub32(trial, out), Sub32(Add32(inp, |src|), out))
         == PushIn(QueueAt(before, out, Sub32(trial, out), Sub32(inp, out)), src)
  {
    InputAt(before, bits, out, inp);
    PushedIn(before, after, out, Sub32(trial, out), Sub32(inp, out), Index(inp, bits), src);
  }

  /** The whole step of buff_out on values. */
  lemma {:induction false} OutStep(data: seq<byte>, bits: nat, out: u32, trial: u32, inp: u32, max: nat)
    requires bits <= 15 && |data| == Pow2(bits) <= 0x8000 && Sub32(trial, out) <= Sub32(inp, out) < |data|
    ensures var q, n := QueueAt(data, out, Sub32(trial, out), Sub32(inp, out)), Min(max, Sub32(inp, out));
            var out' := Add32(out, n);
            var trial' := if Sub32(trial, out) < Sub32(inp, out) then out' else trial;
            && Slice(data, out, n) == Removed(q, max)
            && Sub32(trial', out') <= Sub32(inp, out') < |data|
            && QueueAt(data, out', Sub32(trial', out'), Sub32(inp, out')) == AfterOut(q, max)
  {
    var t, d := Sub32(trial, out), Sub32(inp, out);
    var n := Min(max, d);
    OutMoves(data, out, t, d, max);
    SliceWrap(data, out, n, d - n, bits);
  }

  /** The whole step of buff_outb on values. */
  lemma {:induction false} OneStep(data: seq<byte>, bits: nat, out: u32, trial: u32, inp: u32)
    requires bits <= 15 && |data| == Pow2(bits) <= 0x8000 && 0 < Sub32(trial, out) <= Sub32(inp, out) < |data|
    ensures var q, out' := QueueAt(data, out, Sub32(trial, out), Sub32(inp, out)), Add32(out, 1);
            && Sub32(trial, out') == Sub32(trial, out) - 1 && Sub32(inp, out') == Sub32(inp, out) - 1
            && q.sent != [] && data[Index(out, bits)] == q.sent[0]
            && QueueAt(data, out', Sub32(trial, out'), Sub32(inp, out')) == Queue(q.sent[1..], q.unsent)
  {
    IndexIsSpot(out, bits);
    OutOne(data, out, Sub32(trial, out), Sub32(inp, out));
    SliceWrap(data, out, 1, Sub32(inp, out) - 1, bits);
  }

  lemma {:induction false} OneCopied(before: seq<byte>, at: nat, b: byte)
    requires at < |before|
    ensures CopiedIn(before, before[at := b], at, [b])
  {
  }

  /** The in counter past a full buffer: the difference of the whole length is taken for none. */
  lemma {:induction false} PastFull(bits: nat, out: u32, inp: u32)
    requires bits <= 15 && Pow2(bits) <= 0x8000 && Sub32(inp, out) == Pow2(bits) - 1
    ensures Sub32(Add32(inp, 1), out) == Pow2(bits) && Masked(Pow2(bits), bits) == 0
  {
    MaskIsRemainder(Pow2(bits), bits);
    RemainderUnique(Pow2(bits), Pow2(bits), 1, 0);
  }

  /** The out counter past the trial counter: the difference of -1 is taken for the length less one. */
  lemma {:induction false} PastTrial(bits: nat, out: u32, trial: u32)
    requires bits <= 15 && Pow2(bits) <= 0x8000 && Sub32(trial, out) == 0
    ensures Sub32(trial, Add32(out, 1)) == 0xFFFF_FFFF && Masked(0xFFFF_FFFF, bits) == Pow2(bits) - 1
  {
    MaskIsRemainder(0xFFFF_FFFF, bits);
    WrapAround(0xFFFF_FFFF, bits);
    RemainderUnique(-1, Pow2(bits), -1, Pow2(bits) - 1);
  }

  /** The whole step of buff_try on values. */
  lemma {:induction false} TryStep(data: seq<byte>, bits: nat, out: u32, trial: u32, inp: u32, max: nat)
    requires bits <= 15 && |data| == Pow2(bits) <= 0x8000 && Sub32(trial, out) <= Sub32(inp, out) < |data|
    ensures var q := QueueAt(data, out, Sub32(trial, out), Sub32(inp, out));
            var n := Min(max, Sub32(inp, out) - Sub32(trial, out));
            var trial' := Add32(trial, n);
            && Slice(data, trial, n) == Tried(q, max)
            && Sub32(trial', out) <= Sub32(inp, out)
            && QueueAt(data, out, Sub32(trial', out), Sub32(inp, out)) == AfterTry(q, max)
  {
    var t, d := Sub32(trial, out), Sub32(inp, out);
    var n := Min(max, d - t);
    TriedAt(data, bits, out, trial, d, n);
    TrialForward(data, out, t, d, max);
    assert Sub32(Add32(trial, n), out) == t + n;
  }

  lemma {:induction false} TriedAt(data: seq<byte>, bits: nat, out: u32, trial: u32, d: nat, n: nat)
    requires bits <= 15 && |data| == Pow2(bits) <= 0x8000 && Sub32(trial, out) + n <= d
    ensures Slice(data, trial, n) == Slice(data, out, d)[Sub32(trial, out)..][..n]
  {
    SliceWrap(data, out, Sub32(trial, out), n, bits);
    PartOfSlice(data, out, Sub32(trial, out), n, d);
  }

  /** New input goes where the queue ends. */
  lemma {:induction false} InputAt(data: seq<byte>, bits: nat, out: u32, inp: u32)
    requires bits <= 16 && |data| == Pow2(bits)
    ensures Index(inp, bits) == (out + Sub32(inp, out)) % |data|
  {
    IndexIsSpot(inp, bits);
    WrapAround(out + Sub32(inp, out), bits);
  }

  lemma {:induction false} StaleCopied(data: seq<byte>, p0: nat, n: nat)
    requires p0 < |data| && n < |data|
    ensures CopiedIn(data, data, p0, CopyOut(data, p0, n))
  {
  }

  lemma {:induction false} Pow2AtMost(bits: nat)
    requires bits <= 15
    ensures Pow2(bits) <= 0x8000
    decreases 15 - bits
  {
    if bits < 15 {
      Pow2AtMost(bits + 1);
    } else {
      assert Pow2(7) == 128 && Pow2(8) == 256;
      Pow2Split(7, 8);
    }
  }
}
