/** The receiver of cmd_load.c as a protocol: what each attempt at a packet does to the
    write cursor, the escape flag, the checkpoint and memory, and what whole runs deliver. */
module KermitProtocol {
  import opened Machine
  import opened KermitCoding
  import opened KermitFrame

  const K_ESCAPE: byte := 0x23

  /** What the sender has asked for: his_eol, his_pad_count, his_pad_char, his_quote. */
  datatype Peer = Peer(eol: byte, padCount: byte, padChar: byte, quote: byte)

  const DEFAULT_PEER := Peer(END_CHAR, 0, 0, K_ESCAPE)

  /** The data decoder and the memory it writes: k_data_escape, os_data_addr, RAM. */
  datatype Sink = Sink(escape: bool, cursor: nat, mem: map<nat, byte>)

  /** The write position: what a checkpoint records. */
  datatype Position = Position(escape: bool, cursor: nat)

  datatype Station = Station(
    peer: Peer,
    sink: Sink,
    saved: Position,   // k_data_escape_saved, os_data_addr_saved
    n: byte,           // sequence number for the next reply
    lastN: int,        // -1 until a sequence number has been read
    sent: seq<byte>)   // characters transmitted

  function Where(st: Station): Position {
    Position(st.sink.escape, st.sink.cursor)
  }

  function Initial(start: nat, mem: map<nat, byte>): Station {
    Station(DEFAULT_PEER, Sink(false, start, mem), Position(false, start), 0, -1, [])
  }

  // ---- Memory --------------------------------------------------------------------

  function Store(mem: map<nat, byte>, at: nat, bytes: seq<byte>): map<nat, byte> {
    if bytes == [] then mem
    else var k := |bytes| - 1; Store(mem, at, bytes[..k])[at + k := bytes[k]]
  }

  predicate Holds(mem: map<nat, byte>, at: nat, bytes: seq<byte>) {
    forall i :: at <= i < at + |bytes| ==> i in mem && mem[i] == bytes[i - at]
  }

  predicate SameBelow(m: map<nat, byte>, m': map<nat, byte>, limit: nat) {
    forall i: nat :: i < limit ==> (i in m <==> i in m') && (i in m && i in m' ==> m[i] == m'[i])
  }

  lemma {:induction false} StoreEffect(mem: map<nat, byte>, at: nat, bytes: seq<byte>)
    ensures Holds(Store(mem, at, bytes), at, bytes)
    ensures SameBelow(mem, Store(mem, at, bytes), at)
  {
    if bytes != [] { StoreEffect(mem, at, bytes[..|bytes| - 1]); }
  }

  /** Memory already filled up to the cursor stays, and new bytes extend it. */
  lemma {:induction false} HoldsExtend(mem: map<nat, byte>, start: nat, a: seq<byte>, b: seq<byte>)
    requires Holds(mem, start, a)
    ensures Holds(Store(mem, start + |a|, b), start, a + b)
    ensures SameBelow(mem, Store(mem, start + |a|, b), start + |a|)
  {
    StoreEffect(mem, start + |a|, b);
  }

  // ---- Replies -------------------------------------------------------------------

  /** send_ack and send_nack: a frame without data. */
  function Reply(kind: byte, n: byte, params: seq<byte>): seq<byte> {
    ShortBody(n, kind, params) + [ToChar(BlockCheck(Sum(ShortBody(n, kind, params))))]
  }

  function Padding(k: nat, c: byte): seq<byte> {
    seq(k, _ => c)
  }

  /** s1_sendpacket: padding, then the characters of the packet; an end of line of NUL
      ends the string early. */
  function Transmit(peer: Peer, reply: seq<byte>): seq<byte> {
    Padding(peer.padCount, peer.padChar) + [START_CHAR] + reply
      + (if peer.eol == 0 then [] else [peer.eol])
  }

  function Respond(st: Station, reply: seq<byte>): Station {
    st.(sent := st.sent + Transmit(st.peer, reply))
  }

  /** How many S-packet parameters are looked at: the 20-byte buffer keeps 19 and the
      last one is ignored. */
  function ParamCount(data: seq<byte>): nat {
    if |data| >= 19 then 18 else |data|
  }

  /** The parameters handle_send_packet takes over from the sender. */
  function PeerFrom(data: seq<byte>): Peer {
    var c := ParamCount(data);
    Peer(if c >= 5 then UnChar(data[4]) else END_CHAR,
         if c >= 3 then UnChar(data[2]) else 0,
         if c >= 4 then Ktrans(data[3]) else 0,
         if c >= 6 then data[5] else K_ESCAPE)
  }

  /** Its own parameters: 94-character packets, 1 s, no padding, CR, '#', no eighth-bit
      prefix, check type 1, no repeats; then long packets only, no windows, 94 * 95 + 94. */
  const OUR_PARAMS: seq<byte> := [126, 33, 32, 0x40, 45, 0x23, 0x4E, 0x31, 0x4E]
  const OUR_CAPABILITIES: seq<byte> := [34, 32, 126, 126]

  function OurParams(data: seq<byte>): seq<byte> {
    var c := ParamCount(data);
    if c >= 10 then OUR_PARAMS + OUR_CAPABILITIES
    else OUR_PARAMS[..c]
  }

  lemma {:induction false} OurParamsFit(data: seq<byte>)
    ensures Graphic(OurParams(data)) && |OurParams(data)| <= 13
  {
    var all := OUR_PARAMS + OUR_CAPABILITIES;
    assert Graphic(all);
    forall i | 0 <= i < |OurParams(data)| ensures OurParams(data)[i] >= 32 {
      assert OurParams(data)[i] == all[i];
    }
  }

  // ---- One attempt ---------------------------------------------------------------

  function Feed(st: Station, data: seq<byte>): Station {
    var out := Decode(st.peer.quote, st.sink.escape, data);
    st.(sink := Sink(EscapeAfter(st.peer.quote, st.sink.escape, data),
                     st.sink.cursor + |out|,
                     Store(st.sink.mem, st.sink.cursor, out)))
  }

  lemma {:induction false} StoreAppend(mem: map<nat, byte>, at: nat, a: seq<byte>, b: seq<byte>)
    ensures Store(Store(mem, at, a), at + |a|, b) == Store(mem, at, a + b)
    decreases b
  {
    if b == [] {
      assert a + b == a;
    } else {
      var k := |b| - 1;
      assert (a + b)[..|a + b| - 1] == a + b[..k];
      StoreAppend(mem, at, a, b[..k]);
    }
  }

  lemma {:induction false} FeedAppend(st: Station, a: seq<byte>, b: seq<byte>)
    ensures Feed(Feed(st, a), b) == Feed(st, a + b)
  {
    DecodeAppend(st.peer.quote, st.sink.escape, a, b);
    StoreAppend(st.sink.mem, st.sink.cursor, Decode(st.peer.quote, st.sink.escape, a),
                Decode(st.peer.quote, EscapeAfter(st.peer.quote, st.sink.escape, a), b));
  }

  lemma {:induction false} FeedSafe(st: Station, data: seq<byte>, start: nat)
    requires start <= st.sink.cursor
    ensures start <= Feed(st, data).sink.cursor
    ensures SameBelow(st.sink.mem, Feed(st, data).sink.mem, start)
  {
    StoreEffect(st.sink.mem, st.sink.cursor, Decode(st.peer.quote, st.sink.escape, data));
  }

  /** k_data_restore. */
  function Rollback(st: Station): Station {
    st.(sink := st.sink.(escape := st.saved.escape, cursor := st.saved.cursor))
  }

  /** A sequence number has been read: a repeated one restores, a new one checkpoints. */
  function Begin(st: Station, n: byte): Station {
    if n == st.lastN then Rollback(st.(n := n))
    else st.(n := n, lastN := n, saved := Where(st))
  }

  function Refuse(st: Station): Station {
    var r := Rollback(st);
    Respond(r, Reply(NACK_TYPE, r.n, []))
  }

  /** The rest of an attempt, once its sequence number has been read. */
  function Complete(b: Station, a: Attempt): Station {
    match a
    case BadHead => b
    case BadPacket(_, fed) => Refuse(Feed(b, fed))
    case Good(_, kind, data) =>
      if kind == DATA_TYPE then Respond(Feed(b, data), Reply(ACK_TYPE, b.n, []))
      else if kind == SEND_TYPE then Respond(b.(peer := PeerFrom(data)), Reply(ACK_TYPE, b.n, OurParams(data)))
      else Respond(b, Reply(ACK_TYPE, b.n, []))
  }

  function Apply(st: Station, a: Attempt): Station {
    if a.BadHead? then Refuse(st) else Complete(Begin(st, a.n), a)
  }

  function Run(st: Station, attempts: seq<Attempt>): Station {
    if attempts == [] then st
    else Apply(Run(st, attempts[..|attempts| - 1]), attempts[|attempts| - 1])
  }

  lemma {:induction false} RunAppend(st: Station, a: seq<Attempt>, b: seq<Attempt>)
    ensures Run(st, a + b) == Run(Run(st, a), b)
    decreases b
  {
    if b == [] {
      assert a + b == a;
    } else {
      var k := |b| - 1;
      assert (a + b)[..|a + b| - 1] == a + b[..k];
      RunAppend(st, a, b[..k]);
    }
  }

  // ---- Rollback agreement --------------------------------------------------------

  /** The sequence number last read in a run, or -1. */
  function NumberOf(attempts: seq<Attempt>): (n: int)
    ensures -1 <= n < 256
  {
    if attempts == [] then -1
    else var last := attempts[|attempts| - 1];
      if last.BadHead? then NumberOf(attempts[..|attempts| - 1]) else last.n
  }

  /** The number a reply carries; 0 while none has been read. */
  function ReplyNumber(attempts: seq<Attempt>): byte {
    if NumberOf(attempts) == -1 then 0 else NumberOf(attempts)
  }

  /** Where the current run of packets with one number began; attempts that died before
      their number was read belong to the run before them. */
  function RunStart(attempts: seq<Attempt>): (k: nat)
    ensures k <= |attempts|
  {
    if attempts == [] then 0
    else
      var init, last := attempts[..|attempts| - 1], attempts[|attempts| - 1];
      if last.BadHead? || NumberOf(init) == last.n then RunStart(init) else |init|
  }

  lemma {:induction false} ApplyCheckpoints(st: Station, a: Attempt)
    ensures var st' := Apply(st, a);
            if a.BadHead? then st'.lastN == st.lastN && st'.n == st.n && st'.saved == st.saved
            else && st'.lastN == a.n && st'.n == a.n
                 && st'.saved == (if a.n == st.lastN then st.saved else Where(st))
  {
  }

  /** At every moment of every run the checkpoint is the position at which the current
      run of equal sequence numbers began. */
  lemma {:induction false} CheckpointIsRunStart(start: nat, mem: map<nat, byte>, attempts: seq<Attempt>)
    ensures var st := Run(Initial(start, mem), attempts);
            && st.lastN == NumberOf(attempts)
            && st.n == ReplyNumber(attempts)
            && st.saved == Where(Run(Initial(start, mem), attempts[..RunStart(attempts)]))
  {
    if attempts != [] {
      var init := attempts[..|attempts| - 1];
      CheckpointIsRunStart(start, mem, init);
      ApplyCheckpoints(Run(Initial(start, mem), init), attempts[|attempts| - 1]);
      assert attempts[..RunStart(attempts)] == init[..RunStart(attempts)];
    }
  }

  /** Whenever a packet is refused, whichever of its characters was at fault, the cursor and
      escape flag are put back to where the run of packets with that number began, and the
      number refused is that run's. */
  lemma {:induction false} RefusalRollsBack(start: nat, mem: map<nat, byte>, attempts: seq<Attempt>)
    requires attempts != [] && !attempts[|attempts| - 1].Good?
    ensures var before := Run(Initial(start, mem), attempts[..|attempts| - 1]);
            var st := Run(Initial(start, mem), attempts);
            && Where(st) == Where(Run(Initial(start, mem), attempts[..RunStart(attempts)]))
            && st.sent == before.sent + Transmit(before.peer, Reply(NACK_TYPE, ReplyNumber(attempts), []))
  {
    var last := attempts[|attempts| - 1];
    var before := Run(Initial(start, mem), attempts[..|attempts| - 1]);
    CheckpointIsRunStart(start, mem, attempts);
    RefusedIsNaked(before, last);
  }

  lemma {:induction false} RefusedIsNaked(st: Station, a: Attempt)
    requires !a.Good?
    ensures Where(Apply(st, a)) == Apply(st, a).saved
    ensures Apply(st, a).sent == st.sent + Transmit(st.peer, Reply('N' as int, Apply(st, a).n, []))
  {
  }
}
