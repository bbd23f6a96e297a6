/** What whole Kermit runs deliver. A packet may be heard many times, damaged or duplicated,
    before the sender moves on to the next number. */
module KermitDelivery {
  import opened Machine
  import opened KermitCoding
  import opened KermitFrame
  import opened KermitProtocol
  import opened KermitInit

  datatype Packet = Packet(n: byte, kind: byte, data: seq<byte>)

  /** The history of one packet: earlier attempts in any number, an attempt that is
      accepted, and then `badHeads` attempts of whatever follows that die before their
      sequence number has been read. */
  datatype Passage = Passage(packet: Packet, earlier: seq<Attempt>, badHeads: nat)

  /** An attempt at this packet: refused after its number was read, accepted (a duplicate),
      or refused before that. */
  predicate AttemptAt(p: Packet, a: Attempt) {
    || a.BadHead?
    || (a.BadPacket? && a.n == p.n)
    || a == Good(p.n, p.kind, p.data)
  }

  predicate Plausible(p: Passage) {
    && (forall i :: 0 <= i < |p.earlier| ==> AttemptAt(p.packet, p.earlier[i]))
    && (p.earlier != [] ==> !p.earlier[0].BadHead?)
  }

  function Heads(k: nat): seq<Attempt> {
    seq(k, _ => BadHead)
  }

  function Attempts(p: Passage): seq<Attempt> {
    p.earlier + [Good(p.packet.n, p.packet.kind, p.packet.data)] + Heads(p.badHeads)
  }

  /** A whole run, which may open with `lead` damaged heads. */
  function AllAttempts(lead: nat, ps: seq<Passage>): seq<Attempt> {
    if ps == [] then Heads(lead) else AllAttempts(lead, ps[..|ps| - 1]) + Attempts(ps[|ps| - 1])
  }

  /** Adjacent packets have different sequence numbers. */
  predicate PlausibleRun(ps: seq<Passage>) {
    && (forall i :: 0 <= i < |ps| ==> Plausible(ps[i]))
    && (forall i :: 0 < i < |ps| ==> ps[i - 1].packet.n != ps[i].packet.n)
  }

  // ---- What ought to be delivered --------------------------------------------------

  /** A receiver that hears every packet once and undamaged, without memory or replies. */
  datatype Ideal = Ideal(quote: byte, escape: bool, out: seq<byte>)

  const FRESH := Ideal(35, false, [])

  function Deliver(id: Ideal, p: Packet): Ideal {
    if p.kind == DATA_TYPE then
      Ideal(id.quote, EscapeAfter(id.quote, id.escape, p.data), id.out + Decode(id.quote, id.escape, p.data))
    else if p.kind == SEND_TYPE then id.(quote := QuoteIn(p.data))
    else id
  }

  function DeliverAll(ps: seq<Packet>): Ideal {
    if ps == [] then FRESH else Deliver(DeliverAll(ps[..|ps| - 1]), ps[|ps| - 1])
  }

  function Packets(ps: seq<Passage>): seq<Packet> {
    seq(|ps|, i requires 0 <= i < |ps| => ps[i].packet)
  }

  /** A data packet is lost when, after it has been acknowledged, the head of a later packet
      is damaged: the refusal rolls back to the checkpoint of the packet before. */
  predicate Lost(p: Passage) {
    p.badHeads > 0 && p.packet.kind == DATA_TYPE
  }

  function Kept(ps: seq<Passage>): seq<Packet> {
    if ps == [] then []
    else Kept(ps[..|ps| - 1]) + (if Lost(ps[|ps| - 1]) then [] else [ps[|ps| - 1].packet])
  }

  // ---- The receiver agrees ---------------------------------------------------------

  predicate At(pos: Position, start: nat, id: Ideal) {
    pos == Position(id.escape, start + |id.out|)
  }

  /** The receiver stands exactly where the ideal one does. */
  predicate Agrees(st: Station, start: nat, id: Ideal) {
    && At(Where(st), start, id)
    && Holds(st.sink.mem, start, id.out)
    && st.peer.quote == id.quote
  }

  /** In the middle of packet `p`, whose checkpoint is `id`. */
  predicate Pending(st: Station, start: nat, id: Ideal, p: Packet) {
    && st.lastN == p.n
    && At(st.saved, start, id)
    && Holds(st.sink.mem, start, id.out)
    && (p.kind != SEND_TYPE ==> st.peer.quote == id.quote)
  }

  lemma {:induction false} FedBeyond(st: Station, start: nat, id: Ideal, data: seq<byte>)
    requires At(Where(st), start, id) && Holds(st.sink.mem, start, id.out)
    ensures Holds(Feed(st, data).sink.mem, start, id.out + Decode(st.peer.quote, st.sink.escape, data))
    ensures Holds(Feed(st, data).sink.mem, start, id.out)
    ensures SameBelow(st.sink.mem, Feed(st, data).sink.mem, start)
  {
    HoldsExtend(st.sink.mem, start, id.out, Decode(st.peer.quote, st.sink.escape, data));
  }

  /** The first attempt whose number is read opens the packet; later ones reopen it. */
  lemma {:induction false} BeginOpens(st: Station, start: nat, id: Ideal, p: Packet)
    requires (Agrees(st, start, id) && st.lastN != p.n) || Pending(st, start, id, p)
    ensures var b := Begin(st, p.n); Pending(b, start, id, p) && At(Where(b), start, id)
    ensures Begin(st, p.n).sink.mem == st.sink.mem && Begin(st, p.n).peer == st.peer
  {
  }

  /** Any attempt at the packet keeps its checkpoint, and an accepted one completes it. */
  lemma {:induction false} AttemptKeeps(st: Station, start: nat, id: Ideal, p: Packet, a: Attempt)
    requires AttemptAt(p, a)
    requires Pending(st, start, id, p) || (!a.BadHead? && Agrees(st, start, id) && st.lastN != p.n)
    ensures Pending(Apply(st, a), start, id, p)
    ensures a.Good? ==> Agrees(Apply(st, a), start, Deliver(id, p))
    ensures !a.Good? ==> At(Where(Apply(st, a)), start, id) && Apply(st, a).peer == st.peer
    ensures SameBelow(st.sink.mem, Apply(st, a).sink.mem, start)
  {
    if !a.BadHead? {
      BeginOpens(st, start, id, p);
      FedBeyond(Begin(st, p.n), start, id, if a.BadPacket? then a.fed else p.data);
    }
  }

  lemma {:induction false} EarlierKeep(st: Station, start: nat, id: Ideal, p: Passage, k: nat)
    requires Plausible(p) && 1 <= k <= |p.earlier|
    requires Agrees(st, start, id) && st.lastN != p.packet.n
    ensures Pending(Run(st, p.earlier[..k]), start, id, p.packet)
    ensures SameBelow(st.sink.mem, Run(st, p.earlier[..k]).sink.mem, start)
  {
    var init := p.earlier[..k][..k - 1];
    assert init == p.earlier[..k - 1];
    if k == 1 {
      assert Run(st, init) == st;
    } else {
      EarlierKeep(st, start, id, p, k - 1);
    }
    AttemptKeeps(Run(st, init), start, id, p.packet, p.earlier[k - 1]);
  }

  lemma {:induction false} BadHeadsKeep(st: Station, start: nat, id: Ideal, p: Packet, k: nat)
    requires Pending(st, start, id, p)
    ensures var st' := Run(st, Heads(k));
            && Pending(st', start, id, p)
            && st'.peer == st.peer
            && (k > 0 ==> At(Where(st'), start, id))
            && (k == 0 ==> st' == st)
            && SameBelow(st.sink.mem, st'.sink.mem, start)
  {
    if k > 0 {
      var heads := Heads(k);
      assert heads[..k - 1] == Heads(k - 1);
      BadHeadsKeep(st, start, id, p, k - 1);
      AttemptKeeps(Run(st, heads[..k - 1]), start, id, p, BadHead);
    }
  }

  /** One whole passage: the packet arrives exactly once, unless its data is lost. */
  lemma {:induction false} PassageDelivers(st: Station, start: nat, id: Ideal, p: Passage)
    requires Plausible(p) && Agrees(st, start, id) && st.lastN != p.packet.n
    ensures var st' := Run(st, Attempts(p));
            && st'.lastN == p.packet.n
            && Agrees(st', start, if Lost(p) then id else Deliver(id, p.packet))
            && SameBelow(st.sink.mem, st'.sink.mem, start)
  {
    var good := Good(p.packet.n, p.packet.kind, p.packet.data);
    var heads := Heads(p.badHeads);
    var s1 := Run(st, p.earlier);
    if p.earlier != [] {
      EarlierKeep(st, start, id, p, |p.earlier|);
      assert p.earlier[..|p.earlier|] == p.earlier;
    }
    AttemptKeeps(s1, start, id, p.packet, good);
    var s2 := Apply(s1, good);
    assert Run(s1, [good]) == s2 by { assert [good][..0] == []; }
    BadHeadsKeep(s2, start, id, p.packet, p.badHeads);
    RunAppend(st, p.earlier, [good]);
    RunAppend(st, p.earlier + [good], heads);
  }

  /** For every run, with any number of damaged, repeated and interrupted attempts: memory
      from the start address to the cursor is exactly the decoded data of the packets that
      were not lost, each once and in order, and nothing below the start has changed. */
  lemma {:induction false} RunDelivers(start: nat, mem: map<nat, byte>, lead: nat, ps: seq<Passage>)
    requires PlausibleRun(ps)
    ensures var st := Run(Initial(start, mem), AllAttempts(lead, ps));
            && Agrees(st, start, DeliverAll(Kept(ps)))
            && st.lastN == (if ps == [] then -1 else ps[|ps| - 1].packet.n)
            && SameBelow(mem, st.sink.mem, start)
  {
    if ps != [] {
      var init, last := ps[..|ps| - 1], ps[|ps| - 1];
      RunDelivers(start, mem, lead, init);
      var s0 := Initial(start, mem);
      RunAppend(s0, AllAttempts(lead, init), Attempts(last));
      PassageDelivers(Run(s0, AllAttempts(lead, init)), start, DeliverAll(Kept(init)), last);
      if !Lost(last) {
        assert Kept(ps)[..|Kept(ps)| - 1] == Kept(init);
      } else {
        assert Kept(ps) == Kept(init);
      }
    } else {
      LeadKeeps(start, mem, lead);
    }
  }

  /** Damaged heads before any number has been read leave everything as it was. */
  lemma {:induction false} LeadKeeps(start: nat, mem: map<nat, byte>, lead: nat)
    ensures var st := Run(Initial(start, mem), Heads(lead));
            && st.sink == Sink(false, start, mem) && st.saved == Position(false, start)
            && st.lastN == -1 && st.peer == DEFAULT_PEER
  {
    if lead > 0 {
      assert Heads(lead)[..lead - 1] == Heads(lead - 1);
      LeadKeeps(start, mem, lead - 1);
    }
  }

  // ---- When nothing is lost --------------------------------------------------------

  lemma {:induction false} NothingLost(ps: seq<Passage>)
    requires forall i :: 0 <= i < |ps| ==> !Lost(ps[i])
    ensures Kept(ps) == Packets(ps)
  {
    if ps != [] {
      NothingLost(ps[..|ps| - 1]);
      assert Packets(ps) == Packets(ps[..|ps| - 1]) + [ps[|ps| - 1].packet];
    }
  }

  /** The promise of the protocol, for damage that spares the length and sequence characters
      of the packet after each data packet: everything is delivered. */
  lemma {:induction false} Delivery(start: nat, mem: map<nat, byte>, lead: nat, ps: seq<Passage>)
    requires PlausibleRun(ps)
    requires forall i :: 0 <= i < |ps| ==> !Lost(ps[i])
    ensures var st := Run(Initial(start, mem), AllAttempts(lead, ps));
            var want := DeliverAll(Packets(ps)).out;
            && st.sink.cursor - start == |want|
            && Holds(st.sink.mem, start, want)
            && SameBelow(mem, st.sink.mem, start)
  {
    RunDelivers(start, mem, lead, ps);
    NothingLost(ps);
  }

  /** Senders keep a quote character and what it quotes in one packet. */
  predicate SelfContained(ps: seq<Packet>) {
    forall i :: 0 <= i < |ps| && ps[i].kind == DATA_TYPE
      ==> !EscapeAfter(DeliverAll(ps[..i]).quote, false, ps[i].data)
  }

  /** Every data packet that is followed by a damaged head was empty. */
  predicate Harmless(ps: seq<Passage>) {
    forall i :: 0 <= i < |ps| && Lost(ps[i]) ==> ps[i].packet.data == []
  }

  lemma {:induction false} SelfContainedPrefix(ps: seq<Packet>, k: nat)
    requires k <= |ps| && SelfContained(ps)
    ensures SelfContained(ps[..k])
  {
    forall i | 0 <= i < k && ps[..k][i].kind == DATA_TYPE
      ensures !EscapeAfter(DeliverAll(ps[..k][..i]).quote, false, ps[..k][i].data)
    {
      assert ps[..k][..i] == ps[..i];
    }
  }

  /** `kept` has all the data of `all`, or less. */
  predicate Tracks(kept: Ideal, all: Ideal, harmless: bool) {
    && kept.quote == all.quote && !kept.escape && !all.escape
    && if harmless then kept == all else |kept.out| < |all.out|
  }

  lemma {:induction false} BothDeliver(kept: Ideal, all: Ideal, harmless: bool, p: Packet)
    requires Tracks(kept, all, harmless)
    requires p.kind == DATA_TYPE ==> !EscapeAfter(all.quote, false, p.data)
    ensures Tracks(Deliver(kept, p), Deliver(all, p), harmless)
  {
  }

  lemma {:induction false} OneLoses(kept: Ideal, all: Ideal, harmless: bool, p: Packet)
    requires Tracks(kept, all, harmless)
    requires p.kind == DATA_TYPE && !EscapeAfter(all.quote, false, p.data)
    ensures Tracks(kept, Deliver(all, p), harmless && p.data == [])
  {
    if p.data == [] {
      assert Deliver(all, p) == all;
    } else {
      DecodeNonempty(all.quote, p.data);
    }
  }

  lemma {:induction false} DeliverLast(ps: seq<Packet>, p: Packet)
    ensures DeliverAll(ps + [p]) == Deliver(DeliverAll(ps), p)
  {
    assert (ps + [p])[..|ps|] == ps;
  }

  lemma {:induction false} KeptTracks(ps: seq<Passage>)
    requires SelfContained(Packets(ps))
    ensures Tracks(DeliverAll(Kept(ps)), DeliverAll(Packets(ps)), Harmless(ps))
  {
    if ps != [] {
      var k := |ps| - 1;
      var init, last := ps[..k], ps[k];
      assert Packets(ps)[..k] == Packets(init) && Packets(ps) == Packets(init) + [last.packet];
      assert SelfContained(Packets(init)) by { SelfContainedPrefix(Packets(ps), k); }
      KeptTracks(init);
      DeliverLast(Packets(init), last.packet);
      HarmlessSplit(ps);
      if Lost(last) {
        assert Kept(ps) == Kept(init);
        OneLoses(DeliverAll(Kept(init)), DeliverAll(Packets(init)), Harmless(init), last.packet);
      } else {
        DeliverLast(Kept(init), last.packet);
        BothDeliver(DeliverAll(Kept(init)), DeliverAll(Packets(init)), Harmless(init), last.packet);
      }
    }
  }

  lemma {:induction false} HarmlessSplit(ps: seq<Passage>)
    requires ps != []
    ensures var k := |ps| - 1;
            Harmless(ps) <==> Harmless(ps[..k]) && (Lost(ps[k]) ==> ps[k].packet.data == [])
  {
    var init := ps[..|ps| - 1];
    assert forall i :: 0 <= i < |init| ==> init[i] == ps[i];
  }

  /** With such senders the whole file is delivered if and only if every data packet that is
      followed by a damaged head was empty. */
  lemma {:induction false} DeliveryIff(start: nat, mem: map<nat, byte>, lead: nat, ps: seq<Passage>)
    requires PlausibleRun(ps) && SelfContained(Packets(ps))
    ensures var st := Run(Initial(start, mem), AllAttempts(lead, ps));
            var want := DeliverAll(Packets(ps)).out;
            (st.sink.cursor - start == |want| && Holds(st.sink.mem, start, want))
            <==> Harmless(ps)
  {
    RunDelivers(start, mem, lead, ps);
    KeptTracks(ps);
  }

  /** Why that condition is needed: a damaged head after a data packet leaves the receiver, for the rest of
      the run, as if that packet had never been sent, although it was acknowledged. */
  lemma {:induction false} DamagedHeadDropsPacket(start: nat, mem: map<nat, byte>, lead: nat, ps: seq<Passage>, i: nat)
    requires PlausibleRun(ps) && i < |ps| && Lost(ps[i])
    ensures Agrees(Run(Initial(start, mem), AllAttempts(lead, ps)), start, DeliverAll(Kept(ps[..i] + ps[i + 1..])))
  {
    RunDelivers(start, mem, lead, ps);
    LostSkipped(ps, i);
  }

  lemma {:induction false} LostSkipped(ps: seq<Passage>, i: nat)
    requires i < |ps| && Lost(ps[i])
    ensures Kept(ps) == Kept(ps[..i] + ps[i + 1..])
    decreases |ps|
  {
    var k, less := |ps| - 1, ps[..i] + ps[i + 1..];
    if i < k {
      LostSkipped(ps[..k], i);
      assert less[..k - 1] == ps[..k][..i] + ps[..k][i + 1..] && less[k - 1] == ps[k];
    } else {
      assert less == ps[..k];
    }
  }

  lemma {:induction false} SecondOfTwoKept(ps: seq<Passage>)
    requires |ps| == 2 && !Lost(ps[1])
    ensures DeliverAll(Kept(ps[..0] + ps[1..])) == Deliver(FRESH, ps[1].packet)
  {
    var rest := ps[..0] + ps[1..];
    assert |rest| == 1 && rest[0] == ps[1];
    KeptAlone(rest);
  }

  lemma {:induction false} KeptAlone(ps: seq<Passage>)
    requires |ps| == 1 && !Lost(ps[0])
    ensures DeliverAll(Kept(ps)) == Deliver(FRESH, ps[0].packet)
  {
    assert ps[..0] == [];
    assert Kept(ps) == [] + [ps[0].packet];
    DeliverLast([], ps[0].packet);
  }

  lemma {:induction false} FirstOfTwoDropped(start: nat, mem: map<nat, byte>, ps: seq<Passage>)
    requires |ps| == 2 && PlausibleRun(ps) && Lost(ps[0]) && !Lost(ps[1])
    ensures Agrees(Run(Initial(start, mem), AllAttempts(0, ps)), start, Deliver(FRESH, ps[1].packet))
  {
    DamagedHeadDropsPacket(start, mem, 0, ps, 0);
    SecondOfTwoKept(ps);
  }

  /** The smallest such run: two letters are sent, and only the second is in memory. */
  lemma {:induction false} OneLetterOfTwo(start: nat, mem: map<nat, byte>, ps: seq<Passage>, c: byte, d: byte)
    requires |ps| == 2 && c != K_ESCAPE && d != K_ESCAPE
    requires ps[0].packet == Packet(0, DATA_TYPE, [c]) && ps[0].earlier == [] && ps[0].badHeads == 1
    requires ps[1].packet == Packet(1, DATA_TYPE, [d]) && ps[1].earlier == [] && ps[1].badHeads == 0
    ensures DeliverAll(Packets(ps)).out == [c, d]
    ensures var st := Run(Initial(start, mem), AllAttempts(0, ps));
            st.sink.cursor == start + 1 && Holds(st.sink.mem, start, [d])
  {
    BothLetters(ps, c, d);
    FirstOfTwoDropped(start, mem, ps);
    OneLetter(FRESH, ps[1].packet, d);
  }

  lemma {:induction false} BothLetters(ps: seq<Passage>, c: byte, d: byte)
    requires |ps| == 2 && c != K_ESCAPE && d != K_ESCAPE
    requires ps[0].packet == Packet(0, DATA_TYPE, [c]) && ps[1].packet == Packet(1, DATA_TYPE, [d])
    ensures DeliverAll(Packets(ps)).out == [c, d]
  {
    var init := Packets(ps)[..1];
    assert init[..0] == [] && DeliverAll(init) == Deliver(FRESH, init[0]);
    OneLetter(FRESH, init[0], c);
    OneLetter(DeliverAll(init), ps[1].packet, d);
  }

  lemma {:induction false} OneLetter(id: Ideal, p: Packet, c: byte)
    requires p.kind == DATA_TYPE && p.data == [c] && c != id.quote && !id.escape
    ensures Deliver(id, p) == id.(out := id.out + [c])
  {
    assert p.data[1..] == [];
    assert Decode(id.quote, false, p.data) == [c] && !EscapeAfter(id.quote, false, p.data);
  }

  // ---- Files -----------------------------------------------------------------------

  /** The concatenated data of the data packets. */
  function FileText(ps: seq<Packet>): seq<byte> {
    if ps == [] then []
    else FileText(ps[..|ps| - 1]) + (if ps[|ps| - 1].kind == DATA_TYPE then ps[|ps| - 1].data else [])
  }

  /** However the text of a file is cut into data packets, and whatever other packets stand
      between them, the ideal receiver decodes the whole text. */
  lemma {:induction false} PacketBoundariesDoNotMatter(init: Packet, ps: seq<Packet>)
    requires init.kind == SEND_TYPE && forall i :: 0 <= i < |ps| ==> ps[i].kind != SEND_TYPE
    ensures var q, id := QuoteIn(init.data), DeliverAll([init] + ps);
            && id.quote == q
            && id.out == Decode(q, false, FileText(ps))
            && id.escape == EscapeAfter(q, false, FileText(ps))
  {
    var all := [init] + ps;
    var k := |ps|;
    if k == 0 {
      assert all == [init] && all[..0] == [];
    } else {
      assert all[..k] == [init] + ps[..k - 1] && all[k] == ps[k - 1];
      PacketBoundariesDoNotMatter(init, ps[..k - 1]);
      if ps[k - 1].kind == DATA_TYPE {
        DecodeAppend(QuoteIn(init.data), false, FileText(ps[..k - 1]), ps[k - 1].data);
      } else {
        assert FileText(ps) == FileText(ps[..k - 1]);
      }
    }
  }

  /** What a sender announces in its S packet: the first `count` of its fields. */
  datatype Announcement = Announcement(fields: Fields, count: nat)

  function Quote(a: Announcement): byte { QuoteOf(a.fields, a.count) }

  /** An S packet with that announcement, then packets whose data is `file`, encoded with the quote character
      that was announced, or with '#' if it was left off. */
  predicate Carries(a: Announcement, ps: seq<Packet>, file: seq<byte>) {
    && a.count <= |AllFields(a.fields)| && LegalQuote(Quote(a))
    && ps != [] && ps[0].kind == SEND_TYPE && ps[0].data == Announced(a.fields, a.count)
    && (forall i :: 0 < i < |ps| ==> ps[i].kind != SEND_TYPE)
    && FileText(ps[1..]) == Encode(Quote(a), file)
  }

  lemma {:induction false} CarriedIsDelivered(a: Announcement, ps: seq<Packet>, file: seq<byte>)
    requires Carries(a, ps, file)
    ensures DeliverAll(ps).out == file
  {
    assert ps == [ps[0]] + ps[1..];
    QuoteAnnounced(a.fields, a.count);
    PacketBoundariesDoNotMatter(ps[0], ps[1..]);
    RoundTrip(Quote(a), file);
  }

  /** End to end over the protocol: a file encoded with the announced quote character, cut
      into packets anywhere, is in memory at the start address byte for byte. */
  lemma {:induction false} FileArrives(start: nat, mem: map<nat, byte>, lead: nat, a: Announcement, ps: seq<Passage>,
                                       file: seq<byte>)
    requires PlausibleRun(ps) && Carries(a, Packets(ps), file)
    requires forall i :: 0 <= i < |ps| ==> !Lost(ps[i])
    ensures var st := Run(Initial(start, mem), AllAttempts(lead, ps));
            && st.sink.cursor - start == |file|
            && Holds(st.sink.mem, start, file)
            && SameBelow(mem, st.sink.mem, start)
  {
    Delivery(start, mem, lead, ps);
    CarriedIsDelivered(a, Packets(ps), file);
  }
}
