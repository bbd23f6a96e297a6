/** From characters on the line to bytes in memory. */
module KermitTransfer {
  import opened Machine
  import opened KermitFrame
  import opened KermitProtocol
  import opened KermitDamage
  import opened KermitDelivery
  import opened KermitReceiver

  /** A frame sent once, with line noise before it, and what happens to it on the way. */
  datatype Sending = Sending(noise: seq<byte>, packet: Packet, damage: Damage)

  predicate Proper(x: Sending) {
    && Noise(x.noise) && Sendable(x.packet.n, x.packet.kind, x.packet.data)
    && Possible(x.packet.data, x.damage) && Noticed(x.packet.n, x.packet.kind, x.packet.data, x.damage)
  }

  function Arriving(x: Sending): seq<byte>
    requires Proper(x)
  {
    Wire(x.packet.n, x.packet.kind, x.packet.data, x.damage)
  }

  function Remains(x: Sending): seq<byte>
    requires Proper(x)
  {
    Leftover(x.packet.n, x.packet.kind, x.packet.data, x.damage)
  }

  lemma {:induction false} OneHeard(before: seq<byte>, x: Sending, after: seq<byte>)
    requires Noise(before) && Proper(x)
    ensures Parse(before + (x.noise + Arriving(x) + after)) == Heard(AsAttempt(x), Remains(x) + after)
    ensures Noise(Remains(x))
  {
    assert before + (x.noise + Arriving(x) + after) == (before + x.noise) + (Arriving(x) + after);
    NoiseSkipped(before + x.noise, Arriving(x) + after);
    WireHeard(x.packet.n, x.packet.kind, x.packet.data, x.damage, after);
    LeftoverIsNoise(x.packet.n, x.packet.kind, x.packet.data, x.damage);
  }

  function Stream(xs: seq<Sending>): seq<byte>
    requires forall i :: 0 <= i < |xs| ==> Proper(xs[i])
  {
    if xs == [] then []
    else xs[0].noise + Arriving(xs[0]) + Stream(xs[1..])
  }

  function AsAttempt(x: Sending): Attempt
    requires Proper(x)
  {
    AttemptOf(x.packet.n, x.packet.kind, x.packet.data, x.damage)
  }

  function AsAttempts(xs: seq<Sending>): seq<Attempt>
    requires forall i :: 0 <= i < |xs| ==> Proper(xs[i])
  {
    if xs == [] then [] else [AsAttempt(xs[0])] + AsAttempts(xs[1..])
  }

  /** Only the last frame ends the transmission; it arrives intact. */
  predicate EndsOnce(xs: seq<Sending>) {
    && xs != []
    && forall i :: 0 <= i < |xs| ==>
         (xs[i].packet.kind == 'B' as int && xs[i].damage.Intact? <==> i == |xs| - 1)
  }

  /** The receiver hears exactly the frames that were sent, the damaged ones as refused attempts, and stops
      at the B packet; `before` is what an earlier frame has left. */
  lemma {:induction false} StreamHeard(before: seq<byte>, xs: seq<Sending>, rest: seq<byte>)
    requires Noise(before) && (forall i :: 0 <= i < |xs| ==> Proper(xs[i])) && EndsOnce(xs)
    ensures HearAll(before + (Stream(xs) + rest)) == Hearing(AsAttempts(xs), Finished)
    decreases xs
  {
    var x, after := xs[0], Stream(xs[1..]) + rest;
    assert Stream(xs) + rest == x.noise + Arriving(x) + after;
    OneHeard(before, x, after);
    if |xs| == 1 {
      assert AsAttempts(xs[1..]) == [];
    } else {
      StreamHeard(Remains(x), xs[1..], rest);
    }
  }

  /** Whatever the stream: if what is heard in it is a plausible run of the packets of a file, none of them
      lost, the file is found at the load address byte for byte, and its size is returned. */
  lemma {:induction false} HeardFileArrives(start: nat, mem: map<nat, byte>, s: seq<byte>, lead: nat,
                                            a: Announcement, ps: seq<Passage>, file: seq<byte>)
    requires HearAll(s) == Hearing(AllAttempts(lead, ps), Finished)
    requires PlausibleRun(ps) && Carries(a, Packets(ps), file) && forall i :: 0 <= i < |ps| ==> !Lost(ps[i])
    ensures Loaded(start, mem, Session(Initial(start, mem), s), file)
  {
    SessionIsRun(Initial(start, mem), s);
    FileArrives(start, mem, lead, a, ps, file);
  }

  /** The session has ended with the file in memory, and nothing below it has changed. */
  predicate Loaded(start: nat, mem: map<nat, byte>, end: End, file: seq<byte>) {
    && end.event == Finished && end.station.sink.cursor - start == |file|
    && Holds(end.station.sink.mem, start, file) && SameBelow(mem, end.station.sink.mem, start)
  }

  /** In particular for frames that are repeated, damaged in a way that is noticed, and mixed with noise. */
  lemma {:induction false} TransferArrives(start: nat, mem: map<nat, byte>, xs: seq<Sending>, lead: nat,
                                           a: Announcement, ps: seq<Passage>, file: seq<byte>, rest: seq<byte>)
    requires (forall i :: 0 <= i < |xs| ==> Proper(xs[i])) && EndsOnce(xs) && AsAttempts(xs) == AllAttempts(lead, ps)
    requires PlausibleRun(ps) && Carries(a, Packets(ps), file) && forall i :: 0 <= i < |ps| ==> !Lost(ps[i])
    ensures Loaded(start, mem, Session(Initial(start, mem), Stream(xs) + rest), file)
  {
    StreamHeard([], xs, rest);
    assert [] + (Stream(xs) + rest) == Stream(xs) + rest;
    HeardFileArrives(start, mem, Stream(xs) + rest, lead, a, ps, file);
  }
}
