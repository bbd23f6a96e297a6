/** The receiver itself: the static variables of cmd_load.c, updated character by character,
    proved to do what the protocol model says for every stream of characters. */
module KermitReceiver {
  import opened Machine
  import opened KermitCoding
  import opened KermitFrame
  import opened KermitProtocol

  /** A C string: the characters before the first NUL. */
  function CString(s: seq<byte>): seq<byte> {
    if s == [] || s[0] == 0 then [] else [s[0]] + CString(s[1..])
  }

  lemma {:induction false} CStringEnds(a: seq<byte>, rest: seq<byte>)
    requires 0 !in a
    ensures CString(a + [0] + rest) == a
  {
    if a == [] {
      assert (a + [0] + rest)[0] == 0;
    } else {
      assert (a + [0] + rest)[1..] == a[1..] + [0] + rest;
      CStringEnds(a[1..], rest);
    }
  }

  /** The value of a character in an `int` sum, for either kind of `char`. */
  function CharValue(signedChar: bool, c: byte): int {
    if signedChar && c >= 128 then c - 256 else c
  }

  function SignedSum(signedChar: bool, s: seq<byte>): int {
    if s == [] then 0 else SignedSum(signedChar, s[..|s| - 1]) + CharValue(signedChar, s[|s| - 1])
  }

  lemma {:induction false} SignedSumModulo(signedChar: bool, s: seq<byte>)
    ensures exists k: int :: SignedSum(signedChar, s) == Sum(s) + 256 * k
  {
    if s == [] {
      assert SignedSum(signedChar, s) == Sum(s) + 256 * 0;
    } else {
      var init, last := s[..|s| - 1], s[|s| - 1];
      SignedSumModulo(signedChar, init);
      var k: int :| SignedSum(signedChar, init) == Sum(init) + 256 * k;
      assert s == init + [last] && [last][1..] == [];
      SumAppend(init, [last]);
      var k' := if signedChar && last >= 128 then k - 1 else k;
      assert SignedSum(signedChar, s) == Sum(s) + 256 * k';
    }
  }

  lemma {:induction false} CheckModulo(x: int, k: int)
    ensures BlockCheck(x + 256 * k) == BlockCheck(x)
  {
    assert (x + 256 * k) / 64 == x / 64 + 4 * k;
    assert (x / 64 + 4 * k) % 4 == (x / 64) % 4;
    var y := x + (x / 64) % 4;
    assert (y + 64 * (4 * k)) % 64 == y % 64;
  }

  /** The block check only looks at the sum modulo 256, so that it does not matter whether
      `char` is signed. */
  lemma {:induction false} CheckIgnoresSign(signedChar: bool, s: seq<byte>)
    ensures BlockCheck(SignedSum(signedChar, s)) == BlockCheck(Sum(s))
  {
    SignedSumModulo(signedChar, s);
    var k: int :| SignedSum(signedChar, s) == Sum(s) + 256 * k;
    CheckModulo(Sum(s), k);
  }

  /** How a pass through the loop, or the whole reception, ends. */
  datatype Event =
    | GoOn
    | Finished     // the B packet was accepted
    | Stopped      // ^C: k_recv returns 0
    | Starved      // the line is silent for ever; getc has not returned

  /** All that the receiver makes of a stream of characters. */
  datatype Hearing = Hearing(attempts: seq<Attempt>, end: Event)

  function HearAll(s: seq<byte>): Hearing
    decreases |s|
  {
    ParseConsumes(s);
    match Parse(s)
    case Silent => Hearing([], Starved)
    case Interrupted => Hearing([], Stopped)
    case Heard(a, rest) =>
      if a.Good? && a.kind == BREAK_TYPE then Hearing([a], Finished)
      else var more := HearAll(rest); Hearing([a] + more.attempts, more.end)
  }

  datatype End = End(station: Station, event: Event)

  /** The protocol session over a stream, from the given state. */
  function Session(st: Station, s: seq<byte>): End
    decreases |s|
  {
    ParseConsumes(s);
    match Parse(s)
    case Silent => End(st, Starved)
    case Interrupted => End(st, Stopped)
    case Heard(a, rest) =>
      if a.Good? && a.kind == BREAK_TYPE then End(Apply(st, a), Finished)
      else Session(Apply(st, a), rest)
  }

  class Receiver {
    const signedChar: bool
    const start: nat             // bin_start_address
    var input: seq<byte>         // what getc will still deliver
    var sent: seq<byte>          // what putc has transmitted
    var hisEol: byte
    var hisPadCount: byte
    var hisPadChar: byte
    var hisQuote: byte
    var mem: map<nat, byte>
    var osDataAddr: nat
    var osDataAddrSaved: nat
    var escape: bool             // k_data_escape
    var escapeSaved: bool
    const ab: array<byte>        // a_b[24]
    const sendParms: array<byte> // send_parms[20]
    var sendPtr: nat
    var n: byte                  // n and last_n, which k_recv keeps across its loop
    var lastN: int

    ghost predicate Valid()
      reads this
    {
      && ab.Length == 24 && sendParms.Length == 20 && ab != sendParms
      && n < 224 && sendPtr < 20
      && start <= osDataAddrSaved && start <= osDataAddr
    }

    ghost function View(): Station
      reads this
    {
      Station(Peer(hisEol, hisPadCount, hisPadChar, hisQuote), Sink(escape, osDataAddr, mem),
              Position(escapeSaved, osDataAddrSaved), n, lastN, sent)
    }

    /** set_kerm_bin_mode and the initialisation at the head of k_recv. */
    constructor (signedChar: bool, start: nat, mem: map<nat, byte>, input: seq<byte>)
      ensures Valid() && fresh(ab) && fresh(sendParms)
      ensures View() == Initial(start, mem) && this.start == start && this.input == input
    {
      this.signedChar, this.start, this.input, this.sent := signedChar, start, input, [];
      hisEol, hisPadCount, hisPadChar, hisQuote := END_CHAR, 0, 0, K_ESCAPE;
      this.mem := mem;
      escape, osDataAddr := false, start;
      escapeSaved, osDataAddrSaved := false, start;
      ab := new byte[24];
      sendParms := new byte[20];
      sendPtr := 0;
      n, lastN := 0, -1;
    }

    method GetC() returns (ok: bool, c: byte)
      modifies this`input
      ensures ok <==> old(input) != []
      ensures ok ==> c == old(input)[0] && input == old(input)[1..]
      ensures !ok ==> input == old(input)
    {
      ok, c := input != [], 0;
      if ok { c, input := input[0], input[1..]; }
    }

    /** k_data_char with bin_data_char behind it. */
    method DataChar(c: byte)
      requires Valid()
      modifies this`escape, this`mem, this`osDataAddr
      ensures Valid() && View() == Feed(old(View()), [c])
    {
      OneChar(hisQuote, escape, c);
      if escape {
        var b := Ktrans(c);
        StoreOne(mem, osDataAddr, b);
        mem, osDataAddr := mem[osDataAddr := b], osDataAddr + 1;
        escape := false;
      } else if c == hisQuote {
        escape := true;
      } else {
        StoreOne(mem, osDataAddr, c);
        mem, osDataAddr := mem[osDataAddr := c], osDataAddr + 1;
      }
    }

    /** chk1 on the string that starts at a_b[1]. */
    method Chk1(ghost length: nat) returns (r: byte)
      requires ab.Length == 24 && length <= 22 && ab[1 + length] == 0
      requires forall i :: 1 <= i <= length ==> ab[i] != 0
      ensures r == BlockCheck(Sum(ab[1..1 + length]))
    {
      var total, i := 0, 1;
      while ab[i] != 0
        invariant 1 <= i <= 1 + length
        invariant total == SignedSum(signedChar, ab[1..i])
        decreases 1 + length - i
      {
        assert ab[1..i + 1][..i - 1] == ab[1..i];
        total := total + CharValue(signedChar, ab[i]);
        i := i + 1;
      }
      CheckIgnoresSign(signedChar, ab[1..1 + length]);
      r := BlockCheck(total);
    }

    /** s1_sendpacket(a_b). */
    method SendPacket()
      requires ab.Length == 24 && exists k :: 0 <= k < 24 && ab[k] == 0
      modifies this`sent
      ensures sent == old(sent) + Padding(hisPadCount, hisPadChar) + CString(ab[..])
    {
      var count := hisPadCount as int;
      while count > 0
        invariant 0 <= count <= hisPadCount
        invariant sent == old(sent) + Padding(hisPadCount - count, hisPadChar)
      {
        assert Padding(hisPadCount - count, hisPadChar) + [hisPadChar] == Padding(hisPadCount - count + 1, hisPadChar);
        sent := sent + [hisPadChar];
        count := count - 1;
      }
      ghost var padded := sent;
      var i := 0;
      while ab[i] != 0
        invariant 0 <= i < 24 && exists k :: i <= k < 24 && ab[k] == 0
        invariant padded + CString(ab[..]) == sent + CString(ab[i..])
        decreases 24 - i
      {
        assert ab[i..][1..] == ab[i + 1..];
        sent := sent + [ab[i]];
        i := i + 1;
      }
    }

    /** send_ack and send_nack, which differ only in the packet type. */
    method SendReply(kind: byte)
      requires Valid() && kind >= 32
      modifies ab, this`sent
      ensures Valid() && View() == Respond(old(View()), Reply(kind, n, []))
    {
      FinishReply(kind, 3, []);
    }

    /** What every reply ends with: the head, the block check over it and the parameters
        already at a_b[4], end of line, NUL, and transmission. */
    method FinishReply(kind: byte, length: nat, ghost params: seq<byte>)
      requires Valid() && kind >= 32
      requires length == 3 + |params| <= 16 && Graphic(params) && ab[4..length + 1] == params
      modifies ab, this`sent
      ensures Valid() && View() == Respond(old(View()), Reply(kind, n, params))
    {
      BuildReply(kind, length, params);
      SendPacket();
    }

    method BuildReply(kind: byte, length: nat, ghost params: seq<byte>)
      requires ab.Length == 24 && n < 224 && kind >= 32
      requires length == 3 + |params| <= 16 && Graphic(params) && ab[4..length + 1] == params
      modifies ab
      ensures CString(ab[..]) == [START_CHAR] + Reply(kind, n, params) + (if hisEol == 0 then [] else [hisEol])
      ensures ab[length + 3] == 0
    {
      PutHead(kind, length, params);
      BodyGraphic(n, kind, params);
      SealReply(length, ShortBody(n, kind, params));
      ReplyString(ab[..], n, kind, params, hisEol);
    }

    method SealReply(length: nat, ghost body: seq<byte>)
      requires ab.Length == 24 && length == |body| <= 16 && Graphic(body)
      requires ab[0] == START_CHAR && ab[1..length + 1] == body && ab[length + 1] == 0
      modifies ab
      ensures ab[0] == START_CHAR && ab[1..length + 1] == body && ab[length + 1] == ToChar(BlockCheck(Sum(body)))
      ensures ab[length + 2] == hisEol && ab[length + 3] == 0
    {
      forall i | 1 <= i <= length ensures ab[i] != 0 { assert ab[i] == ab[1..length + 1][i - 1]; }
      var check := Chk1(length);
      ab[length + 1] := ToChar(check);
      ab[length + 2] := hisEol;
      ab[length + 3] := 0;
    }

    method PutHead(kind: byte, length: nat, ghost params: seq<byte>)
      requires ab.Length == 24 && length == 3 + |params| <= 16 && ab[4..length + 1] == params
      modifies ab
      ensures ab[0] == START_CHAR && ab[length + 1] == 0 && ab[1..length + 1] == ShortBody(n, kind, params)
    {
      ab[0], ab[1], ab[2], ab[3], ab[length + 1] := START_CHAR, ToChar(length), ToChar(n), kind, 0;
      assert ab[1..length + 1] == [ab[1], ab[2], ab[3]] + ab[4..length + 1];
    }

    /** One step of handle_send_packet's ladder: unless the sender's parameters have run out,
        a_b[++length] = c. */
    method Offer(bytes: nat, k: nat, c: byte, length: nat) returns (longer: nat)
      requires ab.Length == 24 && 1 <= k <= 9 && c == OUR_PARAMS[k - 1]
      requires length == 3 + Min(bytes, k - 1) && ab[4..length + 1] == OUR_PARAMS[..Min(bytes, k - 1)]
      modifies ab
      ensures longer == 3 + Min(bytes, k) && ab[4..longer + 1] == OUR_PARAMS[..Min(bytes, k)]
    {
      longer := length;
      if bytes >= k {
        longer := length + 1;
        ab[longer] := c;
        assert ab[4..longer + 1] == ab[4..length + 1] + [c];
        assert OUR_PARAMS[..k] == OUR_PARAMS[..k - 1] + [OUR_PARAMS[k - 1]];
      }
    }

    /** The capabilities, four characters at once. */
    method OfferCapabilities(length: nat) returns (longer: nat)
      requires ab.Length == 24 && length == 12 && ab[4..length + 1] == OUR_PARAMS
      modifies ab
      ensures longer == 16 && ab[4..longer + 1] == OUR_PARAMS + OUR_CAPABILITIES
    {
      ab[length + 1], ab[length + 2], ab[length + 3], ab[length + 4] := ToChar(2), ToChar(0), ToChar(94), ToChar(94);
      longer := length + 4;
      assert ab[4..longer + 1] == ab[4..length + 1] + ab[length + 1..longer + 1];
      assert ab[length + 1..longer + 1] == OUR_CAPABILITIES;
    }

    /** The S-packet parameters that have been stored: the 20th and later ones all go to the
        last place and the pointer backs off. */
    ghost predicate ParmsAre(data: seq<byte>)
      reads this, sendParms
    {
      && sendParms.Length == 20
      && sendPtr == (if |data| >= 19 then 19 else |data|)
      && sendParms[..sendPtr] == data[..sendPtr]
    }

    /** *send_ptr++ = new_char, backing off at the end of the buffer. */
    method StoreParm(c: byte, ghost data: seq<byte>)
      requires Valid() && ParmsAre(data)
      modifies sendParms, this`sendPtr
      ensures Valid() && ParmsAre(data + [c]) && View() == old(View())
    {
      sendParms[sendPtr] := c;
      sendPtr := sendPtr + 1;
      if sendPtr >= 20 { sendPtr := sendPtr - 1; }
      assert sendParms[..sendPtr] == (data + [c])[..sendPtr];
    }

    /** The parameters of handle_send_packet that are remembered. */
    method CrackParms(bytes: nat, ghost data: seq<byte>)
      requires Valid() && bytes == ParamCount(data) && forall i :: 0 <= i < bytes ==> sendParms[i] == data[i]
      modifies this`hisEol, this`hisPadCount, this`hisPadChar, this`hisQuote
      ensures View() == old(View()).(peer := PeerFrom(data))
    {
      hisEol, hisPadCount, hisPadChar, hisQuote := END_CHAR, 0, 0, K_ESCAPE;
      if bytes >= 3 { hisPadCount := UnChar(sendParms[2]); }
      if bytes >= 4 { hisPadChar := Ktrans(sendParms[3]); }
      if bytes >= 5 { hisEol := UnChar(sendParms[4]); }
      if bytes >= 6 { hisQuote := sendParms[5]; }
    }

    /** The parameters of handle_send_packet that are offered in return. */
    method OfferParms(bytes: nat, ghost data: seq<byte>) returns (length: nat)
      requires ab.Length == 24 && bytes == ParamCount(data)
      modifies ab
      ensures length == 3 + |OurParams(data)| <= 16 && ab[4..length + 1] == OurParams(data)
    {
      length := 3;
      length := Offer(bytes, 1, ToChar(94), length);
      length := Offer(bytes, 2, ToChar(1), length);
      length := Offer(bytes, 3, ToChar(0), length);
      length := Offer(bytes, 4, 0x40, length);
      length := Offer(bytes, 5, ToChar(END_CHAR), length);
      length := Offer(bytes, 6, K_ESCAPE, length);
      length := Offer(bytes, 7, NACK_TYPE, length);
      length := Offer(bytes, 8, 0x31, length);
      length := Offer(bytes, 9, NACK_TYPE, length);
      if bytes >= 10 { length := OfferCapabilities(length); }
    }

    /** handle_send_packet. */
    method HandleSendPacket(ghost data: seq<byte>)
      requires Valid() && ParmsAre(data)
      modifies this, ab
      ensures Valid() && input == old(input)
      ensures View() == Respond(old(View()).(peer := PeerFrom(data)), Reply(ACK_TYPE, n, OurParams(data)))
    {
      if sendPtr == 19 { sendPtr := sendPtr - 1; }
      var bytes := sendPtr;
      forall i | 0 <= i < bytes ensures sendParms[i] == data[i] { assert sendParms[i] == sendParms[..bytes][i]; }
      CrackParms(bytes, data);
      var length := OfferParms(bytes, data);
      OurParamsFit(data);
      FinishReply(ACK_TYPE, length, OurParams(data));
    }

    /** The code at packet_error. */
    method Reject()
      requires Valid()
      modifies this, ab
      ensures Valid() && input == old(input) && View() == Refuse(old(View()))
    {
      escape, osDataAddr := escapeSaved, osDataAddrSaved;
      SendReply(NACK_TYPE);
    }

    /** The answer to a packet that has passed every test. */
    method Accept(kind: byte, ghost data: seq<byte>) returns (event: Event)
      requires Valid() && (kind == SEND_TYPE ==> ParmsAre(data))
      modifies this, ab
      ensures Valid() && input == old(input)
      ensures View() == if kind == SEND_TYPE
                        then Respond(old(View()).(peer := PeerFrom(data)), Reply(ACK_TYPE, n, OurParams(data)))
                        else Respond(old(View()), Reply(ACK_TYPE, n, []))
      ensures event == if kind == BREAK_TYPE then Finished else GoOn
    {
      event := GoOn;
      if kind == SEND_TYPE {
        HandleSendPacket(data);
      } else {
        SendReply(ACK_TYPE);
        if kind == BREAK_TYPE { event := Finished; }
      }
    }

    /** How an attempt ends whose outcome, read off the characters that arrive, is `r`, when it
        stood at `before` after its sequence number. */
    ghost predicate Ended(before: Station, r: Reception, event: Event)
      reads this
    {
      match r
      case Silent => event == Starved && sent == before.sent && SameBelow(before.sink.mem, mem, start)
      case Interrupted => false
      case Heard(a, rest) =>
        && input == rest && View() == Complete(before, a)
        && event == (if a.Good? && a.kind == BREAK_TYPE then Finished else GoOn)
    }

    /** How a pass through the main loop ends that has read `r`. */
    ghost predicate Passed(before: Station, r: Reception, event: Event)
      reads this
    {
      match r
      case Silent => event == Starved && sent == before.sent && SameBelow(before.sink.mem, mem, start)
      case Interrupted => event == Stopped && View() == before
      case Heard(a, rest) =>
        && input == rest && View() == Apply(before, a)
        && event == (if a.Good? && a.kind == BREAK_TYPE then Finished else GoOn)
    }

    /** The characters of a packet after its header: data, block check, end of line. */
    method ReceiveBody(kind: byte, length0: int, sum0: nat) returns (event: Event)
      requires Valid() && sendPtr == 0
      modifies this, ab, sendParms
      ensures Valid() && Ended(old(View()), ParseBody(old(n), kind, length0, sum0, [], old(input)), event)
    {
      ghost var before := View();
      ghost var data: seq<byte> := [];
      var length := length0;
      var sum: nat := sum0;
      var ok, c;
      FeedNothing(before);
      while length > 1
        invariant Valid() && n == before.n
        invariant View() == Feed(before, Fed(kind, data))
        invariant kind == SEND_TYPE ==> ParmsAre(data)
        invariant ParseBody(n, kind, length0, sum0, [], old(input)) == ParseBody(n, kind, length, sum, data, input)
        decreases length
      {
        ok, c := GetC();
        if !ok { FeedSafe(before, Fed(kind, data), start); return Starved; }
        if c < 32 { Reject(); return GoOn; }
        sum := sum + c;
        length := length - 1;
        if kind == DATA_TYPE {
          FeedAppend(before, data, [c]);
          DataChar(c);
        } else if kind == SEND_TYPE {
          StoreParm(c, data);
        }
        data := data + [c];
      }
      event := ReceiveTail(kind, sum, data, before);
    }

    /** Block check and end of line. */
    method ReceiveTail(kind: byte, sum: nat, ghost data: seq<byte>, ghost before: Station) returns (event: Event)
      requires Valid() && n == before.n && View() == Feed(before, Fed(kind, data))
      requires start <= before.sink.cursor && (kind == SEND_TYPE ==> ParmsAre(data))
      modifies this, ab
      ensures Valid() && Ended(before, ParseTail(before.n, kind, sum, data, old(input)), event)
    {
      FeedSafe(before, Fed(kind, data), start);
      var ok, c := GetC();
      if !ok { return Starved; }
      if c < 32 || c != ToChar(BlockCheck(sum)) { Reject(); return GoOn; }
      ok, c := GetC();
      if !ok { return Starved; }
      if c != END_CHAR { Reject(); return GoOn; }
      if kind != DATA_TYPE { FeedNothing(before); }
      event := Accept(kind, data);
    }

    /** The checkpoint logic: a repeated number restores, a new one saves. */
    method TakeNumber(m: byte)
      requires Valid() && m < 224
      modifies this
      ensures Valid() && View() == Begin(old(View()), m) && input == old(input) && sendPtr == old(sendPtr)
    {
      n := m;
      if n == lastN {
        escape, osDataAddr := escapeSaved, osDataAddrSaved;
      } else {
        lastN := n;
        escapeSaved, osDataAddrSaved := escape, osDataAddr;
      }
    }

    /** From the packet type to the end of the packet. */
    method ReceiveTyped(length: int, sum: nat) returns (event: Event)
      requires Valid() && sendPtr == 0
      modifies this, ab, sendParms
      ensures Valid() && Ended(old(View()), ParseType(old(n), length, sum, old(input)), event)
    {
      ghost var before := View();
      FeedNothing(before);
      var ok, kind := GetC();
      if !ok { return Starved; }
      if kind < 32 { Reject(); return GoOn; }
      if length - 1 == -2 {
        event := ReceiveLong(kind, sum + kind);
      } else {
        event := ReceiveBody(kind, length - 1, sum + kind);
      }
    }

    /** The extended length and its header check. */
    method ReceiveLong(kind: byte, sum: nat) returns (event: Event)
      requires Valid() && sendPtr == 0
      modifies this, ab, sendParms
      ensures Valid() && Ended(old(View()), ParseLong(old(n), kind, sum, old(input)), event)
    {
      ghost var before := View();
      FeedNothing(before);
      var ok, hi, lo, c;
      ok, hi := GetC();
      if !ok { return Starved; }
      if hi < 32 { Reject(); return GoOn; }
      ok, lo := GetC();
      if !ok { return Starved; }
      if lo < 32 { Reject(); return GoOn; }
      ok, c := GetC();
      if !ok { return Starved; }
      if c < 32 || c != ToChar(BlockCheck(sum + hi + lo)) { Reject(); return GoOn; }
      event := ReceiveBody(kind, UnChar(hi) * 95 + UnChar(lo), sum + hi + lo + c);
    }

    /** Waiting for the starting character or ^C. */
    method AwaitStart() returns (event: Event)
      modifies this`input
      ensures event in {GoOn, Stopped, Starved}
      ensures match event
              case GoOn => Parse(old(input)) == ParseHead(input)
              case Stopped => Parse(old(input)) == Interrupted
              case _ => Parse(old(input)) == Silent
    {
      while true
        invariant Parse(old(input)) == Parse(input)
        decreases |input|
      {
        var ok, c := GetC();
        if !ok { return Starved; }
        if c == START_CHAR { return GoOn; }
        if c == ETX_CHAR { return Stopped; }
      }
    }

    /** One pass through the main loop of k_recv. */
    method ReceivePacket() returns (event: Event)
      requires Valid()
      modifies this, ab, sendParms
      ensures Valid() && Passed(old(View()), Parse(old(input)), event)
    {
      sendPtr := 0;
      event := AwaitStart();
      if event == GoOn { event := ReceiveHead(); }
    }

    /** From the length to the end of the packet. */
    method ReceiveHead() returns (event: Event)
      requires Valid() && sendPtr == 0
      modifies this, ab, sendParms
      ensures Valid() && Passed(old(View()), ParseHead(old(input)), event)
    {
      var ok, c, m;
      ok, c := GetC();
      if !ok { return Starved; }
      if c < 32 { Reject(); return GoOn; }
      ok, m := GetC();
      if !ok { return Starved; }
      if m < 32 { Reject(); return GoOn; }
      TakeNumber(UnChar(m));
      TypedHasNumber(n, UnChar(c) - 1, (c as int) + m, input);
      event := ReceiveTyped(UnChar(c) - 1, (c as int) + m);
    }

    /** k_recv: for every stream of characters, memory, replies and the returned size are those
        of the protocol session over that stream. */
    method KRecv() returns (event: Event, size: int)
      requires Valid() && View() == Initial(start, mem)
      modifies this, ab, sendParms
      ensures Valid()
      ensures var end := Session(old(View()), old(input));
              && event == end.event
              && sent == end.station.sent
              && (event != Starved ==> View() == end.station)
              && size == (if event == Finished then end.station.sink.cursor - start else 0)
    {
      event, size := GoOn, 0;
      while event == GoOn
        invariant Valid() && event in {GoOn, Finished}
        invariant event == GoOn ==> Session(old(View()), old(input)) == Session(View(), input)
        invariant event == Finished ==> Session(old(View()), old(input)) == End(View(), Finished)
        decreases event == GoOn, |input|
      {
        ParseConsumes(input);
        event := ReceivePacket();
        if event == Starved || event == Stopped { return; }
      }
      size := osDataAddr - start;
    }
  }

  lemma {:induction false} SessionIsRun(st: Station, s: seq<byte>)
    ensures Session(st, s) == End(Run(st, HearAll(s).attempts), HearAll(s).end)
    decreases |s|
  {
    ParseConsumes(s);
    var r := Parse(s);
    if r.Heard? {
      var one := [r.attempt];
      assert one[..0] == [] && Run(st, one) == Apply(st, r.attempt);
      if HearAll(s).attempts != one {
        SessionIsRun(Apply(st, r.attempt), r.rest);
        RunAppend(st, one, HearAll(r.rest).attempts);
      }
    }
  }

  /** What stands in a_b when a reply is complete is the reply's text. */
  lemma {:induction false} ReplyString(s: seq<byte>, n: byte, kind: byte, params: seq<byte>, eol: byte)
    requires n < 224 && kind >= 32 && Graphic(params)
    requires var body := ShortBody(n, kind, params);
             && |s| == 24 && |body| <= 16 && s[0] == START_CHAR && s[1..|body| + 1] == body
             && s[|body| + 1] == ToChar(BlockCheck(Sum(body))) && s[|body| + 2] == eol && s[|body| + 3] == 0
    ensures CString(s) == [START_CHAR] + Reply(kind, n, params) + (if eol == 0 then [] else [eol])
  {
    var k := |params| + 3;
    BodyGraphic(n, kind, params);
    CharRange(BlockCheck(Sum(ShortBody(n, kind, params))));
    var text := [START_CHAR] + Reply(kind, n, params);
    assert s[..k + 2] == text;
    if eol == 0 {
      assert s == text + [0] + s[k + 3..];
      CStringEnds(text, s[k + 3..]);
    } else {
      assert s == (text + [eol]) + [0] + s[k + 4..];
      CStringEnds(text + [eol], s[k + 4..]);
    }
  }

  lemma {:induction false} FeedNothing(st: Station)
    ensures Feed(st, []) == st
  {
  }

  lemma {:induction false} StoreOne(mem: map<nat, byte>, at: nat, b: byte)
    ensures Store(mem, at, [b]) == mem[at := b]
  {
    assert [b][..0] == [];
  }

  lemma {:induction false} BodyGraphic(n: byte, kind: byte, params: seq<byte>)
    requires n < 224 && kind >= 32 && Graphic(params) && |params| <= 91
    ensures Graphic(ShortBody(n, kind, params))
  {
    CharRange(n);
    CharRange(|params| + 3);
  }

  /** Every ACK, NAK and S reply fits a_b together with start, end of line and NUL; its length
      field counts the characters that follow; and this very receiver would accept it. */
  lemma {:induction false} ReplyWellFormed(n: byte, kind: byte, params: seq<byte>, rest: seq<byte>)
    requires n < 224 && kind >= 32 && (params == [] || exists data :: params == OurParams(data))
    ensures var reply := Reply(kind, n, params);
            && 1 + |reply| + 2 <= 24
            && UnChar(reply[0]) == |reply| - 1
            && Parse([START_CHAR] + reply + [END_CHAR] + rest) == Heard(Good(n, kind, params), rest)
  {
    if params != [] {
      var data :| params == OurParams(data);
      OurParamsFit(data);
    }
    CharRange(|params| + 3);
    assert [START_CHAR] + Reply(kind, n, params) + [END_CHAR] == Frame(n, kind, params);
    WholeFrameHeard(n, kind, params, rest);
  }

  /** A packet that passes every test is answered with 'Y' and its own number, an S packet also with what this
      receiver can do; the padding and the end of line are those the sender has asked for. */
  lemma {:induction false} GoodIsAcknowledged(st: Station, n: byte, kind: byte, data: seq<byte>)
    ensures var st' := Apply(st, Good(n, kind, data));
            var reply := Reply('Y' as int, n, if kind == 'S' as int then OurParams(data) else []);
            st'.sent == st.sent + (seq(st'.peer.padCount, _ => st'.peer.padChar) + [1] + reply
                                   + if st'.peer.eol == 0 then [] else [st'.peer.eol])
  {
  }
}
