/** Packets on the wire: the manual's short and long frames, and the way k_recv
    reads one attempt at a packet out of the characters that arrive. */
module KermitFrame {
  import opened Machine

  const START_CHAR: byte := 0x01
  const ETX_CHAR: byte := 0x03
  const END_CHAR: byte := 0x0D
  const SEND_TYPE: byte := 0x53   // 'S'
  const DATA_TYPE: byte := 0x44   // 'D'
  const BREAK_TYPE: byte := 0x42  // 'B'
  const ACK_TYPE: byte := 0x59    // 'Y'
  const NACK_TYPE: byte := 0x4E   // 'N'

  /** tochar and untochar: add and remove SPACE, modulo 256. */
  function ToChar(x: int): byte { (x + 32) % 256 }
  function UnChar(c: byte): byte { (c - 32) % 256 }

  /** The manual's type 1 block check: the sum of the characters, with bits 7..6 added
      into bits 5..0. */
  function BlockCheck(sum: int): byte {
    (sum + (sum / 64) % 4) % 64
  }

  /** What one pass through the receiver's loop can make of the line. */
  datatype Attempt =
    | BadHead                               // refused before a sequence number was read
    | BadPacket(n: byte, fed: seq<byte>)    // refused later; `fed` had gone to the data decoder
    | Good(n: byte, kind: byte, data: seq<byte>)

  datatype Reception =
    | Silent                                // no more characters: getc never returns
    | Interrupted                           // ^C while waiting for a packet
    | Heard(attempt: Attempt, rest: seq<byte>)

  /** The characters that have already been handed to k_data_char. */
  function Fed(kind: byte, data: seq<byte>): seq<byte> {
    if kind == DATA_TYPE then data else []
  }

  /** k_recv from "wait for the starting character or ^C". */
  function Parse(s: seq<byte>): Reception {
    if s == [] then Silent
    else if s[0] == START_CHAR then ParseHead(s[1..])
    else if s[0] == ETX_CHAR then Interrupted
    else Parse(s[1..])
  }

  /** Length and sequence characters. */
  function ParseHead(s: seq<byte>): Reception {
    if s == [] then Silent
    else if s[0] < 32 then Heard(BadHead, s[1..])
    else if |s| == 1 then Silent
    else if s[1] < 32 then Heard(BadHead, s[2..])
    else ParseType(UnChar(s[1]), UnChar(s[0]) - 1, (s[0] as int) + s[1], s[2..])
  }

  /** Packet type, and the choice between the two kinds of length. */
  function ParseType(n: byte, length: int, sum: nat, s: seq<byte>): Reception {
    if s == [] then Silent
    else if s[0] < 32 then Heard(BadPacket(n, []), s[1..])
    else if length - 1 == -2 then ParseLong(n, s[0], sum + s[0], s[1..])
    else ParseBody(n, s[0], length - 1, sum + s[0], [], s[1..])
  }

  /** The extended length: two length characters in base 95 and a header check. */
  function ParseLong(n: byte, kind: byte, sum: nat, s: seq<byte>): Reception {
    if s == [] then Silent
    else if s[0] < 32 then Heard(BadPacket(n, []), s[1..])
    else if |s| == 1 then Silent
    else if s[1] < 32 then Heard(BadPacket(n, []), s[2..])
    else if |s| == 2 then Silent
    else if s[2] < 32 || s[2] != ToChar(BlockCheck(sum + s[0] + s[1]))
      then Heard(BadPacket(n, []), s[3..])
    else ParseBody(n, kind, UnChar(s[0]) * 95 + UnChar(s[1]), sum + s[0] + s[1] + s[2], [], s[3..])
  }

  /** The data characters; `length` counts them and the block check. */
  function ParseBody(n: byte, kind: byte, length: int, sum: nat, data: seq<byte>, s: seq<byte>): Reception
    decreases s
  {
    if length <= 1 then ParseTail(n, kind, sum, data, s)
    else if s == [] then Silent
    else if s[0] < 32 then Heard(BadPacket(n, Fed(kind, data)), s[1..])
    else ParseBody(n, kind, length - 1, sum + s[0], data + [s[0]], s[1..])
  }

  /** Block check and end of line. */
  function ParseTail(n: byte, kind: byte, sum: nat, data: seq<byte>, s: seq<byte>): Reception {
    if s == [] then Silent
    else if s[0] < 32 || s[0] != ToChar(BlockCheck(sum))
      then Heard(BadPacket(n, Fed(kind, data)), s[1..])
    else if |s| == 1 then Silent
    else if s[1] != END_CHAR then Heard(BadPacket(n, Fed(kind, data)), s[2..])
    else Heard(Good(n, kind, data), s[2..])
  }

  /** Every attempt uses up at least one character. */
  lemma {:induction false} ParseConsumes(s: seq<byte>)
    ensures Parse(s).Heard? ==> |Parse(s).rest| < |s|
  {
    if s != [] && s[0] != ETX_CHAR {
      if s[0] == START_CHAR {
        var h := s[1..];
        if |h| >= 3 && h[0] >= 32 && h[1] >= 32 && h[2] >= 32 {
          var t := h[2..][1..];
          if UnChar(h[0]) == 0 {
            if |t| >= 3 { BodyConsumes(UnChar(h[1]), h[2], UnChar(t[0]) * 95 + UnChar(t[1]),
              (h[0] as int) + h[1] + h[2] + t[0] + t[1] + t[2], [], t[3..]); }
          } else {
            BodyConsumes(UnChar(h[1]), h[2], UnChar(h[0]) - 2, (h[0] as int) + h[1] + h[2], [], t);
          }
        }
      } else {
        ParseConsumes(s[1..]);
      }
    }
  }

  lemma {:induction false} BodyConsumes(n: byte, kind: byte, length: int, sum: nat, data: seq<byte>, s: seq<byte>)
    ensures ParseBody(n, kind, length, sum, data, s).Heard?
        ==> |ParseBody(n, kind, length, sum, data, s).rest| < |s|
    decreases s
  {
    if length > 1 && s != [] && s[0] >= 32 {
      BodyConsumes(n, kind, length - 1, sum + s[0], data + [s[0]], s[1..]);
    }
  }

  /** Once a sequence number has been read, whatever is heard carries that number. */
  lemma {:induction false} TypedHasNumber(n: byte, length: int, sum: nat, s: seq<byte>)
    ensures var r := ParseType(n, length, sum, s);
            !r.Interrupted? && (r.Heard? ==> !r.attempt.BadHead? && r.attempt.n == n)
  {
    if |s| > 0 && s[0] >= 32 {
      var t := s[1..];
      if length - 1 == -2 {
        if |t| >= 3 {
          BodyHasNumber(n, s[0], UnChar(t[0]) * 95 + UnChar(t[1]), sum + s[0] + t[0] + t[1] + t[2], [], t[3..]);
        }
      } else {
        BodyHasNumber(n, s[0], length - 1, sum + s[0], [], t);
      }
    }
  }

  lemma {:induction false} BodyHasNumber(n: byte, kind: byte, length: int, sum: nat, data: seq<byte>, s: seq<byte>)
    ensures var r := ParseBody(n, kind, length, sum, data, s);
            !r.Interrupted? && (r.Heard? ==> !r.attempt.BadHead? && r.attempt.n == n)
    decreases s
  {
    if length > 1 && s != [] && s[0] >= 32 {
      BodyHasNumber(n, kind, length - 1, sum + s[0], data + [s[0]], s[1..]);
    }
  }

  // ---- The manual's frames -------------------------------------------------------

  predicate Graphic(s: seq<byte>) {
    forall i :: 0 <= i < |s| ==> s[i] >= 32
  }

  /** The part of a frame that its block check covers. */
  function ShortBody(n: nat, kind: byte, data: seq<byte>): seq<byte> {
    [ToChar(|data| + 3), ToChar(n), kind] + data
  }

  function LongHead(n: nat, kind: byte, length: nat): seq<byte> {
    [ToChar(0), ToChar(n), kind, ToChar(length / 95), ToChar(length % 95)]
  }

  /** What stands in front of the data: the short form when it fits, the long form otherwise. */
  function Head(n: nat, kind: byte, size: nat): seq<byte> {
    if size <= 91 then [ToChar(size + 3), ToChar(n), kind]
    else LongHead(n, kind, size + 1) + [ToChar(BlockCheck(Sum(LongHead(n, kind, size + 1))))]
  }

  /** A packet whose fields the manual can express: sequence numbers are modulo 64, and
      the largest extended length is 95 * 94 + 94. */
  predicate Sendable(n: nat, kind: byte, data: seq<byte>) {
    n < 64 && kind >= 32 && Graphic(data) && |data| < 95 * 94 + 94
  }

  /** The block check of a frame. */
  function CheckOf(n: nat, kind: byte, data: seq<byte>): byte {
    ToChar(BlockCheck(Sum(Head(n, kind, |data|) + data)))
  }

  /** The frame a sender transmits. */
  function Frame(n: nat, kind: byte, data: seq<byte>): seq<byte> {
    Framed(Head(n, kind, |data|), data, CheckOf(n, kind, data))
  }

  function Framed(head: seq<byte>, data: seq<byte>, check: byte): seq<byte> {
    [START_CHAR] + head + data + [check, END_CHAR]
  }

  /** Reading data characters that are all graphic collects them and adds them up. */
  lemma {:induction false} BodyReads(n: byte, kind: byte, sum: nat, got: seq<byte>, data: seq<byte>, rest: seq<byte>)
    requires Graphic(data)
    ensures ParseBody(n, kind, |data| + 1, sum, got, data + rest)
         == ParseTail(n, kind, sum + Sum(data), got + data, rest)
    decreases data
  {
    if data == [] {
      assert data + rest == rest && got + data == got;
    } else {
      var c := data[0];
      assert (data + rest)[0] == c && (data + rest)[1..] == data[1..] + rest;
      assert got + [c] + data[1..] == got + data;
      BodyReads(n, kind, sum + c, got + [c], data[1..], rest);
    }
  }

  /** The block check decides; the end of line is not read behind a wrong one. */
  lemma {:induction false} TailReads(n: byte, kind: byte, sum: nat, data: seq<byte>, check: byte, rest: seq<byte>)
    ensures ParseTail(n, kind, sum, data, [check, END_CHAR] + rest)
         == if check == ToChar(BlockCheck(sum)) then Heard(Good(n, kind, data), rest)
            else Heard(BadPacket(n, Fed(kind, data)), [END_CHAR] + rest)
  {
    var s := [check, END_CHAR] + rest;
    assert s[2..] == rest && s[1..] == [END_CHAR] + rest;
  }

  /** The fixed part of a short frame, as far as its data. */
  lemma {:induction false} ShortHeadReads(length: nat, n: nat, kind: byte, tail: seq<byte>)
    requires 1 <= length < 95 && n < 224 && kind >= 32
    ensures ParseHead([ToChar(length), ToChar(n), kind] + tail)
         == ParseBody(n, kind, length - 2, Sum([ToChar(length), ToChar(n), kind]), [], tail)
  {
    CharRange(length);
    CharRange(n);
    var s := [ToChar(length), ToChar(n), kind] + tail;
    SumOfThree(ToChar(length), ToChar(n), kind);
    assert s[2..] == [kind] + tail && s[2..][1..] == tail;
  }

  lemma {:induction false} CharRange(x: int)
    requires 0 <= x < 224
    ensures ToChar(x) == x + 32 && UnChar(ToChar(x)) == x
  {
  }

  lemma {:induction false} LengthReads(n: byte, kind: byte, sum: nat, hi: byte, lo: byte, check: byte, tail: seq<byte>)
    requires hi >= 32 && lo >= 32 && check >= 32 && check == ToChar(BlockCheck(sum + hi + lo))
    ensures ParseLong(n, kind, sum, [hi, lo, check] + tail)
         == ParseBody(n, kind, UnChar(hi) * 95 + UnChar(lo), sum + hi + lo + check, [], tail)
  {
    assert ([hi, lo, check] + tail)[3..] == tail;
  }

  lemma {:induction false} TypeReads(a: byte, kind: byte, tail: seq<byte>)
    requires a >= 32 && kind >= 32
    ensures ParseHead([32, a, kind] + tail) == ParseLong(UnChar(a), kind, Sum([32, a, kind]), tail)
  {
    var h := [32, a, kind] + tail;
    assert h[2..] == [kind] + tail && h[2..][1..] == tail;
    SumOfThree(32, a, kind);
  }

  lemma {:induction false} LongHeadReads(length: nat, n: nat, kind: byte, tail: seq<byte>)
    requires length <= 95 * 94 + 94 && n < 224 && kind >= 32
    ensures var head := LongHead(n, kind, length);
            var check := ToChar(BlockCheck(Sum(head)));
            ParseHead(head + [check] + tail) == ParseBody(n, kind, length, Sum(head) + check, [], tail)
  {
    CharRange(0);
    CharRange(n);
    CharRange(length / 95);
    CharRange(length % 95);
    var hi, lo := ToChar(length / 95), ToChar(length % 95);
    var front: seq<byte> := [32, ToChar(n), kind];
    var head := LongHead(n, kind, length);
    assert head == front + [hi, lo];
    SumAppend(front, [hi, lo]);
    SumOfTwo(hi, lo);
    CharRange(BlockCheck(Sum(head)));
    var check := ToChar(BlockCheck(Sum(head)));
    assert head + [check] + tail == front + ([hi, lo, check] + tail);
    TypeReads(ToChar(n), kind, [hi, lo, check] + tail);
    LengthReads(n, kind, Sum(front), hi, lo, check, tail);
  }

  lemma {:induction false} SumOfTwo(a: byte, b: byte)
    ensures Sum([a, b]) == a as int + b
  {
    assert [a, b][1..] == [b] && [b][1..] == [];
    assert Sum([b]) == b;
  }

  lemma {:induction false} SumOfThree(a: byte, b: byte, c: byte)
    ensures Sum([a, b, c]) == a as int + b + c
  {
    assert [a, b, c][1..] == [b, c];
    SumOfTwo(b, c);
  }

  /** The head of a frame, as far as its data. */
  lemma {:induction false} HeadReads(n: nat, kind: byte, size: nat, tail: seq<byte>)
    requires n < 224 && kind >= 32 && size < 95 * 94 + 94
    ensures ParseHead(Head(n, kind, size) + tail)
         == ParseBody(n, kind, size + 1, Sum(Head(n, kind, size)), [], tail)
  {
    if size <= 91 {
      ShortHeadReads(size + 3, n, kind, tail);
    } else {
      CheckedHeadReads(LongHead(n, kind, size + 1), n, kind, size, tail);
    }
  }

  lemma {:induction false} CheckedHeadReads(head: seq<byte>, n: nat, kind: byte, size: nat, tail: seq<byte>)
    requires n < 224 && kind >= 32 && size < 95 * 94 + 94 && head == LongHead(n, kind, size + 1)
    ensures var whole := head + [ToChar(BlockCheck(Sum(head)))];
            ParseHead(whole + tail) == ParseBody(n, kind, size + 1, Sum(whole), [], tail)
  {
    LongHeadReads(size + 1, n, kind, tail);
    SumMore(head, ToChar(BlockCheck(Sum(head))));
  }

  lemma {:induction false} SumMore(s: seq<byte>, c: byte)
    ensures Sum(s + [c]) == Sum(s) + c
  {
    SumAppend(s, [c]);
    assert [c][1..] == [];
  }

  lemma {:induction false} Parts(head: seq<byte>, data: seq<byte>, check: byte, rest: seq<byte>)
    ensures var s := Framed(head, data, check) + rest;
            s[0] == START_CHAR && s[1..] == head + (data + ([check, END_CHAR] + rest))
  {
  }

  lemma {:induction false} DataReads(n: byte, kind: byte, head: seq<byte>, data: seq<byte>, end: seq<byte>)
    requires Graphic(data)
    ensures ParseBody(n, kind, |data| + 1, Sum(head), [], data + end)
         == ParseTail(n, kind, Sum(head + data), data, end)
  {
    BodyReads(n, kind, Sum(head), [], data, end);
    SumAppend(head, data);
    assert [] + data == data;
  }

  /** A frame of graphic characters is accepted if and only if its block check is right. */
  lemma {:induction false} FrameReads(n: nat, kind: byte, data: seq<byte>, check: byte, rest: seq<byte>)
    requires n < 224 && kind >= 32 && Graphic(data) && |data| < 95 * 94 + 94
    ensures Parse(Framed(Head(n, kind, |data|), data, check) + rest)
         == if check == CheckOf(n, kind, data) then Heard(Good(n, kind, data), rest)
            else Heard(BadPacket(n, Fed(kind, data)), [END_CHAR] + rest)
  {
    var head := Head(n, kind, |data|);
    var end := [check, END_CHAR] + rest;
    Parts(head, data, check, rest);
    HeadReads(n, kind, |data|, data + end);
    DataReads(n, kind, head, data, end);
    TailReads(n, kind, Sum(head + data), data, check, rest);
  }

  /** A frame of the manual, short or long, is accepted with all its fields. */
  lemma {:induction false} WholeFrameHeard(n: nat, kind: byte, data: seq<byte>, rest: seq<byte>)
    requires n < 224 && kind >= 32 && Graphic(data) && |data| < 95 * 94 + 94
    ensures Parse(Frame(n, kind, data) + rest) == Heard(Good(n, kind, data), rest)
  {
    FrameReads(n, kind, data, CheckOf(n, kind, data), rest);
  }

  /** Characters between packets that cannot be taken for a packet or an interrupt. */
  predicate Noise(s: seq<byte>) {
    1 !in s && 3 !in s
  }

  /** Such characters are passed over. */
  lemma {:induction false} NoiseSkipped(noise: seq<byte>, s: seq<byte>)
    requires Noise(noise)
    ensures Parse(noise + s) == Parse(s)
  {
    if noise == [] {
      assert noise + s == s;
    } else {
      assert noise[0] in noise && (noise + s)[1..] == noise[1..] + s;
      NoiseSkipped(noise[1..], s);
    }
  }

  /** Any frame the manual allows is accepted with all its fields, whatever noise comes
      first, and nothing after it is touched. */
  lemma {:induction false} FrameHeard(noise: seq<byte>, n: nat, kind: byte, data: seq<byte>, rest: seq<byte>)
    requires Noise(noise) && Sendable(n, kind, data)
    ensures Parse(noise + Frame(n, kind, data) + rest) == Heard(Good(n, kind, data), rest)
  {
    var frame := Frame(n, kind, data);
    WholeFrameHeard(n, kind, data, rest);
    NoiseSkipped(noise, frame + rest);
    assert noise + (frame + rest) == noise + frame + rest;
  }
}
