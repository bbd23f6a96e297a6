/** Frames that are damaged on the line: how the receiver hears them, and what the block check notices. */
module KermitDamage {
  import opened Machine
  import opened KermitFrame

  /** One character of a frame arrives wrong: a data character, or a length or sequence character that
      turns into a control character. */
  datatype Damage = Intact | DataChar(at: nat, c: byte) | LengthChar(c: byte) | NumberChar(c: byte)

  /** The characters that arrive. */
  function Wire(n: nat, kind: byte, data: seq<byte>, d: Damage): seq<byte>
    requires Possible(data, d)
  {
    var head := Head(n, kind, |data|);
    match d
    case Intact => Frame(n, kind, data)
    case DataChar(at, c) => Framed(head, data[at := c], CheckOf(n, kind, data))
    case LengthChar(c) => Framed(head[0 := c], data, CheckOf(n, kind, data))
    case NumberChar(c) => Framed(head[1 := c], data, CheckOf(n, kind, data))
  }

  predicate Possible(data: seq<byte>, d: Damage) {
    match d
    case Intact => true
    case DataChar(at, _) => at < |data|
    case LengthChar(c) => c < 32
    case NumberChar(c) => c < 32
  }

  /** It is one character of the frame that differs. */
  lemma {:induction false} WireIsFrame(n: nat, kind: byte, data: seq<byte>, d: Damage)
    requires Possible(data, d)
    ensures var frame, wire, size := Frame(n, kind, data), Wire(n, kind, data, d), |Head(n, kind, |data|)|;
            match d
            case Intact => wire == frame
            case DataChar(at, c) => 1 + size + at < |frame| && wire == frame[1 + size + at := c]
            case LengthChar(c) => wire == frame[1 := c]
            case NumberChar(c) => wire == frame[2 := c]
  {
  }

  /** The damage shows: a control character, or a sum with another block check. */
  predicate Noticed(n: nat, kind: byte, data: seq<byte>, d: Damage)
    requires Possible(data, d)
  {
    d.DataChar? && d.c >= 32 ==> CheckOf(n, kind, data[d.at := d.c]) != CheckOf(n, kind, data)
  }

  // ---- What is heard -----------------------------------------------------------------

  function AttemptOf(n: byte, kind: byte, data: seq<byte>, d: Damage): Attempt
    requires Possible(data, d)
  {
    match d
    case Intact => Good(n, kind, data)
    case DataChar(at, c) => BadPacket(n, Fed(kind, if c < 32 then data[..at] else data[at := c]))
    case LengthChar(_) => BadHead
    case NumberChar(_) => BadHead
  }

  /** The characters of the frame that are not read any more. */
  function Leftover(n: nat, kind: byte, data: seq<byte>, d: Damage): seq<byte>
    requires Possible(data, d)
  {
    var head, end := Head(n, kind, |data|), [CheckOf(n, kind, data), END_CHAR];
    match d
    case Intact => []
    case DataChar(at, c) => if c < 32 then data[at + 1..] + end else [END_CHAR]
    case LengthChar(_) => head[1..] + data + end
    case NumberChar(_) => head[2..] + data + end
  }

  /** A control character among the data ends the attempt. */
  lemma {:induction false} BodyStops(n: byte, kind: byte, length: int, sum: nat, got: seq<byte>, data: seq<byte>,
                                     c: byte, rest: seq<byte>)
    requires Graphic(data) && length > |data| + 1 && c < 32
    ensures ParseBody(n, kind, length, sum, got, data + ([c] + rest))
         == Heard(BadPacket(n, Fed(kind, got + data)), rest)
    decreases data
  {
    var s := data + ([c] + rest);
    if data == [] {
      assert s == [c] + rest && s[1..] == rest && got + data == got;
    } else {
      assert s[0] == data[0] && s[1..] == data[1..] + ([c] + rest);
      assert got + [data[0]] + data[1..] == got + data;
      BodyStops(n, kind, length - 1, sum + data[0], got + [data[0]], data[1..], c, rest);
    }
  }

  lemma {:induction false} Replaced(data: seq<byte>, at: nat, c: byte, end: seq<byte>)
    requires at < |data|
    ensures data[at := c] + end == data[..at] + ([c] + (data[at + 1..] + end))
  {
  }

  lemma {:induction false} DataStops(n: nat, kind: byte, data: seq<byte>, at: nat, c: byte, check: byte,
                                     rest: seq<byte>)
    requires n < 64 && kind >= 32 && Graphic(data) && at < |data| < 95 * 94 + 94 && c < 32
    ensures Parse(Framed(Head(n, kind, |data|), data[at := c], check) + rest)
         == Heard(BadPacket(n, Fed(kind, data[..at])), data[at + 1..] + ([check, END_CHAR] + rest))
  {
    var head, end := Head(n, kind, |data|), [check, END_CHAR] + rest;
    var more := data[at + 1..] + end;
    Parts(head, data[at := c], check, rest);
    Replaced(data, at, c, end);
    HeadReads(n, kind, |data|, data[at := c] + end);
    BodyStops(n, kind, |data| + 1, Sum(head), [], data[..at], c, more);
    assert [] + data[..at] == data[..at];
  }

  lemma {:induction false} HeadStops(head: seq<byte>, data: seq<byte>, check: byte, c: byte, rest: seq<byte>)
    requires |head| >= 3 && head[0] >= 32 && c < 32
    ensures Parse(Framed(head[0 := c], data, check) + rest)
         == Heard(BadHead, head[1..] + data + [check, END_CHAR] + rest)
    ensures Parse(Framed(head[1 := c], data, check) + rest)
         == Heard(BadHead, head[2..] + data + [check, END_CHAR] + rest)
  {
    var end := [check, END_CHAR] + rest;
    Parts(head[0 := c], data, check, rest);
    Parts(head[1 := c], data, check, rest);
    assert (head[0 := c] + (data + end))[1..] == head[1..] + data + [check, END_CHAR] + rest;
    assert (head[1 := c] + (data + end))[2..] == head[2..] + data + [check, END_CHAR] + rest;
  }

  lemma {:induction false} HeadGraphic(n: nat, kind: byte, size: nat)
    requires n < 64 && kind >= 32 && size < 95 * 94 + 94
    ensures |Head(n, kind, size)| >= 3 && Graphic(Head(n, kind, size))
  {
    CharRange(n);
    if size <= 91 {
      CharRange(size + 3);
    } else {
      CharRange(0);
      CharRange((size + 1) / 95);
      CharRange((size + 1) % 95);
      CharRange(BlockCheck(Sum(LongHead(n, kind, size + 1))));
    }
  }

  /** A frame with a noticed damage is heard as one refused attempt, at its own number unless its head was
      hit, and what is left of it is passed over. */
  lemma {:induction false} WireHeard(n: nat, kind: byte, data: seq<byte>, d: Damage, rest: seq<byte>)
    requires Sendable(n, kind, data) && Possible(data, d) && Noticed(n, kind, data, d)
    ensures Parse(Wire(n, kind, data, d) + rest)
         == Heard(AttemptOf(n, kind, data, d), Leftover(n, kind, data, d) + rest)
  {
    var head, check := Head(n, kind, |data|), CheckOf(n, kind, data);
    HeadGraphic(n, kind, |data|);
    match d
    case Intact =>
      WholeFrameHeard(n, kind, data, rest);
      assert [] + rest == rest;
    case DataChar(at, c) =>
      if c < 32 {
        DataStops(n, kind, data, at, c, check, rest);
        assert data[at + 1..] + [check, END_CHAR] + rest == data[at + 1..] + ([check, END_CHAR] + rest);
      } else {
        FrameReads(n, kind, data[at := c], check, rest);
      }
    case LengthChar(c) => HeadStops(head, data, check, c, rest);
    case NumberChar(c) => HeadStops(head, data, check, c, rest);
  }

  lemma {:induction false} LeftoverIsNoise(n: nat, kind: byte, data: seq<byte>, d: Damage)
    requires Sendable(n, kind, data) && Possible(data, d)
    ensures Noise(Leftover(n, kind, data, d))
  {
    HeadGraphic(n, kind, |data|);
    CharRange(BlockCheck(Sum(Head(n, kind, |data|) + data)));
    var s := Leftover(n, kind, data, d);
    forall i | 0 <= i < |s| ensures s[i] >= 32 || s[i] == END_CHAR {}
  }

  // ---- What the block check notices --------------------------------------------------

  /** Adding a power of two below 256 to a sum changes its block check. */
  lemma {:induction false} PowerNoticed(s: nat, k: nat)
    requires k < 8
    ensures BlockCheck(s + Pow2(k)) != BlockCheck(s)
  {
    assert Pow2(0) == 1 && Pow2(1) == 2 && Pow2(2) == 4 && Pow2(3) == 8;
    assert Pow2(4) == 16 && Pow2(5) == 32 && Pow2(6) == 64 && Pow2(7) == 128;
    StepNoticed(s, Pow2(k));
  }

  lemma {:induction false} StepNoticed(s: nat, d: nat)
    requires d == 64 || d == 128 || (0 < d < 63 && d != 3)
    ensures BlockCheck(s + d) != BlockCheck(s)
  {
    var q, r := s / 64, s % 64;
    assert s == 64 * q + r;
    CheckIs(q, r);
    if d >= 64 {
      var e := if d == 64 then 1 else 2;
      assert s + d == 64 * (q + e) + r;
      CheckIs(q + e, r);
    } else if r + d < 64 {
      assert s + d == 64 * q + (r + d);
      CheckIs(q, r + d);
    } else {
      assert s + d == 64 * (q + 1) + (r + d - 64);
      CheckIs(q + 1, r + d - 64);
    }
  }

  /** The sum of two bits and six, in six bits. */
  function Folded(r: nat, m: nat): nat {
    if r + m < 64 then r + m else r + m - 64
  }

  lemma {:induction false} CheckIs(q: nat, r: nat)
    requires r < 64
    ensures BlockCheck(64 * q + r) == Folded(r, q % 4)
    ensures (q + 1) % 4 == (if q % 4 == 3 then 0 else q % 4 + 1)
    ensures (q + 2) % 4 == (if q % 4 >= 2 then q % 4 - 2 else q % 4 + 2)
  {
    var s := 64 * q + r;
    RemainderUnique(s, 64, q, r);
    var m := q % 4;
    RemainderUnique(s + m, 64, if r + m < 64 then q else q + 1, Folded(r, m));
  }

  /** Two characters whose values differ by a power of two, as when one bit is flipped. */
  predicate OneBit(a: byte, b: byte) {
    exists k: nat :: k < 8 && (b == a + Pow2(k) || a == b + Pow2(k))
  }

  /** A flipped bit in a data character is always noticed. */
  lemma {:induction false} OneBitNoticed(n: nat, kind: byte, data: seq<byte>, at: nat, c: byte)
    requires at < |data| && OneBit(data[at], c)
    ensures Noticed(n, kind, data, DataChar(at, c))
  {
    var head := Head(n, kind, |data|);
    var k: nat :| k < 8 && (c == data[at] + Pow2(k) || data[at] == c + Pow2(k));
    BitInSum(head + data, |head| + at, c, k);
    assert (head + data)[|head| + at := c] == head + data[at := c];
    ToCharDiffers(BlockCheck(Sum(head + data)), BlockCheck(Sum(head + data[at := c])));
  }

  lemma {:induction false} BitInSum(s: seq<byte>, i: nat, c: byte, k: nat)
    requires i < |s| && k < 8 && (c == s[i] + Pow2(k) || s[i] == c + Pow2(k))
    ensures BlockCheck(Sum(s[i := c])) != BlockCheck(Sum(s))
  {
    SumReplaced(s, i, c);
    PowerNoticed(if c > s[i] then Sum(s) else Sum(s[i := c]), k);
  }

  lemma {:induction false} ToCharDiffers(a: byte, b: byte)
    requires a < 64 && b < 64 && a != b
    ensures ToChar(a) != ToChar(b)
  {
    CharRange(a);
    CharRange(b);
  }

  lemma {:induction false} SumReplaced(s: seq<byte>, i: nat, c: byte)
    requires i < |s|
    ensures Sum(s[i := c]) == Sum(s) - s[i] + c
  {
    if i > 0 {
      assert s[i := c][1..] == s[1..][i - 1 := c];
      SumReplaced(s[1..], i - 1, c);
    } else {
      assert s[i := c][1..] == s[1..];
    }
  }

  /** But not every wrong character: a 'v' that arrives as a 'y' in packet 0 leaves the check as it was. */
  lemma {:induction false} NotAllNoticed(data: seq<byte>)
    requires data == [118]
    ensures !Noticed(0, DATA_TYPE, data, DataChar(0, 121))
  {
    var head := Head(0, DATA_TYPE, 1);
    SumOfThree(36, 32, 68);
    SumAppend(head, data);
    SumReplaced(head + data, 3, 121);
    assert (head + data)[3 := 121] == head + data[0 := 121] && Sum(data) == 118;
    assert Sum(head + data) == 254 && Sum(head + data[0 := 121]) == 257;
  }
}
