/** save_serial of cmd_load.c, which sends a memory area as S3 records, against a reader of such records
    as Appendix C of the M68000 Family Programmer's Reference Manual describes them. */
module SRecord {
  import opened Machine

  const PER_RECORD: nat := 16         // SREC_BYTES_PER_RECORD
  const LINE_ROOM: nat := 48          // the size of the buffer for one record
  const DATA_ROOM: nat := 33          // the size of the buffer for its data

  /** Some bytes and the address of the first. */
  datatype Record = Record(address: u32, data: seq<byte>)

  // ---- Hexadecimal text --------------------------------------------------------------

  function HexChar(d: int): byte
    requires 0 <= d < 16
  {
    if d < 10 then 48 + d else 55 + d
  }

  function Hex(b: byte): seq<byte> { [HexChar(b / 16), HexChar(b % 16)] }

  function HexAll(bs: seq<byte>): (s: seq<byte>)
    ensures |s| == 2 * |bs|
  {
    if bs == [] then [] else Hex(bs[0]) + HexAll(bs[1..])
  }

  lemma {:induction false} HexAppend(a: seq<byte>, b: seq<byte>)
    ensures HexAll(a + b) == HexAll(a) + HexAll(b)
  {
    if a == [] {
      assert a + b == b;
    } else {
      HexAppend(a[1..], b);
      assert (a + b)[1..] == a[1..] + b;
    }
  }

  // ---- A record as text --------------------------------------------------------------

  /** Length, address and data. */
  function Body(r: Record): seq<byte>
    requires |r.data| <= PER_RECORD
  {
    [4 + |r.data| + 1] + BigEndian(r.address) + r.data
  }

  /** The byte that makes the sum 0xFF. */
  function Checksum(bs: seq<byte>): byte { 255 - Sum(bs) % 256 }

  /** "S3", the bytes of the record with their checksum, and a newline. */
  function Line(r: Record): seq<byte>
    requires |r.data| <= PER_RECORD
  {
    [83, 51] + HexAll(Body(r) + [Checksum(Body(r))]) + [10]
  }

  function Start(): seq<byte> { [83, 48, 48, 51, 48, 48, 48, 48, 70, 67, 10] }                    // S0030000FC
  function End(): seq<byte> { [83, 55, 48, 53, 48, 48, 48, 48, 48, 48, 48, 48, 70, 65, 10] }      // S70500000000FA

  // ---- Reading a record --------------------------------------------------------------

  /** What a line of text is to a reader: data, a header, the end of the file, or nothing it knows. */
  datatype Reading = Good(record: Record) | Header | Finish(start: u32) | Bad

  function Digit(c: byte): int {
    if 48 <= c <= 57 then c - 48 else if 65 <= c <= 70 then c - 55 else -1
  }

  predicate IsHex(s: seq<byte>) {
    |s| % 2 == 0 && forall i :: 0 <= i < |s| ==> Digit(s[i]) >= 0
  }

  function Unhex(s: seq<byte>): seq<byte>
    requires IsHex(s)
  {
    if s == [] then [] else [Digit(s[0]) * 16 + Digit(s[1])] + Unhex(s[2..])
  }

  /** The bytes of a record: a count of those that follow it, and at the end a checksum that is the one's
      complement of the low byte of the sum of all the others. */
  predicate Sound(bs: seq<byte>) {
    |bs| >= 2 && bs[0] == |bs| - 1 && Sum(bs) % 256 == 255
  }

  /** An S0, S3 or S7 record; the last two have a four-byte address. */
  function ReadLine(s: seq<byte>): Reading {
    if |s| < 3 || s[0] != 83 || s[|s| - 1] != 10 || !IsHex(s[2..|s| - 1]) then Bad
    else ReadBytes(s[1], Unhex(s[2..|s| - 1]))
  }

  function ReadBytes(kind: byte, bs: seq<byte>): Reading {
    if !Sound(bs) then Bad
    else if kind == 51 && |bs| >= 6 then Good(Record(FromBigEndian(bs[1..5]), bs[5..|bs| - 1]))
    else if kind == 48 then Header
    else if kind == 55 && |bs| == 6 then Finish(FromBigEndian(bs[1..5]))
    else Bad
  }

  lemma {:induction false} HexReads(bs: seq<byte>)
    ensures IsHex(HexAll(bs)) && Unhex(HexAll(bs)) == bs
  {
    if bs != [] {
      var s := HexAll(bs);
      HexReads(bs[1..]);
      assert s[2..] == HexAll(bs[1..]);
      forall i | 0 <= i < |s| ensures Digit(s[i]) >= 0 { assert i >= 2 ==> s[i] == s[2..][i - 2]; }
    }
  }

  /** Length, address, data and checksum of every record add up to 0xFF. */
  lemma {:induction false} SumIs255(r: Record)
    requires |r.data| <= PER_RECORD
    ensures Sum(Body(r) + [Checksum(Body(r))]) % 256 == 255
  {
    SumAppend(Body(r), [Checksum(Body(r))]);
  }

  /** A record that was written is read as it was, and its line with the NUL fits the buffer. */
  lemma {:induction false} LineReads(r: Record)
    requires 0 < |r.data| <= PER_RECORD
    ensures ReadLine(Line(r)) == Good(r) && |Line(r)| + 1 <= LINE_ROOM
  {
    var body := Body(r);
    var bs := body + [Checksum(body)];
    HexReads(bs);
    SumIs255(r);
    assert Line(r)[2..|Line(r)| - 1] == HexAll(bs);
    assert bs[1..5] == BigEndian(r.address) && bs[5..|bs| - 1] == r.data;
    FromBigEndianOf(r.address);
  }

  // ---- The records of a memory area --------------------------------------------------

  /** `n` bytes of the address space, which goes around at its end. */
  function Area(mem: seq<byte>, address: u32, n: nat): (bs: seq<byte>)
    requires |mem| == WORD_SIZE && n <= WORD_SIZE
  {
    seq(n, i requires 0 <= i < n => mem[Add32(address, i)])
  }

  /** An area in two parts. */
  lemma {:induction false} AreaSplits(mem: seq<byte>, address: u32, n: u32, k: nat)
    requires |mem| == WORD_SIZE && n + k <= WORD_SIZE
    ensures Area(mem, address, n + k) == Area(mem, address, n) + Area(mem, Add32(address, n), k)
  {
    var next := Add32(address, n);
    forall i | 0 <= i < k ensures Add32(next, i) == Add32(address, n + i) {}
  }

  function Records(mem: seq<byte>, address: u32, count: nat): seq<Record>
    requires |mem| == WORD_SIZE
    decreases count
  {
    if count == 0 then []
    else [Record(address, Area(mem, address, Take(count)))]
         + Records(mem, Add32(address, Take(count)), count - Take(count))
  }

  /** How many bytes the next record holds. */
  function Take(count: nat): (n: nat)
    ensures n <= count && n <= PER_RECORD && (count > 0 ==> n > 0)
  {
    if count < PER_RECORD then count else PER_RECORD
  }

  function Lines(rs: seq<Record>): seq<byte>
    requires Sized(rs)
  {
    if rs == [] then [] else Line(rs[0]) + Lines(rs[1..])
  }

  /** Every record holds 1 to 16 bytes. */
  predicate Sized(rs: seq<Record>) {
    forall i :: 0 <= i < |rs| ==> 0 < |rs[i].data| <= PER_RECORD
  }

  lemma {:induction false} RecordsSized(mem: seq<byte>, address: u32, count: nat)
    requires |mem| == WORD_SIZE
    ensures Sized(Records(mem, address, count))
    decreases count
  {
    if count > 0 {
      var n := Take(count);
      RecordsSized(mem, Add32(address, n), count - n);
    }
  }

  // ---- Loading the records again -----------------------------------------------------

  /** Memory after loading bytes, and records, in order. */
  function LoadBytes(m: map<u32, byte>, address: u32, bs: seq<byte>): map<u32, byte>
    decreases |bs|
  {
    if bs == [] then m else LoadBytes(m[address := bs[0]], Add32(address, 1), bs[1..])
  }

  function Load(m: map<u32, byte>, rs: seq<Record>): map<u32, byte>
    decreases |rs|
  {
    if rs == [] then m else Load(LoadBytes(m, rs[0].address, rs[0].data), rs[1..])
  }

  lemma {:induction false} LoadMore(m: map<u32, byte>, address: u32, a: seq<byte>, b: seq<byte>)
    requires |a| < WORD_SIZE
    ensures LoadBytes(m, address, a + b) == LoadBytes(LoadBytes(m, address, a), Add32(address, |a|), b)
    decreases |a|
  {
    if a == [] {
      assert a + b == b;
    } else {
      assert (a + b)[1..] == a[1..] + b;
      LoadMore(m[address := a[0]], Add32(address, 1), a[1..], b);
    }
  }

  /** Loading the records stores exactly the requested bytes at their addresses. */
  lemma {:induction false} RecordsLoad(mem: seq<byte>, m: map<u32, byte>, address: u32, count: nat)
    requires |mem| == WORD_SIZE && count < WORD_SIZE
    ensures Load(m, Records(mem, address, count)) == LoadBytes(m, address, Area(mem, address, count))
    decreases count
  {
    if count > 0 {
      var n := Take(count);
      var rs := Records(mem, address, count);
      var m1 := LoadBytes(m, address, Area(mem, address, n));
      assert rs[1..] == Records(mem, Add32(address, n), count - n);
      RecordsLoad(mem, m1, Add32(address, n), count - n);
      LoadMore(m, address, Area(mem, address, n), Area(mem, Add32(address, n), count - n));
      AreaSplits(mem, address, n, count - n);
    }
  }

  /** And a loaded byte is the byte of the memory that was sent; no other address is touched. */
  lemma {:induction false} LoadedIsSent(mem: seq<byte>, m: map<u32, byte>, address: u32, count: nat, a: u32)
    requires |mem| == WORD_SIZE && count <= WORD_SIZE
    ensures var after := LoadBytes(m, address, Area(mem, address, count));
            && (Sub32(a, address) < count ==> a in after && after[a] == mem[a])
            && (Sub32(a, address) >= count ==> (a in after <==> a in m) && (a in m ==> after[a] == m[a]))
    decreases count
  {
    if count > 0 {
      AreaSplits(mem, address, 1, count - 1);
      assert Area(mem, address, count)[1..] == Area(mem, Add32(address, 1), count - 1);
      LoadedIsSent(mem, m[address := mem[address]], Add32(address, 1), count - 1, a);
    }
  }

  // ---- Reading the whole text --------------------------------------------------------

  /** The length of the first line with its newline, or 0 if there is none. */
  function LineLength(s: seq<byte>): (n: nat)
    ensures n <= |s|
  {
    if s == [] then 0 else if s[0] == 10 then 1
    else var n := LineLength(s[1..]); if n == 0 then 0 else n + 1
  }

  /** The memory after all lines up to the S7 record have been loaded, if each of them is sound. */
  function ReadText(m: map<u32, byte>, text: seq<byte>): Option<map<u32, byte>>
    decreases |text|
  {
    var n := LineLength(text);
    if n == 0 then None
    else
      match ReadLine(text[..n])
      case Good(r) => ReadText(LoadBytes(m, r.address, r.data), text[n..])
      case Header => ReadText(m, text[n..])
      case Finish(_) => Some(m)
      case Bad => None
  }

  /** A line: its only newline is at the end. */
  predicate IsLine(s: seq<byte>) {
    s != [] && s[|s| - 1] == 10 && forall i :: 0 <= i < |s| - 1 ==> s[i] != 10
  }

  lemma {:induction false} LineFirst(line: seq<byte>, rest: seq<byte>)
    requires IsLine(line)
    ensures LineLength(line + rest) == |line|
    decreases |line|
  {
    if |line| > 1 {
      assert (line + rest)[1..] == line[1..] + rest;
      LineFirst(line[1..], rest);
    }
  }

  lemma {:induction false} FirstLineRead(m: map<u32, byte>, line: seq<byte>, rest: seq<byte>)
    requires IsLine(line)
    ensures ReadText(m, line + rest)
         == match ReadLine(line)
            case Good(r) => ReadText(LoadBytes(m, r.address, r.data), rest)
            case Header => ReadText(m, rest)
            case Finish(_) => Some(m)
            case Bad => None
  {
    LineFirst(line, rest);
    assert (line + rest)[..|line|] == line && (line + rest)[|line|..] == rest;
  }

  lemma {:induction false} HexIsLine(kind: byte, bs: seq<byte>)
    requires kind != 10
    ensures IsLine([83, kind] + HexAll(bs) + [10])
    ensures ReadLine([83, kind] + HexAll(bs) + [10]) == ReadBytes(kind, bs)
  {
    var s := [83, kind] + HexAll(bs) + [10];
    HexReads(bs);
    assert s[2..|s| - 1] == HexAll(bs);
    forall i | 0 <= i < |s| - 1 ensures s[i] != 10 { assert i >= 2 ==> Digit(HexAll(bs)[i - 2]) >= 0; }
  }

  lemma {:induction false} StartReads()
    ensures IsLine(Start()) && ReadLine(Start()) == Header
  {
    var bs: seq<byte> := [3, 0, 0, 0xFC];
    HexOfFour(3, 0, 0, 0xFC);
    SumFour(3, 0, 0, 0xFC);
    assert Start() == [83, 48] + HexAll(bs) + [10];
    HexIsLine(48, bs);
  }

  lemma {:induction false} EndReads()
    ensures IsLine(End()) && ReadLine(End()).Finish?
  {
    var front: seq<byte>, back: seq<byte> := [5, 0], [0, 0, 0, 0xFA];
    assert front[1..] == [0] && [0][1..] == [];
    assert HexAll(front) == [48, 53, 48, 48] && Sum(front) == 5;
    HexOfFour(0, 0, 0, 0xFA);
    SumFour(0, 0, 0, 0xFA);
    HexAppend(front, back);
    SumAppend(front, back);
    assert End() == [83, 55] + HexAll(front + back) + [10];
    HexIsLine(55, front + back);
  }

  lemma {:induction false} HexOfFour(a: byte, b: byte, c: byte, d: byte)
    ensures HexAll([a, b, c, d]) == Hex(a) + Hex(b) + Hex(c) + Hex(d)
  {
    assert [a, b, c, d][1..] == [b, c, d] && [b, c, d][1..] == [c, d] && [c, d][1..] == [d] && [d][1..] == [];
    assert HexAll([d]) == Hex(d) && HexAll([c, d]) == Hex(c) + Hex(d);
    assert HexAll([b, c, d]) == Hex(b) + (Hex(c) + Hex(d));
  }

  lemma {:induction false} LineIsLine(r: Record)
    requires |r.data| <= PER_RECORD
    ensures IsLine(Line(r))
  {
    HexIsLine(51, Body(r) + [Checksum(Body(r))]);
  }

  lemma {:induction false} DataLineRead(m: map<u32, byte>, r: Record, rest: seq<byte>)
    requires 0 < |r.data| <= PER_RECORD
    ensures ReadText(m, Line(r) + rest) == ReadText(LoadBytes(m, r.address, r.data), rest)
  {
    LineIsLine(r);
    LineReads(r);
    FirstLineRead(m, Line(r), rest);
  }

  lemma {:induction false} LastLineRead(m: map<u32, byte>, end: seq<byte>)
    requires IsLine(end) && ReadLine(end).Finish?
    ensures ReadText(m, end) == Some(m)
  {
    FirstLineRead(m, end, []);
    assert end + [] == end;
  }

  lemma {:induction false} LinesSplit(rs: seq<Record>, end: seq<byte>)
    requires Sized(rs) && rs != []
    ensures Sized(rs[1..]) && Lines(rs) + end == Line(rs[0]) + (Lines(rs[1..]) + end)
  {
    var first, rest := Line(rs[0]), Lines(rs[1..]);
    assert (first + rest) + end == first + (rest + end);
  }

  lemma {:induction false} LinesRead(m: map<u32, byte>, rs: seq<Record>, end: seq<byte>)
    requires Sized(rs) && IsLine(end) && ReadLine(end).Finish?
    ensures ReadText(m, Lines(rs) + end) == Some(Load(m, rs))
    decreases |rs|
  {
    if rs == [] {
      LastLineRead(m, end);
      assert [] + end == end;
    } else {
      LinesSplit(rs, end);
      DataLineRead(m, rs[0], Lines(rs[1..]) + end);
      LinesRead(LoadBytes(m, rs[0].address, rs[0].data), rs[1..], end);
    }
  }

  /** The whole text that is sent, read line by line, stores exactly the requested bytes at their
      addresses. */
  lemma {:induction false} UploadReads(mem: seq<byte>, m: map<u32, byte>, address: u32, count: nat)
    requires |mem| == WORD_SIZE && count < WORD_SIZE
    ensures ReadText(m, Upload(mem, address, count)) == Some(LoadBytes(m, address, Area(mem, address, count)))
  {
    RecordsSized(mem, address, count);
    var rs := Records(mem, address, count);
    assert Upload(mem, address, count) == Start() + (Lines(rs) + End());
    StartReads();
    EndReads();
    FirstLineRead(m, Start(), Lines(rs) + End());
    LinesRead(m, rs, End());
    RecordsLoad(mem, m, address, count);
  }

  // ---- Order -------------------------------------------------------------------------

  /** Each record ends before the next one starts, and the last one inside the address space. */
  predicate Ascending(rs: seq<Record>) {
    forall i :: 0 <= i < |rs| ==> EndOf(rs[i]) <= StartAfter(rs, i)
  }

  function EndOf(r: Record): int { r.address + |r.data| }

  function StartAfter(rs: seq<Record>, i: nat): int
    requires i < |rs|
  {
    if i + 1 < |rs| then rs[i + 1].address else WORD_SIZE
  }

  /** The records are ascending and disjoint if and only if the area does not go around the end of the
      address space. */
  lemma {:induction false} AscendingIff(mem: seq<byte>, address: u32, count: nat)
    requires |mem| == WORD_SIZE && count < WORD_SIZE
    ensures Ascending(Records(mem, address, count)) <==> address + count <= WORD_SIZE
    decreases count
  {
    if count > 0 {
      var n := Take(count);
      var rs := Records(mem, address, count);
      var rest := Records(mem, Add32(address, n), count - n);
      AscendingIff(mem, Add32(address, n), count - n);
      Shifted(rs, rest);
    }
  }

  /** An area that goes around: its second record lies below the first. */
  lemma {:induction false} AroundTheEnd(mem: seq<byte>)
    requires |mem| == WORD_SIZE
    ensures var rs := Records(mem, 0xFFFF_FFF8, 24);
            && |rs| == 2 && rs[0].address == 0xFFFF_FFF8 && rs[1].address == 8 && !Ascending(rs)
  {
    var rest := Records(mem, 8, 8);
    assert |rest| == 1 && rest[0].address == 8;
    AscendingIff(mem, 0xFFFF_FFF8, 24);
  }

  lemma {:induction false} Shifted(rs: seq<Record>, rest: seq<Record>)
    requires rs != [] && rs[1..] == rest
    ensures Ascending(rs) <==> Ascending(rest) && EndOf(rs[0]) <= StartAfter(rs, 0)
  {
    forall i | 0 <= i < |rest| ensures rest[i] == rs[i + 1] && StartAfter(rest, i) == StartAfter(rs, i + 1) {}
    if Ascending(rs) {
      forall i | 0 <= i < |rest| ensures EndOf(rest[i]) <= StartAfter(rest, i) {
        assert EndOf(rs[i + 1]) <= StartAfter(rs, i + 1);
      }
    }
    if Ascending(rest) && EndOf(rs[0]) <= StartAfter(rs, 0) {
      forall i | 0 <= i < |rs| ensures EndOf(rs[i]) <= StartAfter(rs, i) {
        if i > 0 { assert EndOf(rest[i - 1]) <= StartAfter(rest, i - 1); }
      }
    }
  }

  // ---- save_serial -------------------------------------------------------------------

  /** All that is sent. */
  function Upload(mem: seq<byte>, address: u32, count: nat): seq<byte>
    requires |mem| == WORD_SIZE
  {
    RecordsSized(mem, address, count);
    Start() + Lines(Records(mem, address, count)) + End()
  }

  /** The lines of an area that is still to be sent. */
  function Remaining(mem: seq<byte>, address: u32, count: nat): seq<byte>
    requires |mem| == WORD_SIZE
    decreases count
  {
    if count == 0 then []
    else Line(Record(address, Area(mem, address, Take(count))))
         + Remaining(mem, Add32(address, Take(count)), count - Take(count))
  }

  lemma {:induction false} RemainingLines(mem: seq<byte>, address: u32, count: nat)
    requires |mem| == WORD_SIZE && Sized(Records(mem, address, count))
    ensures Remaining(mem, address, count) == Lines(Records(mem, address, count))
    decreases count
  {
    if count > 0 {
      var n := Take(count);
      assert Records(mem, address, count)[1..] == Records(mem, Add32(address, n), count - n);
      RecordsSized(mem, Add32(address, n), count - n);
      RemainingLines(mem, Add32(address, n), count - n);
    }
  }

  /** The first record and the ones after it. */
  lemma {:induction false} NextLine(mem: seq<byte>, address: u32, n: nat, count: nat, sent: seq<byte>)
    requires |mem| == WORD_SIZE && 0 < n <= PER_RECORD && (n == PER_RECORD || count == 0)
    ensures sent + Remaining(mem, address, n + count)
         == (sent + Line(Record(address, Area(mem, address, n)))) + Remaining(mem, Add32(address, n), count)
  {
    var line, rest := Line(Record(address, Area(mem, address, n))), Remaining(mem, Add32(address, n), count);
    assert Take(n + count) == n;
    assert sent + (line + rest) == (sent + line) + rest;
  }

  lemma {:induction false} AreaGrows(mem: seq<byte>, address: u32, n: u32)
    requires |mem| == WORD_SIZE
    ensures Area(mem, address, n + 1) == Area(mem, address, n) + [mem[Add32(address, n)]]
  {
  }

  /** What the format "S3%02X%08lX%s%02X" makes of the collected digits. */
  function Formatted(length: byte, address: u32, digits: seq<byte>, checksum: byte): seq<byte> {
    [83, 51] + Hex(length) + HexAll(BigEndian(address)) + digits + Hex(checksum) + [10]
  }

  lemma {:induction false} FormattedIsLine(r: Record)
    requires |r.data| <= PER_RECORD
    ensures Formatted(4 + |r.data| + 1, r.address, HexAll(r.data), Checksum(Body(r))) == Line(r)
  {
    var length, a, ck := [(4 + |r.data| + 1) as byte], BigEndian(r.address), [Checksum(Body(r))];
    HexAppend(length + a + r.data, ck);
    HexAppend(length + a, r.data);
    HexAppend(length, a);
  }

  /** The four bytes of an address, as the shifts take them. */
  function Low(address: u32, i: nat): nat {
    if i == 0 then address else Low(address, i - 1) / 256
  }

  function LowSum(address: u32, n: nat): nat {
    if n == 0 then 0 else LowSum(address, n - 1) + Low(address, n - 1) % 256
  }

  lemma {:induction false} BodySum(r: Record)
    requires |r.data| <= PER_RECORD
    ensures Sum(Body(r)) == 4 + |r.data| + 1 + Sum(BigEndian(r.address)) + Sum(r.data)
  {
    var length, a := [(4 + |r.data| + 1) as byte], BigEndian(r.address);
    SumAppend(length + a, r.data);
    SumAppend(length, a);
  }

  lemma {:induction false} AddressSum(address: u32)
    ensures LowSum(address, 4) == Sum(BigEndian(address))
  {
    var high, low := address / 0x1_0000, address % 0x1_0000;
    assert BigEndian(address) == [high / 256, high % 256, low / 256, low % 256];
    SumFour(high / 256, high % 256, low / 256, low % 256);
    LowFour(address);
    ShiftedBytes(address);
  }

  lemma {:induction false} SumFour(b0: byte, b1: byte, b2: byte, b3: byte)
    ensures Sum([b0, b1, b2, b3]) == (b0 as int) + b1 + b2 + b3
  {
    SumAppend([b0], [b1, b2, b3]);
    SumAppend([b1], [b2, b3]);
    SumAppend([b2], [b3]);
    assert [b0] + [b1, b2, b3] == [b0, b1, b2, b3] && [b1] + [b2, b3] == [b1, b2, b3] && [b2] + [b3] == [b2, b3];
  }

  lemma {:induction false} LowFour(address: u32)
    ensures LowSum(address, 4) == address % 256 + address / 256 % 256 + address / 256 / 256 % 256
                                  + address / 256 / 256 / 256 % 256
  {
    assert Low(address, 1) == address / 256;
    assert Low(address, 2) == address / 256 / 256;
    assert Low(address, 3) == address / 256 / 256 / 256;
    assert LowSum(address, 1) == address % 256;
    assert LowSum(address, 2) == address % 256 + address / 256 % 256;
    assert LowSum(address, 3) == address % 256 + address / 256 % 256 + address / 256 / 256 % 256;
  }

  lemma {:induction false} ShiftedBytes(address: u32)
    ensures var high, low := address / 0x1_0000, address % 0x1_0000;
            && address % 256 == low % 256 && address / 256 % 256 == low / 256
            && address / 256 / 256 % 256 == high % 256 && address / 256 / 256 / 256 % 256 == high / 256
  {
    assert address / 256 / 256 == address / 0x1_0000;
  }

  /** The digits and the sum of the bytes that have been collected for a record. */
  ghost predicate Collected(mem: seq<byte>, address: u32, n: nat, digits: seq<byte>, sum: int)
    requires |mem| == WORD_SIZE && n <= PER_RECORD
  {
    2 * n <= |digits| && digits[..2 * n] == HexAll(Area(mem, address, n)) && sum == Sum(Area(mem, address, n))
  }

  lemma {:induction false} NothingCollected(mem: seq<byte>, address: u32, digits: seq<byte>)
    requires |mem| == WORD_SIZE
    ensures Collected(mem, address, 0, digits, 0)
  {
    assert Area(mem, address, 0) == [] && digits[..0] == [];
  }

  /** Between two turns of the loop a record is not full, and only the last one may be empty. */
  ghost predicate Ready(mem: seq<byte>, address: u32, count: nat, n: nat, digits: seq<byte>, sum: int)
    requires |mem| == WORD_SIZE
  {
    n < PER_RECORD && (n > 0 ==> count > 0) && Collected(mem, address, n, digits, sum)
  }

  class Console {
    var out: seq<byte>
    var lines: nat
    const breaks: set<nat>            // after which lines ctrl-C is found pressed

    constructor (breaks: set<nat>)
      ensures out == [] && lines == 0 && this.breaks == breaks
    {
      this.breaks, out, lines := breaks, [], 0;
    }

    /** write_record. */
    method WriteRecord(buf: seq<byte>) returns (rc: int)
      modifies this
      ensures out == old(out) + buf && lines == old(lines) + 1
      ensures rc == 0 <==> old(lines) !in breaks
    {
      for i := 0 to |buf|
        invariant out == old(out) + buf[..i] && lines == old(lines)
      {
        out := out + [buf[i]];
      }
      rc := if lines in breaks then -1 else 0;
      lines := lines + 1;
    }

    /** No break since a given line. */
    ghost predicate Quiet(since: nat)
      reads this
    {
      forall l :: since <= l < lines ==> l !in breaks
    }

    /** One byte more for the record that is being collected. */
    method Collect(mem: seq<byte>, address: u32, reclen: nat, sum: int, data: array<byte>) returns (checksum: int)
      requires |mem| == WORD_SIZE && data.Length == DATA_ROOM && reclen < PER_RECORD
      requires Collected(mem, address, reclen, data[..], sum)
      modifies data
      ensures Collected(mem, address, reclen + 1, data[..], checksum)
    {
      var c := mem[Add32(address, reclen)];
      AreaGrows(mem, address, reclen);
      HexAppend(Area(mem, address, reclen), [c]);
      SumAppend(Area(mem, address, reclen), [c]);
      checksum := sum + c;
      data[2 * reclen] := HexChar(c / 16);
      data[2 * reclen + 1] := HexChar(c % 16);
      data[2 * reclen + 2] := 0;
      assert data[..][..2 * (reclen + 1)] == old(data[..])[..2 * reclen] + Hex(c);
    }

    /** The collected data as a record. */
    method WriteData(mem: seq<byte>, address: u32, reclen: nat, sum: int, digits: seq<byte>) returns (rc: int)
      requires |mem| == WORD_SIZE && 0 < reclen <= PER_RECORD
      requires digits == HexAll(Area(mem, address, reclen)) && sum == Sum(Area(mem, address, reclen))
      modifies this
      ensures out == old(out) + Line(Record(address, Area(mem, address, reclen))) && lines == old(lines) + 1
      ensures rc == 0 <==> old(lines) !in breaks
    {
      var checksum := sum;
      var length: byte := 4 + reclen + 1;
      checksum := checksum + length % 256;
      checksum := checksum + length / 256;
      for i := 0 to 4
        invariant checksum == sum + length + LowSum(address, i)
      {
        checksum := checksum + Low(address, i) % 256;
      }
      ghost var r := Record(address, Area(mem, address, reclen));
      BodySum(r);
      AddressSum(address);
      checksum := 255 - checksum % 256;
      FormattedIsLine(r);
      rc := WriteRecord(Formatted(length, address, digits, checksum));
    }

    /** save_serial: it sends all the records, or stops behind the line at which it is interrupted. */
    method SaveSerial(mem: seq<byte>, address: u32, count: u32) returns (rc: int)
      requires |mem| == WORD_SIZE
      modifies this
      ensures rc == 0 <==> Quiet(old(lines))
      ensures rc == 0 ==> out == old(out) + Upload(mem, address, count)
      ensures out <= old(out) + Upload(mem, address, count)
    {
      RecordsSized(mem, address, count);
      RemainingLines(mem, address, count);
      rc := SendBetween(mem, address, count, Start(), End());
    }

    method SendBetween(mem: seq<byte>, address: u32, count: u32, first: seq<byte>, last: seq<byte>) returns (rc: int)
      requires |mem| == WORD_SIZE
      modifies this
      ensures rc == 0 <==> Quiet(old(lines))
      ensures rc == 0 ==> out == old(out) + (first + Remaining(mem, address, count) + last)
      ensures out <= old(out) + (first + Remaining(mem, address, count) + last)
    {
      ghost var rest := Remaining(mem, address, count);
      Pieces(out, first, rest, last);
      rc := WriteRecord(first);
      if rc != 0 { return -1; }
      rc := SendData(mem, address, count);
      if rc != 0 { return -1; }
      rc := WriteRecord(last);
      if rc != 0 { return -1; }
    }

    /** Its loop. */
    method SendData(mem: seq<byte>, address0: u32, count0: u32) returns (rc: int)
      requires |mem| == WORD_SIZE
      modifies this
      ensures lines >= old(lines) && (rc == 0 <==> Quiet(old(lines)))
      ensures rc == 0 ==> out == old(out) + Remaining(mem, address0, count0)
      ensures out <= old(out) + Remaining(mem, address0, count0)
    {
      var data := new byte[DATA_ROOM];
      ghost var all := old(out) + Remaining(mem, address0, count0);
      var address: u32, count: nat, reclen: nat, checksum := address0, count0, 0, 0;
      var again := true;
      while again
        invariant Ready(mem, address, count, reclen, data[..], checksum) && (!again ==> count == 0)
        invariant Done(out, mem, address, reclen + count, all)
        invariant lines >= old(lines) && Quiet(old(lines))
        decreases count, again
      {
        rc, address, count, reclen, checksum := Turn(mem, address, count, reclen, checksum, data, all);
        if rc != 0 { return -1; }
        again := count > 0;
      }
      rc := 0;
    }

    /** One turn: a byte is collected, and a full or last record is sent. */
    method Turn(mem: seq<byte>, address0: u32, count0: nat, reclen0: nat, sum: int, data: array<byte>,
                ghost all: seq<byte>)
      returns (rc: int, address: u32, count: nat, reclen: nat, checksum: int)
      requires |mem| == WORD_SIZE && data.Length == DATA_ROOM
      requires Ready(mem, address0, count0, reclen0, data[..], sum) && Done(out, mem, address0, reclen0 + count0, all)
      modifies this, data
      ensures count == (if count0 == 0 then 0 else count0 - 1) && Ready(mem, address, count, reclen, data[..], checksum)
      ensures Done(out, mem, address, reclen + count, all)
      ensures lines >= old(lines) && (rc == 0 <==> Quiet(old(lines)))
    {
      var n, total;
      count, n, total := Gather(mem, address0, count0, reclen0, sum, data);
      rc, address, reclen, checksum := Settle(mem, address0, n, count, total, data, all);
    }

    /** The end of a turn. */
    method Settle(mem: seq<byte>, address0: u32, n: nat, count: nat, sum: int, data: array<byte>, ghost all: seq<byte>)
      returns (rc: int, address: u32, reclen: nat, checksum: int)
      requires |mem| == WORD_SIZE && n <= PER_RECORD && Collected(mem, address0, n, data[..], sum)
      requires Done(out, mem, address0, n + count, all)
      modifies this
      ensures Ready(mem, address, count, reclen, data[..], checksum) && Done(out, mem, address, reclen + count, all)
      ensures lines >= old(lines) && (rc == 0 <==> Quiet(old(lines)))
    {
      rc, address, reclen, checksum := 0, address0, n, sum;
      if n == PER_RECORD || count == 0 {
        rc := Flush(mem, address, n, count, sum, data, all);
        address, checksum, reclen := Add32(address, n), 0, 0;
        NothingCollected(mem, address, data[..]);
      }
    }

    /** A byte is collected, if there is one left. */
    method Gather(mem: seq<byte>, address: u32, count0: nat, reclen0: nat, sum: int, data: array<byte>)
      returns (count: nat, reclen: nat, checksum: int)
      requires |mem| == WORD_SIZE && data.Length == DATA_ROOM && Ready(mem, address, count0, reclen0, data[..], sum)
      modifies data
      ensures count == (if count0 == 0 then 0 else count0 - 1) && reclen + count == reclen0 + count0
      ensures reclen <= PER_RECORD && Collected(mem, address, reclen, data[..], checksum)
    {
      count, reclen, checksum := count0, reclen0, sum;
      if count > 0 {
        checksum := Collect(mem, address, reclen, checksum, data);
        reclen, count := reclen + 1, count - 1;
      }
    }

    /** A full or last record is sent, unless it is empty. */
    method Flush(mem: seq<byte>, address: u32, reclen: nat, ghost count: nat, sum: int, data: array<byte>,
                 ghost all: seq<byte>)
      returns (rc: int)
      requires |mem| == WORD_SIZE && reclen <= PER_RECORD && (reclen == PER_RECORD || count == 0)
      requires Collected(mem, address, reclen, data[..], sum) && Done(out, mem, address, reclen + count, all)
      modifies this
      ensures Done(out, mem, Add32(address, reclen), count, all)
      ensures lines == old(lines) + (if reclen > 0 then 1 else 0)
      ensures rc == 0 <==> reclen == 0 || old(lines) !in breaks
    {
      rc := 0;
      if reclen > 0 {
        DoneNext(out, mem, address, reclen, count, all);
        rc := WriteData(mem, address, reclen, sum, data[..][..2 * reclen]);
      }
    }
  }

  lemma {:induction false} Pieces(out: seq<byte>, first: seq<byte>, rest: seq<byte>, last: seq<byte>)
    ensures ((out + first) + rest) + last == out + (first + rest + last)
  {
  }

  /** What has been sent and what remains make the whole. */
  ghost predicate Done(sent: seq<byte>, mem: seq<byte>, address: u32, count: nat, all: seq<byte>)
    requires |mem| == WORD_SIZE
    ensures Done(sent, mem, address, count, all) ==> sent <= all
    ensures Done(sent, mem, address, 0, all) ==> sent == all
  {
    sent + Remaining(mem, address, count) == all
  }

  lemma {:induction false} DoneNext(sent: seq<byte>, mem: seq<byte>, address: u32, n: nat, count: nat, all: seq<byte>)
    requires |mem| == WORD_SIZE && 0 < n <= PER_RECORD && (n == PER_RECORD || count == 0)
    requires Done(sent, mem, address, n + count, all)
    ensures Done(sent + Line(Record(address, Area(mem, address, n))), mem, Add32(address, n), count, all)
  {
    NextLine(mem, address, n, count, sent);
  }
}
