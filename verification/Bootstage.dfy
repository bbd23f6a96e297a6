/** Stashing the boot-stage records of bootstage.c into a memory area and reading them back. */
module Bootstage {
  import opened Machine
  import opened Numerals

  const ID_USER: nat := 171           // BOOTSTAGE_ID_USER
  const VERSION: u32 := 0
  const MAGIC: u32 := 0xb00757a3
  const HEADER_SIZE: nat := 16
  const RECORD_SIZE: nat := 20

  /** struct bootstage_record; `ptr` is the name pointer and `name` the string it points to. */
  datatype Record = Record(time: u32, start: u32, ptr: u32, name: seq<byte>, flags: u32, id: u32)

  // ---- Names -------------------------------------------------------------------------

  /** get_record_name: the name, or "user_<n>", or "id=<n>". */
  function PrintName(r: Record): seq<byte> {
    if r.ptr != 0 then r.name
    else if r.id >= ID_USER then [117, 115, 101, 114, 95] + SignedDigits(r.id - ID_USER)
    else [105, 100, 61] + SignedDigits(r.id)
  }

  /** A record as the boot code makes it: a name pointer leads to a C string. */
  predicate Proper(r: Record) {
    r.ptr != 0 ==> 0 !in r.name
  }

  /** Printed names are C strings, and a made-up one fits the 20-byte buffer with its NUL. */
  lemma {:induction false} PrintNameFits(r: Record)
    requires Proper(r)
    ensures 0 !in PrintName(r) && (r.ptr == 0 ==> |PrintName(r)| + 1 <= 20)
  {
    SignedFits(if r.id >= ID_USER then r.id - ID_USER else r.id);
  }

  /** A record without a name shows its number: "user_" and its place among the user's records, which start
      at number 171, or "id=" and the number itself. The places are signed. */
  lemma {:induction false} PrintNameShows(r: Record)
    requires r.ptr == 0
    ensures var user := r.id >= 171;
            var v, k := (if user then r.id - 171 else r.id), if user then 5 else 3;
            && |PrintName(r)| >= k && PrintName(r)[..k] == Chars(if user then "user_" else "id=")
            && (v < 0x8000_0000 ==> Strtoul(PrintName(r)[k..], 10) == Num(v, []))
            && (v >= 0x8000_0000 ==>
                  && |PrintName(r)| > k && PrintName(r)[k] == '-' as int
                  && Strtoul(PrintName(r)[k..][1..], 10) == Num(0x1_0000_0000 - v, []))
  {
    var v := if r.id >= 171 then r.id - 171 else r.id;
    SignedReads(v);
    var prefix := Chars(if r.id >= 171 then "user_" else "id=");
    assert PrintName(r) == prefix + SignedDigits(v);
  }

  function Chars(s: string): (b: seq<byte>)
    requires forall i :: 0 <= i < |s| ==> s[i] as int < 128
    ensures |b| == |s|
  {
    seq(|s|, i requires 0 <= i < |s| => s[i] as int)
  }

  // ---- The stashed image -------------------------------------------------------------

  /** The `n` low bytes of a number, least significant first. */
  function Digits(w: nat, n: nat): (b: seq<byte>)
    ensures |b| == n
    decreases n
  {
    if n == 0 then [] else [w % 256] + Digits(w / 256, n - 1)
  }

  function Number(b: seq<byte>): nat {
    if b == [] then 0 else b[0] + 256 * Number(b[1..])
  }

  /** A 32-bit field in memory. */
  function Word(w: u32): (b: seq<byte>)
    ensures |b| == 4
  {
    Digits(w, WORD_BYTES)
  }

  const WORD_BYTES: nat := 4

  lemma {:induction false} DigitsRoundTrip(w: nat, n: nat)
    requires w < Pow256(n)
    ensures Number(Digits(w, n)) == w
    decreases n
  {
    if n > 0 {
      DigitsRoundTrip(w / 256, n - 1);
      assert Digits(w, n)[1..] == Digits(w / 256, n - 1);
    }
  }

  function Pow256(n: nat): nat {
    if n == 0 then 1 else 256 * Pow256(n - 1)
  }

  lemma {:induction false} NumberBound(b: seq<byte>)
    ensures Number(b) < Pow256(|b|)
    ensures |b| == 4 ==> Number(b) < 0x1_0000_0000
  {
    if b != [] { NumberBound(b[1..]); }
    assert Pow256(4) == 0x1_0000_0000;
  }

  lemma {:induction false} WordRoundTrip(w: u32)
    ensures Number(Word(w)) == w
  {
    assert Pow256(4) == 0x1_0000_0000;
    DigitsRoundTrip(w, 4);
  }

  /** struct bootstage_hdr in memory. */
  function Header(count: u32, size: u32): (b: seq<byte>)
    ensures |b| == HEADER_SIZE
  {
    Word(VERSION) + Word(count) + Word(size) + Word(MAGIC)
  }

  function RecordBytes(r: Record): (b: seq<byte>)
    ensures |b| == RECORD_SIZE
  {
    Word(r.time) + Word(r.start) + Word(r.ptr) + Word(r.flags) + Word(r.id)
  }

  function NameBytes(r: Record): seq<byte> {
    PrintName(r) + [0]
  }

  /** The two things that are written for a record. */
  datatype Part = Fields | Name

  function Piece(part: Part, r: Record): seq<byte> {
    if part == Fields then RecordBytes(r) else NameBytes(r)
  }

  /** What one loop over the first `k` table entries appends: a piece for every record that has been
      filled in. */
  function Chunks(part: Part, table: seq<Record>, k: nat): seq<seq<byte>>
    requires k <= |table|
  {
    if k == 0 then []
    else if table[k - 1].time != 0 then Chunks(part, table, k - 1) + [Piece(part, table[k - 1])]
    else Chunks(part, table, k - 1)
  }

  /** The records among them, in table order. */
  function Live(table: seq<Record>, k: nat): (rs: seq<Record>)
    requires k <= |table|
    ensures |rs| <= k
  {
    if k == 0 then []
    else if table[k - 1].time != 0 then Live(table, k - 1) + [table[k - 1]]
    else Live(table, k - 1)
  }

  /** The first `k` byte strings, one after the other. */
  function Joined(cs: seq<seq<byte>>, k: nat): seq<byte>
    requires k <= |cs|
  {
    if k == 0 then [] else Joined(cs, k - 1) + cs[k - 1]
  }

  function Written(part: Part, table: seq<Record>, k: nat): seq<byte>
    requires k <= |table|
  {
    Joined(Chunks(part, table, k), |Chunks(part, table, k)|)
  }

  lemma {:induction false} JoinedStable(cs: seq<seq<byte>>, c: seq<byte>, k: nat)
    requires k <= |cs|
    ensures Joined(cs + [c], k) == Joined(cs, k)
  {
    if k > 0 { JoinedStable(cs, c, k - 1); }
  }

  lemma {:induction false} WrittenNext(part: Part, table: seq<Record>, id: nat)
    requires id < |table|
    ensures Written(part, table, id + 1)
         == Written(part, table, id) + (if table[id].time != 0 then Piece(part, table[id]) else [])
  {
    var cs := Chunks(part, table, id);
    JoinedStable(cs, Piece(part, table[id]), |cs|);
  }

  /** One chunk for each live record. */
  lemma {:induction false} ChunkOf(part: Part, table: seq<Record>, k: nat)
    requires k <= |table|
    ensures |Chunks(part, table, k)| == |Live(table, k)|
    ensures forall i :: 0 <= i < |Live(table, k)| ==> Chunks(part, table, k)[i] == Piece(part, Live(table, k)[i])
  {
    if k > 0 { ChunkOf(part, table, k - 1); }
  }

  function AllLive(table: seq<Record>): seq<Record> { Live(table, |table|) }

  function AllWritten(part: Part, table: seq<Record>): seq<byte> { Written(part, table, |table|) }

  /** Header, records and names together. */
  function Total(table: seq<Record>): nat {
    HEADER_SIZE + |AllWritten(Fields, table)| + |AllWritten(Name, table)|
  }

  /** The stashed image of a table. */
  function Image(table: seq<Record>): seq<byte>
    requires |AllLive(table)| < 0x1_0000_0000 && Total(table) < 0x1_0000_0000
  {
    Header(|AllLive(table)|, Total(table)) + (AllWritten(Fields, table) + AllWritten(Name, table))
  }

  lemma {:induction false} Appended(before: seq<byte>, after: seq<byte>, start: nat, ptr: nat, data: seq<byte>)
    requires start <= ptr && ptr + |data| <= |before| == |after|
    requires after[..ptr] == before[..ptr] && after[ptr..ptr + |data|] == data
    ensures after[start..ptr + |data|] == before[start..ptr] + data
  {
    assert after[start..ptr] == after[..ptr][start..] && before[start..ptr] == before[..ptr][start..];
  }

  /** From `start` on the memory has been filled with `done` up to `ptr`, if there is room. */
  ghost predicate WrittenTo(done: seq<byte>, b: seq<byte>, start: nat, ptr: nat, end: nat) {
    ptr == start + |done| && (ptr <= end ==> end <= |b| && b[start..ptr] == done)
  }

  /** Nothing has changed before `lo` or from `hi` on. */
  ghost predicate KeptOutside(before: seq<byte>, after: seq<byte>, lo: nat, hi: nat) {
    && hi <= |before| == |after|
    && after[..Min(lo, hi)] == before[..Min(lo, hi)] && after[hi..] == before[hi..]
  }

  lemma {:induction false} KeptOn(a: seq<byte>, b: seq<byte>, c: seq<byte>, lo: nat, hi: nat)
    requires KeptOutside(a, b, lo, hi) && (c == b || KeptOutside(b, c, lo, hi))
    ensures KeptOutside(a, c, lo, hi)
  {
  }

  lemma {:induction false} AppendedInside(before: seq<byte>, after: seq<byte>, lo: nat, ptr: nat, next: nat, hi: nat)
    requires lo <= ptr <= next <= hi <= |before| == |after|
    requires after[..ptr] == before[..ptr] && after[next..] == before[next..]
    ensures KeptOutside(before, after, lo, hi)
  {
    assert after[..lo] == after[..ptr][..lo] && before[..lo] == before[..ptr][..lo];
    assert after[hi..] == after[next..][hi - next..] && before[hi..] == before[next..][hi - next..];
  }

  /** Four bytes in a header are replaced, and what follows it stays. */
  lemma {:induction false} Patched(before: seq<byte>, after: seq<byte>, ptr: nat, end: nat, w: seq<byte>, h: seq<byte>,
                                   body: seq<byte>)
    requires HEADER_SIZE <= ptr <= end <= |before| == |after| && |w| == 4 && |h| == HEADER_SIZE
    requires before[..HEADER_SIZE] == h && before[HEADER_SIZE..ptr] == body
    requires after[..8] == before[..8] && after[8..12] == w && after[12..] == before[12..]
    ensures after[..ptr] == h[..8] + w + h[12..] + body && after[end..] == before[end..]
  {
    assert after[..ptr] == after[..8] + after[8..12] + after[12..][..ptr - 12];
    assert before[12..][..ptr - 12] == h[12..] + body && before[..8] == h[..8];
    assert after[end..] == after[12..][end - 12..] && before[end..] == before[12..][end - 12..];
  }

  class Bootstage {
    const record: array<Record>
    var nextId: nat

    ghost predicate Valid()
      reads this, record
    {
      && record.Length < 0x1000_0000
      && forall i :: 0 <= i < record.Length ==> Proper(record[i])
    }

    constructor (record: array<Record>, nextId: nat)
      ensures this.record == record && this.nextId == nextId
    {
      this.record, this.nextId := record, nextId;
    }

    /** append_data: the pointer always advances; the bytes are written only if they fit. */
    method AppendData(buffer: array<byte>, ptr: nat, end: nat, data: seq<byte>) returns (ptr': nat)
      requires end <= buffer.Length
      modifies buffer
      ensures ptr' == ptr + |data|
      ensures if ptr' > end then buffer[..] == old(buffer[..])
              else && buffer[..ptr] == old(buffer[..ptr]) && buffer[ptr..ptr'] == data
                   && buffer[ptr'..] == old(buffer[ptr'..])
    {
      ptr' := ptr + |data|;
      if ptr' > end { return; }
      for k := 0 to |data|
        invariant forall i :: 0 <= i < buffer.Length ==>
          buffer[i] == (if ptr <= i < ptr + k then data[i - ptr] else old(buffer[i]))
      {
        buffer[ptr + k] := data[k];
      }
    }

    /** One of the two loops over the table, which append the records and the name strings. */
    method WriteAll(part: Part, buffer: array<byte>, ptr0: nat, end: nat) returns (ptr: nat)
      requires end <= buffer.Length
      modifies buffer
      ensures WrittenTo(AllWritten(part, record[..]), buffer[..], ptr0, ptr, end)
      ensures KeptOutside(old(buffer[..]), buffer[..], ptr0, end)
    {
      ghost var table := record[..];
      ptr := ptr0;
      var id := 0;
      while id < record.Length
        invariant 0 <= id <= record.Length && table == record[..]
        invariant WrittenTo(Written(part, table, id), buffer[..], ptr0, ptr, end)
        invariant KeptOutside(old(buffer[..]), buffer[..], ptr0, end)
      {
        WrittenNext(part, table, id);
        ghost var before := buffer[..];
        if record[id].time != 0 {
          ptr := WriteOne(buffer, ptr0, ptr, end, Piece(part, record[id]), Written(part, table, id));
          KeptOn(old(buffer[..]), before, buffer[..], ptr0, end);
        }
        id := id + 1;
      }
    }

    method WriteOne(buffer: array<byte>, ghost ptr0: nat, ptr: nat, end: nat, data: seq<byte>, ghost done: seq<byte>)
      returns (next: nat)
      requires end <= buffer.Length && WrittenTo(done, buffer[..], ptr0, ptr, end)
      modifies buffer
      ensures WrittenTo(done + data, buffer[..], ptr0, next, end)
      ensures KeptOutside(old(buffer[..]), buffer[..], ptr0, end)
    {
      ghost var before := buffer[..];
      next := AppendData(buffer, ptr, end, data);
      if next <= end {
        AppendedInside(before, buffer[..], ptr0, ptr, next, end);
        Appended(before, buffer[..], ptr0, ptr, data);
      }
    }

    /** The records that have been filled in are counted for the header. */
    method CountRecords() returns (count: nat)
      ensures count == |AllLive(record[..])|
    {
      ghost var table := record[..];
      count := 0;
      var id := 0;
      while id < record.Length
        invariant 0 <= id <= record.Length && count == |Live(table, id)|
      {
        if record[id].time != 0 { count := count + 1; }
        id := id + 1;
      }
    }

    /** bootstage_stash. It succeeds exactly when header, records and names fit, and then the area
        holds them; it never touches anything at or beyond `size`; and a failure after the header was
        written leaves a header that says size 0. */
    method Stash(buffer: array<byte>, size: int) returns (rcode: int)
      requires Valid() && size <= buffer.Length && size < 0x8000_0000
      modifies buffer
      ensures Valid() && |AllLive(record[..])| < 0x1000_0000
      ensures rcode == 0 <==> Total(record[..]) <= size
      ensures rcode == 0 ==> buffer[..Total(record[..])] == Image(record[..])
      ensures rcode != 0 && size >= HEADER_SIZE ==> buffer[..HEADER_SIZE] == Header(|AllLive(record[..])|, 0)
      ensures size >= 0 ==> buffer[size..] == old(buffer[size..])
      ensures size < HEADER_SIZE ==> buffer[..] == old(buffer[..])
    {
      if HEADER_SIZE > size { return -1; }
      var end: nat := size;
      var count := CountRecords();
      var ptr := AppendData(buffer, 0, end, Header(count, 0));
      assert buffer[end..] == buffer[ptr..][end - ptr..] && old(buffer[end..]) == old(buffer[ptr..])[end - ptr..];
      assert buffer[..HEADER_SIZE] == Header(count, 0);
      ptr := WriteBody(buffer, end);
      if ptr > end { return -1; }
      FinishHeader(buffer, ptr, end, count, AllWritten(Fields, record[..]) + AllWritten(Name, record[..]));
      rcode := 0;
    }

    /** Both loops, after the header. */
    method WriteBody(buffer: array<byte>, end: nat) returns (ptr: nat)
      requires Valid() && HEADER_SIZE <= end <= buffer.Length
      modifies buffer
      ensures Valid() && ptr == Total(record[..])
      ensures buffer[..HEADER_SIZE] == old(buffer[..HEADER_SIZE]) && buffer[end..] == old(buffer[end..])
      ensures ptr <= end ==> buffer[HEADER_SIZE..ptr] == AllWritten(Fields, record[..]) + AllWritten(Name, record[..])
    {
      var fields := WriteAll(Fields, buffer, HEADER_SIZE, end);
      ghost var before := buffer[..];
      ptr := WriteAll(Name, buffer, fields, end);
      assert buffer[..HEADER_SIZE] == buffer[..][..Min(fields, end)][..HEADER_SIZE];
      assert before[..HEADER_SIZE] == before[..Min(fields, end)][..HEADER_SIZE];
      if ptr <= end { Appended(before, buffer[..], HEADER_SIZE, fields, AllWritten(Name, record[..])); }
    }

    /** hdr->size = ptr - base. */
    method FinishHeader(buffer: array<byte>, ptr: nat, end: nat, count: u32, ghost body: seq<byte>)
      requires HEADER_SIZE <= ptr <= end <= buffer.Length && ptr < 0x8000_0000
      requires buffer[..HEADER_SIZE] == Header(count, 0) && buffer[HEADER_SIZE..ptr] == body
      modifies buffer
      ensures buffer[..ptr] == Header(count, ptr) + body && buffer[end..] == old(buffer[end..])
    {
      var p := AppendData(buffer, 8, end, Word(ptr));
      HeaderSize(count, ptr);
      Patched(old(buffer[..]), buffer[..], ptr, end, Word(ptr), Header(count, 0), body);
    }

    /** bootstage_unstash. It accepts exactly what is Acceptable; then the stashed records stand in the
        next free entries, in order, with their names, and nothing else has changed. */
    method Unstash(buffer: array<byte>, address: nat, size: int) returns (rcode: int)
      requires nextId < 0x8000_0000 && record.Length < 0x1000_0000
      requires size <= buffer.Length < 0x1_0000_0000
      requires Acceptable(buffer[..], Limit(buffer.Length, size), nextId, record.Length) ==> Intact(buffer[..])
      modifies this`nextId, record
      ensures rcode == 0 <==> Acceptable(buffer[..], Limit(buffer.Length, size), old(nextId), record.Length)
      ensures rcode != 0 ==> nextId == old(nextId) && record[..] == old(record[..])
      ensures rcode == 0 ==>
        && Intact(buffer[..]) && nextId == old(nextId) + WordAt(buffer[..], 4) <= record.Length
        && Filled(old(record[..]), record[..], old(nextId), nextId)
        && Rows(record[..], old(nextId), buffer[..], address, WordAt(buffer[..], 4), WordAt(buffer[..], 4))
    {
      var b := buffer[..];
      var welcome := Check(b, Limit(buffer.Length, size));
      if !welcome { return -1; }
      var count := WordAt(b, 4);
      assert Intact(b) && Wrap(nextId + count) == nextId + count;
      ReadRecords(b, address, count);
      ReadNames(b, address, count);
      nextId := nextId + count;
      rcode := 0;
    }

    /** The tests of the header, in their order. */
    method Check(b: seq<byte>, limit: int) returns (welcome: bool)
      requires limit <= |b|
      ensures welcome <==> Acceptable(b, limit, nextId, record.Length)
    {
      if HEADER_SIZE > limit { return false; }
      if WordAt(b, 12) != MAGIC { return false; }
      if WordAt(b, 8) > limit { return false; }
      if Wrap(WordAt(b, 4) * RECORD_SIZE) > WordAt(b, 8) { return false; }
      if WordAt(b, 0) != VERSION { return false; }
      if Wrap(nextId + WordAt(b, 4)) > record.Length { return false; }
      welcome := true;
    }

    /** The memcpy of the records; the name pointers that come with them are dead. */
    method ReadRecords(b: seq<byte>, ghost address: nat, count: nat)
      requires nextId + count <= record.Length && NamesEnd(b, count)
      modifies record
      ensures Filled(old(record[..]), record[..], nextId, nextId + count)
      ensures Rows(record[..], nextId, b, address, count, 0)
    {
      for i := 0 to count
        invariant Filled(old(record[..]), record[..], nextId, nextId + count)
        invariant Copied(record[..], nextId, b, count, i)
      {
        CopiedOn(record[..], nextId, b, count, i);
        FilledOn(old(record[..]), record[..], nextId, nextId + count, nextId + i, FieldsOf(b, i));
        record[nextId + i] := FieldsOf(b, i);
      }
    }

    method PutName(b: seq<byte>, address: nat, ghost count: nat, i: nat, ptr: nat, ghost before: seq<Record>)
      returns (next: nat)
      requires i < count && nextId + count <= record.Length && NamesEnd(b, count)
      requires Named(before, record[..], nextId, b, address, count, i, ptr)
      modifies record
      ensures Named(before, record[..], nextId, b, address, count, i + 1, next)
    {
      NamedOn(before, record[..], nextId, b, address, count, i, ptr);
      ghost var after := Pointed(record[..], nextId + i, address, ptr, StringAt(b, ptr));
      record[nextId + i] := record[nextId + i].(ptr := Wrap(address + ptr), name := StringAt(b, ptr));
      next := ptr + |StringAt(b, ptr)| + 1;
      assert record[..] == after;
    }

    /** The loop that points each record to its name string. */
    method ReadNames(b: seq<byte>, address: nat, count: nat)
      requires nextId + count <= record.Length && NamesEnd(b, count)
      requires Rows(record[..], nextId, b, address, count, 0)
      modifies record
      ensures Filled(old(record[..]), record[..], nextId, nextId + count)
      ensures Rows(record[..], nextId, b, address, count, count)
    {
      var ptr: nat := HEADER_SIZE + RECORD_SIZE * count;
      for i := 0 to count
        invariant Named(old(record[..]), record[..], nextId, b, address, count, i, ptr)
      {
        ptr := PutName(b, address, count, i, ptr, old(record[..]));
      }
    }
  }

  // ---- Reading a stash back ----------------------------------------------------------

  function WordAt(b: seq<byte>, at: nat): u32
    requires at + 4 <= |b|
  {
    NumberBound(b[at..at + 4]);
    Number(b[at..at + 4])
  }

  /** The fields of the i-th stashed record. The name pointer that was copied is dead. */
  function ReadFields(b: seq<byte>, at: nat): Record
    requires at + RECORD_SIZE <= |b|
  {
    Record(WordAt(b, at), WordAt(b, at + 4), WordAt(b, at + 8), [], WordAt(b, at + 12), WordAt(b, at + 16))
  }

  /** The C string at an address, as far as the memory goes. */
  function StringAt(b: seq<byte>, at: nat): (s: seq<byte>)
    requires at <= |b|
    ensures at + |s| <= |b|
    decreases |b| - at
  {
    if at == |b| || b[at] == 0 then [] else [b[at]] + StringAt(b, at + 1)
  }

  /** Where the i-th name string starts, if all before it are terminated. */
  function NameAt(b: seq<byte>, at: nat, i: nat): nat {
    if i == 0 then at
    else var p := NameAt(b, at, i - 1); if p <= |b| then p + |StringAt(b, p)| + 1 else p
  }

  /** What bootstage_unstash asks of a header, for an area of `limit` bytes; its sums and products are
      32 bits wide. */
  predicate Welcome(version: u32, count: u32, size: u32, magic: u32, limit: int, nextId: nat, idCount: nat) {
    && magic == MAGIC && size <= limit && Wrap(count * RECORD_SIZE) <= size
    && version == VERSION && Wrap(nextId + count) <= idCount
  }

  predicate Acceptable(b: seq<byte>, limit: int, nextId: nat, idCount: nat) {
    && HEADER_SIZE <= limit <= |b|
    && Welcome(WordAt(b, 0), WordAt(b, 4), WordAt(b, 8), WordAt(b, 12), limit, nextId, idCount)
  }

  lemma {:induction false} WelcomeIff(count: u32, size: u32, limit: int, nextId: nat, idCount: nat)
    requires nextId < 0x8000_0000 && idCount < 0x8000_0000 && count < 0x1000_0000
    ensures size == 0 && count > 0 ==> !Welcome(VERSION, count, size, MAGIC, limit, nextId, idCount)
    ensures RECORD_SIZE * count <= size <= limit ==>
              (Welcome(VERSION, count, size, MAGIC, limit, nextId, idCount) <==> nextId + count <= idCount)
  {
  }

  /** The source assumes no corruption: the records and the terminated names are inside the area. */
  predicate Intact(b: seq<byte>) {
    && HEADER_SIZE <= |b|
    && NamesEnd(b, WordAt(b, 4))
  }

  predicate NamesEnd(b: seq<byte>, n: nat) {
    HEADER_SIZE + RECORD_SIZE * n <= |b| && NameAt(b, HEADER_SIZE + RECORD_SIZE * n, n) <= |b|
  }

  /** How much memory may be read: a size of -1 stands for no limit. */
  function Limit(memory: nat, size: int): int {
    if size == -1 then memory else size
  }

  /** Only the entries from `lo` up to `hi` may differ. */
  ghost predicate Filled<T>(before: seq<T>, after: seq<T>, lo: nat, hi: nat) {
    |before| == |after| && forall k :: 0 <= k < |before| && !(lo <= k < hi) ==> after[k] == before[k]
  }

  /** No name starts past the end if the last one does not. */
  lemma {:induction false} NamesInside(b: seq<byte>, at: nat, i: nat, n: nat)
    requires i <= n && NameAt(b, at, n) <= |b|
    ensures NameAt(b, at, i) <= NameAt(b, at, n)
  {
    if i < n { NamesInside(b, at, i, n - 1); }
  }

  function FieldsOf(b: seq<byte>, i: nat): Record
    requires HEADER_SIZE + RECORD_SIZE * (i + 1) <= |b|
  {
    ReadFields(b, HEADER_SIZE + RECORD_SIZE * i)
  }

  /** The i-th record as it is put into the table: its name is the string in the stash. */
  function Restored(b: seq<byte>, address: nat, n: nat, i: nat): Record
    requires i < n && NamesEnd(b, n)
  {
    NamesInside(b, HEADER_SIZE + RECORD_SIZE * n, i, n);
    var p := NameAt(b, HEADER_SIZE + RECORD_SIZE * n, i);
    FieldsOf(b, i).(ptr := Wrap(address + p), name := StringAt(b, p))
  }

  /** The entries from `base` on, when the first `i` of `n` records have been given their names. */
  function Row(b: seq<byte>, address: nat, n: nat, i: nat, k: int): Record
    requires NamesEnd(b, n) && 0 <= k < n
  {
    if k < i then Restored(b, address, n, k) else FieldsOf(b, k)
  }

  predicate Rows(table: seq<Record>, base: nat, b: seq<byte>, address: nat, n: nat, i: nat)
    requires NamesEnd(b, n)
  {
    base + n <= |table| && forall k :: base <= k < base + n ==> table[k] == Row(b, address, n, i, k - base)
  }

  /** One entry is given a name. */
  function Pointed(table: seq<Record>, k: nat, address: nat, p: nat, name: seq<byte>): seq<Record>
    requires k < |table|
  {
    table[k := table[k].(ptr := Wrap(address + p), name := name)]
  }

  /** One turn of the loop that points the records to their names. */
  lemma {:induction false} NextRow(table: seq<Record>, base: nat, b: seq<byte>, address: nat, n: nat, i: nat, p: nat)
    requires NamesEnd(b, n) && i < n && Rows(table, base, b, address, n, i)
    requires p == NameAt(b, HEADER_SIZE + RECORD_SIZE * n, i)
    ensures p <= |b| && p + |StringAt(b, p)| + 1 == NameAt(b, HEADER_SIZE + RECORD_SIZE * n, i + 1)
    ensures var after := Pointed(table, base + i, address, p, StringAt(b, p));
            Rows(after, base, b, address, n, i + 1) && Filled(table, after, base, base + n)
  {
    NamesInside(b, HEADER_SIZE + RECORD_SIZE * n, i, n);
    RestoredPoints(b, address, n, i, p);
    Replaced(table, base, b, address, n, i);
  }

  lemma {:induction false} RestoredPoints(b: seq<byte>, address: nat, n: nat, i: nat, p: nat)
    requires NamesEnd(b, n) && i < n && p == NameAt(b, HEADER_SIZE + RECORD_SIZE * n, i) <= |b|
    ensures Restored(b, address, n, i) == Row(b, address, n, i, i).(ptr := Wrap(address + p), name := StringAt(b, p))
  {
  }

  lemma {:induction false} Replaced(table: seq<Record>, base: nat, b: seq<byte>, address: nat, n: nat, i: nat)
    requires NamesEnd(b, n) && i < n && Rows(table, base, b, address, n, i)
    ensures var after := table[base + i := Restored(b, address, n, i)];
            Rows(after, base, b, address, n, i + 1) && Filled(table, after, base, base + n)
  {
    var after := table[base + i := Restored(b, address, n, i)];
    forall k | base <= k < base + n ensures after[k] == Row(b, address, n, i + 1, k - base) {
      assert table[k] == Row(b, address, n, i, k - base);
    }
  }

  /** The first `i` of `n` records have been copied. */
  predicate Copied(table: seq<Record>, base: nat, b: seq<byte>, n: nat, i: nat)
    requires HEADER_SIZE + RECORD_SIZE * n <= |b| && i <= n
  {
    base + n <= |table| && forall k :: base <= k < base + i ==> table[k] == FieldsOf(b, k - base)
  }

  lemma {:induction false} CopiedOn(table: seq<Record>, base: nat, b: seq<byte>, n: nat, i: nat)
    requires HEADER_SIZE + RECORD_SIZE * n <= |b| && i < n && Copied(table, base, b, n, i)
    ensures Copied(table[base + i := FieldsOf(b, i)], base, b, n, i + 1)
  {
  }

  lemma {:induction false} FilledOn<T>(before: seq<T>, after: seq<T>, lo: nat, hi: nat, k: nat, x: T)
    requires Filled(before, after, lo, hi) && lo <= k < hi <= |after|
    ensures Filled(before, after[k := x], lo, hi)
  {
  }

  lemma {:induction false} FilledTwice<T>(before: seq<T>, middle: seq<T>, after: seq<T>, lo: nat, hi: nat)
    requires Filled(before, middle, lo, hi) && Filled(middle, after, lo, hi)
    ensures Filled(before, after, lo, hi)
  {
  }

  /** The first `i` records have been given their names, and `p` is where the next name stands. */
  ghost predicate Named(before: seq<Record>, table: seq<Record>, base: nat, b: seq<byte>, address: nat, n: nat, i: nat,
                        p: nat)
    requires NamesEnd(b, n)
  {
    && Filled(before, table, base, base + n) && Rows(table, base, b, address, n, i)
    && p == NameAt(b, HEADER_SIZE + RECORD_SIZE * n, i)
  }

  lemma {:induction false} NamedOn(before: seq<Record>, table: seq<Record>, base: nat, b: seq<byte>, address: nat,
                                   n: nat, i: nat, p: nat)
    requires NamesEnd(b, n) && i < n && Named(before, table, base, b, address, n, i, p)
    ensures p <= |b|
    ensures Named(before, Pointed(table, base + i, address, p, StringAt(b, p)), base, b, address, n, i + 1,
                  p + |StringAt(b, p)| + 1)
  {
    NextRow(table, base, b, address, n, i, p);
    FilledTwice(before, table, Pointed(table, base + i, address, p, StringAt(b, p)), base, base + n);
  }

  // ---- What a stash restores ---------------------------------------------------------

  lemma {:induction false} JoinedPrefix(cs: seq<seq<byte>>, i: nat, k: nat)
    requires i <= k <= |cs|
    ensures Joined(cs, i) <= Joined(cs, k)
  {
    if i < k { JoinedPrefix(cs, i, k - 1); }
  }

  lemma {:induction false} SubSlice(b: seq<byte>, at: nat, n: nat, k: nat, m: nat)
    requires at + n <= |b| && k + m <= n
    ensures b[at..at + n][k..k + m] == b[at + k..at + k + m]
  {
    var s, t := b[at..at + n][k..k + m], b[at + k..at + k + m];
    assert |s| == |t| && forall i :: 0 <= i < m ==> s[i] == t[i];
  }

  /** The strings stand one after the other at `at` in memory. */
  ghost predicate InMemory(b: seq<byte>, at: nat, cs: seq<seq<byte>>) {
    at + |Joined(cs, |cs|)| <= |b| && b[at..at + |Joined(cs, |cs|)|] == Joined(cs, |cs|)
  }

  ghost predicate StandsAt(b: seq<byte>, at: nat, s: seq<byte>) {
    at + |s| <= |b| && b[at..at + |s|] == s
  }

  /** Each of them stands where the ones before it end. */
  lemma {:induction false} StringInMemory(b: seq<byte>, at: nat, cs: seq<seq<byte>>, i: nat)
    requires InMemory(b, at, cs) && i < |cs|
    ensures var p := at + |Joined(cs, i)|;
            p + |cs[i]| == at + |Joined(cs, i + 1)| && StandsAt(b, p, cs[i])
  {
    var all, before, c := Joined(cs, |cs|), Joined(cs, i), cs[i];
    JoinedPrefix(cs, i + 1, |cs|);
    assert before + c <= all;
    SubSlice(b, at, |all|, |before|, |c|);
    assert all[|before|..|before| + |c|] == (before + c)[|before|..];
  }

  lemma {:induction false} EqualSizes(cs: seq<seq<byte>>, size: nat, i: nat)
    requires i <= |cs| && forall j :: 0 <= j < |cs| ==> |cs[j]| == size
    ensures |Joined(cs, i)| == size * i
  {
    if i > 0 { EqualSizes(cs, size, i - 1); }
  }

  /** Reading a field inverts writing it. */
  lemma {:induction false} WordHere(b: seq<byte>, at: nat, n: nat, k: nat, w: u32)
    requires k + 4 <= n && at + n <= |b| && b[at..at + n][k..k + 4] == Word(w)
    ensures WordAt(b, at + k) == w
  {
    SubSlice(b, at, n, k, 4);
    WordRoundTrip(w);
  }

  /** Reading fields inverts writing them. */
  lemma {:induction false} FieldsRoundTrip(b: seq<byte>, at: nat, r: Record)
    requires at + RECORD_SIZE <= |b| && b[at..at + RECORD_SIZE] == RecordBytes(r)
    ensures ReadFields(b, at) == r.(name := [])
  {
    FiveWords(Word(r.time), Word(r.start), Word(r.ptr), Word(r.flags), Word(r.id));
    WordHere(b, at, 20, 0, r.time);
    WordHere(b, at, 20, 4, r.start);
    WordHere(b, at, 20, 8, r.ptr);
    WordHere(b, at, 20, 12, r.flags);
    WordHere(b, at, 20, 16, r.id);
  }

  lemma {:induction false} FiveWords(w0: seq<byte>, w1: seq<byte>, w2: seq<byte>, w3: seq<byte>, w4: seq<byte>)
    requires |w0| == |w1| == |w2| == |w3| == |w4| == 4
    ensures var s := w0 + w1 + w2 + w3 + w4;
            s[0..4] == w0 && s[4..8] == w1 && s[8..12] == w2 && s[12..16] == w3 && s[16..20] == w4
  {
  }

  lemma {:induction false} HeaderRoundTrip(b: seq<byte>, count: u32, size: u32)
    requires HEADER_SIZE <= |b| && b[..HEADER_SIZE] == Header(count, size)
    ensures WordAt(b, 0) == 0 && WordAt(b, 4) == count && WordAt(b, 8) == size && WordAt(b, 12) == 0xb00757a3
  {
    assert b[0..16] == b[..HEADER_SIZE];
    FourWords(Word(VERSION), Word(count), Word(size), Word(MAGIC));
    WordHere(b, 0, 16, 0, VERSION);
    WordHere(b, 0, 16, 4, count);
    WordHere(b, 0, 16, 8, size);
    WordHere(b, 0, 16, 12, MAGIC);
  }

  lemma {:induction false} FourWords(w0: seq<byte>, w1: seq<byte>, w2: seq<byte>, w3: seq<byte>)
    requires |w0| == |w1| == |w2| == |w3| == 4
    ensures var s := w0 + w1 + w2 + w3; s[0..4] == w0 && s[4..8] == w1 && s[8..12] == w2 && s[12..16] == w3
  {
  }

  lemma {:induction false} StringFound(b: seq<byte>, at: nat, name: seq<byte>)
    requires at + |name| + 1 <= |b| && b[at..at + |name| + 1] == name + [0] && 0 !in name
    ensures StringAt(b, at) == name
    decreases |name|
  {
    var s := b[at..at + |name| + 1];
    assert b[at] == s[0];
    if name != [] {
      assert name[0] in name && s[0] == name[0];
      assert b[at + 1..at + 1 + |name[1..]| + 1] == s[1..] == name[1..] + [0];
      StringFound(b, at + 1, name[1..]);
    }
  }

  /** The strings are these names, each with its NUL. */
  ghost predicate Terminated(cs: seq<seq<byte>>, names: seq<seq<byte>>) {
    |names| == |cs| && forall j :: 0 <= j < |cs| ==> TerminatedBy(cs[j], names[j])
  }

  ghost predicate TerminatedBy(c: seq<byte>, name: seq<byte>) {
    0 !in name && c == name + [0]
  }

  lemma {:induction false} TerminatedFound(b: seq<byte>, p: nat, c: seq<byte>, name: seq<byte>)
    requires TerminatedBy(c, name) && StandsAt(b, p, c)
    ensures |c| == |name| + 1 && NameStands(b, p, name)
  {
    StringFound(b, p, name);
  }

  lemma {:induction false} EachFound(b: seq<byte>, p: nat, names: seq<seq<byte>>, cs: seq<seq<byte>>, i: nat)
    requires Terminated(cs, names) && i < |cs| && StandsAt(b, p, cs[i])
    ensures |cs[i]| == |names[i]| + 1 && NameStands(b, p, names[i])
  {
    TerminatedFound(b, p, cs[i], names[i]);
  }

  lemma {:induction false} NameHere(b: seq<byte>, at: nat, names: seq<seq<byte>>, cs: seq<seq<byte>>, i: nat)
    requires Terminated(cs, names) && InMemory(b, at, cs) && i < |cs|
    ensures at + |Joined(cs, i)| + |names[i]| + 1 == at + |Joined(cs, i + 1)|
    ensures NameStands(b, at + |Joined(cs, i)|, names[i])
  {
    var p := at + |Joined(cs, i)|;
    assert StandsAt(b, p, cs[i]) by { StringInMemory(b, at, cs, i); }
    EachFound(b, p, names, cs, i);
  }

  ghost predicate NameStands(b: seq<byte>, p: nat, name: seq<byte>) {
    p + |name| + 1 <= |b| && StringAt(b, p) == name
  }

  /** They are found where they are looked for. */
  lemma {:induction false} NamesFound(b: seq<byte>, at: nat, names: seq<seq<byte>>, cs: seq<seq<byte>>, i: nat)
    requires Terminated(cs, names) && InMemory(b, at, cs) && i <= |cs|
    ensures NameAt(b, at, i) == at + |Joined(cs, i)| <= |b|
  {
    if i > 0 {
      NamesFound(b, at, names, cs, i - 1);
      NameHere(b, at, names, cs, i - 1);
    }
  }

  lemma {:induction false} LiveProper(table: seq<Record>, k: nat)
    requires k <= |table| && forall i :: 0 <= i < |table| ==> Proper(table[i])
    ensures forall i :: 0 <= i < |Live(table, k)| ==> Proper(Live(table, k)[i])
  {
    if k > 0 { LiveProper(table, k - 1); }
  }

  function PrintNames(rs: seq<Record>): seq<seq<byte>> {
    seq(|rs|, i requires 0 <= i < |rs| => PrintName(rs[i]))
  }

  lemma {:induction false} FieldsTotal(table: seq<Record>)
    ensures |AllWritten(Fields, table)| == RECORD_SIZE * |AllLive(table)|
  {
    var cs := Chunks(Fields, table, |table|);
    ChunkOf(Fields, table, |table|);
    EqualSizes(cs, RECORD_SIZE, |cs|);
  }

  /** A successful stash of the table stands at the start of the memory. */
  ghost predicate HoldsStash(b: seq<byte>, table: seq<Record>) {
    && |AllLive(table)| < 0x1_0000_0000 && Total(table) < 0x1_0000_0000
    && Total(table) <= |b| && b[..Total(table)] == Image(table)
    && forall i :: 0 <= i < |table| ==> Proper(table[i])
  }

  /** Where a stash keeps its parts. */
  lemma {:induction false} ImageParts(b: seq<byte>, table: seq<Record>)
    requires HoldsStash(b, table)
    ensures b[..HEADER_SIZE] == Header(|AllLive(table)|, Total(table))
    ensures var f, n := |AllWritten(Fields, table)|, |AllWritten(Name, table)|;
            && b[HEADER_SIZE..HEADER_SIZE + f] == AllWritten(Fields, table)
            && b[HEADER_SIZE + f..HEADER_SIZE + f + n] == AllWritten(Name, table)
            && f == RECORD_SIZE * |AllLive(table)|
  {
    Parts(b, Header(|AllLive(table)|, Total(table)), AllWritten(Fields, table), AllWritten(Name, table));
    FieldsTotal(table);
  }

  lemma {:induction false} Parts(b: seq<byte>, h: seq<byte>, w1: seq<byte>, w2: seq<byte>)
    requires |h| + |w1| + |w2| <= |b| && b[..|h| + |w1| + |w2|] == h + (w1 + w2)
    ensures b[..|h|] == h && b[|h|..|h| + |w1|] == w1 && b[|h| + |w1|..|h| + |w1| + |w2|] == w2
  {
    var all := b[..|h| + |w1| + |w2|];
    assert b[..|h|] == all[..|h|] && b[|h|..|h| + |w1|] == all[|h|..|h| + |w1|];
    assert b[|h| + |w1|..|h| + |w1| + |w2|] == all[|h| + |w1|..];
  }

  function NameChunks(table: seq<Record>): seq<seq<byte>> { Chunks(Name, table, |table|) }

  lemma {:induction false} NamesInStash(b: seq<byte>, table: seq<Record>)
    requires HoldsStash(b, table)
    ensures InMemory(b, HEADER_SIZE + RECORD_SIZE * |AllLive(table)|, NameChunks(table))
  {
    ImageParts(b, table);
  }

  lemma {:induction false} NamesTerminated(table: seq<Record>)
    requires forall i :: 0 <= i < |table| ==> Proper(table[i])
    ensures |NameChunks(table)| == |AllLive(table)| && Terminated(NameChunks(table), PrintNames(AllLive(table)))
  {
    var live := AllLive(table);
    LiveProper(table, |table|);
    ChunkOf(Name, table, |table|);
    forall j | 0 <= j < |live| ensures TerminatedBy(NameChunks(table)[j], PrintNames(live)[j]) {
      PrintNameFits(live[j]);
    }
  }

  lemma {:induction false} StashHeader(b: seq<byte>, table: seq<Record>)
    requires HoldsStash(b, table)
    ensures b[..HEADER_SIZE] == Header(|AllLive(table)|, Total(table))
    ensures RECORD_SIZE * |AllLive(table)| <= Total(table)
  {
    ImageParts(b, table);
  }

  /** A successful stash is accepted exactly when there are enough free table entries. */
  lemma {:induction false} StashAccepted(b: seq<byte>, table: seq<Record>, limit: int, nextId: nat, idCount: nat)
    requires HoldsStash(b, table) && Total(table) <= limit <= |b|
    requires nextId < 0x8000_0000 && idCount < 0x8000_0000
    ensures Acceptable(b, limit, nextId, idCount) <==> nextId + |AllLive(table)| <= idCount
  {
    StashHeader(b, table);
    HeaderAccepted(b, |AllLive(table)|, Total(table), limit, nextId, idCount);
  }

  /** Its records and names are where unstashing looks for them. */
  lemma {:induction false} StashIntact(b: seq<byte>, table: seq<Record>)
    requires HoldsStash(b, table)
    ensures CountIs(b, |AllLive(table)|) && Intact(b)
  {
    StashHeader(b, table);
    HeaderCount(b, |AllLive(table)|, Total(table));
    NamesInStash(b, table);
    NamesTerminated(table);
    IntactIf(b, |AllLive(table)|, PrintNames(AllLive(table)), NameChunks(table));
  }

  /** The count field of the header at the start of the memory. */
  predicate CountIs(b: seq<byte>, n: nat) {
    HEADER_SIZE <= |b| && WordAt(b, 4) == n
  }

  lemma {:induction false} HeaderCount(b: seq<byte>, count: u32, size: u32)
    requires HEADER_SIZE <= |b| && b[..HEADER_SIZE] == Header(count, size)
    ensures CountIs(b, count)
  {
    HeaderRoundTrip(b, count, size);
  }

  lemma {:induction false} IntactIf(b: seq<byte>, n: nat, names: seq<seq<byte>>, cs: seq<seq<byte>>)
    requires CountIs(b, n) && |cs| == n && Terminated(cs, names)
    requires InMemory(b, HEADER_SIZE + RECORD_SIZE * n, cs)
    ensures Intact(b)
  {
    NamesFound(b, HEADER_SIZE + RECORD_SIZE * n, names, cs, n);
  }

  lemma {:induction false} HeaderAccepted(b: seq<byte>, count: u32, size: u32, limit: int, nextId: nat, idCount: nat)
    requires HEADER_SIZE <= limit <= |b| && b[..HEADER_SIZE] == Header(count, size)
    requires RECORD_SIZE * count <= size <= limit && nextId < 0x8000_0000 && idCount < 0x8000_0000
    ensures Acceptable(b, limit, nextId, idCount) <==> nextId + count <= idCount
    ensures CountIs(b, count)
  {
    HeaderRoundTrip(b, count, size);
    WelcomeIff(count, size, limit, nextId, idCount);
  }

  lemma {:induction false} NameRestored(b: seq<byte>, at: nat, live: seq<Record>, cs: seq<seq<byte>>, i: nat)
    requires InMemory(b, at, cs) && Terminated(cs, PrintNames(live)) && i < |live|
    ensures var p := NameAt(b, at, i); p <= |b| && StringAt(b, p) == PrintName(live[i])
  {
    NameFound(b, at, PrintNames(live), cs, i);
  }

  lemma {:induction false} NameFound(b: seq<byte>, at: nat, names: seq<seq<byte>>, cs: seq<seq<byte>>, i: nat)
    requires Terminated(cs, names) && InMemory(b, at, cs) && i < |cs|
    ensures var p := NameAt(b, at, i); p <= |b| && StringAt(b, p) == names[i]
  {
    NamesFound(b, at, names, cs, i);
    NameHere(b, at, names, cs, i);
  }

  lemma {:induction false} FieldsRestored(b: seq<byte>, table: seq<Record>, i: nat)
    requires HoldsStash(b, table) && i < |AllLive(table)|
    ensures HEADER_SIZE + RECORD_SIZE * |AllLive(table)| <= |b|
    ensures FieldsOf(b, i) == AllLive(table)[i].(name := [])
  {
    ImageParts(b, table);
    RecordHere(b, table, i);
    FieldsRoundTrip(b, HEADER_SIZE + RECORD_SIZE * i, AllLive(table)[i]);
  }

  /** The i-th record put into the table is the i-th live one, with its printable name. */
  ghost predicate Recovers(b: seq<byte>, address: nat, live: seq<Record>, i: nat)
    requires i < |live|
  {
    && NamesEnd(b, |live|)
    && Renamed(live[i], Restored(b, address, |live|, i))
  }

  /** The same record, but with its printable name and a pointer to it. */
  predicate Renamed(r: Record, r': Record) {
    r' == r.(ptr := r'.ptr, name := PrintName(r))
  }

  /** And it restores the same records in order, each with its printable name. */
  lemma {:induction false} StashRoundTrip(b: seq<byte>, table: seq<Record>, address: nat, i: nat)
    requires HoldsStash(b, table) && i < |AllLive(table)|
    ensures Recovers(b, address, AllLive(table), i)
  {
    FieldsRestored(b, table, i);
    NamesInStash(b, table);
    NamesTerminated(table);
    RestoredIs(b, address, AllLive(table), NameChunks(table), i);
  }

  /** So unstashing a stash gives back the filled-in records of the table, in order, from the first
      free entry on. */
  lemma {:induction false} Unstashed(b: seq<byte>, table: seq<Record>, address: nat, after: seq<Record>, base: nat)
    requires HoldsStash(b, table) && NamesEnd(b, |AllLive(table)|)
    requires Rows(after, base, b, address, |AllLive(table)|, |AllLive(table)|)
    ensures forall k :: base <= k < base + |AllLive(table)| ==> Renamed(AllLive(table)[k - base], after[k])
  {
    forall k | base <= k < base + |AllLive(table)| ensures Renamed(AllLive(table)[k - base], after[k]) {
      StashRoundTrip(b, table, address, k - base);
      UnstashedAt(b, AllLive(table), address, after, base, k);
    }
  }

  lemma {:induction false} UnstashedAt(b: seq<byte>, live: seq<Record>, address: nat, after: seq<Record>, base: nat,
                                       k: nat)
    requires NamesEnd(b, |live|) && base <= k < base + |live| && Recovers(b, address, live, k - base)
    requires Rows(after, base, b, address, |live|, |live|)
    ensures Renamed(live[k - base], after[k])
  {
    assert after[k] == Row(b, address, |live|, |live|, k - base);
  }

  lemma {:induction false} RestoredIs(b: seq<byte>, address: nat, live: seq<Record>, cs: seq<seq<byte>>, i: nat)
    requires i < |live| && HEADER_SIZE + RECORD_SIZE * |live| <= |b|
    requires InMemory(b, HEADER_SIZE + RECORD_SIZE * |live|, cs) && Terminated(cs, PrintNames(live))
    requires FieldsOf(b, i) == live[i].(name := [])
    ensures Recovers(b, address, live, i)
  {
    NamesFound(b, HEADER_SIZE + RECORD_SIZE * |live|, PrintNames(live), cs, |live|);
    NameRestored(b, HEADER_SIZE + RECORD_SIZE * |live|, live, cs, i);
    RenamedFrom(b, address, live, i);
  }

  lemma {:induction false} RenamedFrom(b: seq<byte>, address: nat, live: seq<Record>, i: nat)
    requires i < |live| && NamesEnd(b, |live|) && FieldsOf(b, i) == live[i].(name := [])
    requires var p := NameAt(b, HEADER_SIZE + RECORD_SIZE * |live|, i); p <= |b| && StringAt(b, p) == PrintName(live[i])
    ensures Renamed(live[i], Restored(b, address, |live|, i))
  {
  }

  lemma {:induction false} RecordHere(b: seq<byte>, table: seq<Record>, i: nat)
    requires i < |AllLive(table)| && InMemory(b, HEADER_SIZE, Chunks(Fields, table, |table|))
    ensures var at := HEADER_SIZE + RECORD_SIZE * i;
            at + RECORD_SIZE <= |b| && b[at..at + RECORD_SIZE] == RecordBytes(AllLive(table)[i])
  {
    var cs := Chunks(Fields, table, |table|);
    ChunkOf(Fields, table, |table|);
    EqualSizes(cs, RECORD_SIZE, i);
    StringInMemory(b, HEADER_SIZE, cs, i);
  }

  /** A stash that failed after its header was written says size 0 for at least one record, and is
      refused whatever else is in the area. */
  lemma {:induction false} FailedStashRefused(b: seq<byte>, count: u32, limit: int, nextId: nat, idCount: nat)
    requires HEADER_SIZE <= |b| && b[..HEADER_SIZE] == Header(count, 0) && 0 < count < 0x1000_0000
    requires nextId < 0x8000_0000 && idCount < 0x8000_0000
    ensures !Acceptable(b, limit, nextId, idCount)
  {
    HeaderRoundTrip(b, count, 0);
    WelcomeIff(count, 0, limit, nextId, idCount);
  }

  /** Such a stash always has a record: an empty table fits whenever its header does. */
  lemma {:induction false} FailureHasRecords(table: seq<Record>, size: int)
    requires HEADER_SIZE <= size < Total(table)
    ensures |AllLive(table)| > 0
  {
    FieldsTotal(table);
    ChunkOf(Name, table, |table|);
  }

  /** The size field of a header is its third word. */
  lemma {:induction false} HeaderSize(count: u32, size: u32)
    ensures Header(count, size) == Header(count, 0)[..8] + Word(size) + Header(count, 0)[12..]
  {
    ThirdWord(Word(VERSION), Word(count), Word(0), Word(size), Word(MAGIC));
  }

  lemma {:induction false} ThirdWord(w0: seq<byte>, w1: seq<byte>, w2: seq<byte>, w: seq<byte>, w3: seq<byte>)
    requires |w0| == |w1| == |w2| == |w| == |w3| == 4
    ensures w0 + w1 + w + w3 == (w0 + w1 + w2 + w3)[..8] + w + (w0 + w1 + w2 + w3)[12..]
  {
  }
}
