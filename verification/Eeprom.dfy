/** Reading and writing serial EEPROMs with cmd_eeprom.c: a range of a flat address space is cut into
    transfers that stay inside a page of one chip. */
module Eeprom {
  import opened Machine
  import opened Ring

  const RXTX_LEN: nat := 128          // I2C_RXTX_LEN

  /** CONFIG_SYS_I2C_EEPROM_ADDR_LEN, CONFIG_SYS_EEPROM_PAGE_WRITE_BITS (8 stands for none) and the
      device address. */
  datatype Config = Config(addrLen: nat, pageBits: nat, dev: u32)

  predicate AddressLength(c: Config) {
    1 <= c.addrLen <= 2
  }

  /** Pages are no longer than 256 bytes. */
  predicate Proper(c: Config) {
    AddressLength(c) && c.pageBits <= 8
  }

  /** A cell of a chip on the bus. */
  datatype Place = Place(chip: nat, cell: int)

  type Memory = map<Place, byte>

  function Get(m: Memory, p: Place): byte {
    if p in m then m[p] else 0xFF
  }

  // ---- The flat address space --------------------------------------------------------

  /** The size of a chip: what its address bytes can tell apart. */
  function ChipSize(c: Config): nat {
    if c.addrLen == 1 then 0x100 else 0x1_0000
  }

  /** The first address byte: the block number, cut to 8 bits, with the device address or-ed in. */
  function Chip(c: Config, x: nat): nat {
    Or((x / ChipSize(c)) % 0x100, c.dev) % 0x100
  }

  /** The cell at a flat offset. */
  function Locate(c: Config, x: nat): Place {
    Place(Chip(c, x), x % ChipSize(c))
  }

  /** The address bytes on the bus: two for chips with one address byte, three for chips with two. */
  function AddressBytes(c: Config, x: nat): seq<byte>
    requires AddressLength(c)
  {
    if c.addrLen == 1 then [Or((x / 0x100) % 0x100, c.dev) % 0x100, x % 0x100]
    else [Or((x / 0x1_0000) % 0x100, c.dev) % 0x100, (x / 0x100) % 0x100, x % 0x100]
  }

  /** The first of them is the chip, and the others are the cell in it, the high byte first. */
  lemma {:induction false} LocatedByBytes(c: Config, x: nat)
    requires AddressLength(c)
    ensures var b := AddressBytes(c, x);
            Locate(c, x) == Place(b[0], if c.addrLen == 1 then b[1] as int else 0x100 * b[1] as int + b[2])
  {
    if c.addrLen == 2 {
      QuotientAndRemainder(x, 0x100);
      RemainderUnique(x, 0x1_0000, x / 0x100 / 0x100, 0x100 * ((x / 0x100) % 0x100) + x % 0x100);
    }
  }

  /** In particular the first offsets are the cells of the chip at the device address. */
  lemma {:induction false} FirstChip(c: Config, x: nat)
    requires AddressLength(c) && c.dev < 0x100 && x < (if c.addrLen == 1 then 0x100 else 0x1_0000)
    ensures Locate(c, x) == Place(c.dev, x)
  {
    OrOfDisjoint(0, c.dev);
  }

  function Nth(c: Config, x: nat, k: nat): Place {
    Locate(c, x + k)
  }

  /** One byte after the other. */
  function FlatWrite(m: Memory, c: Config, x: nat, data: seq<byte>, k: nat): Memory
    requires k <= |data|
  {
    if k == 0 then m else FlatWrite(m, c, x, data, k - 1)[Nth(c, x, k - 1) := data[k - 1]]
  }

  function FlatRead(m: Memory, c: Config, x: nat, n: nat): seq<byte> {
    seq(n, k requires 0 <= k < n => Get(m, Nth(c, x, k)))
  }

  // ---- The devices -------------------------------------------------------------------

  function PageSize(c: Config): nat { Pow2(c.pageBits) }

  /** In a write the address counter of a chip stays within the page. */
  function InPage(c: Config, a: nat, k: nat): int {
    a - a % PageSize(c) + (a % PageSize(c) + k) % PageSize(c)
  }

  function PageWrite(m: Memory, c: Config, chip: nat, a: nat, data: seq<byte>, k: nat): Memory
    requires k <= |data|
  {
    if k == 0 then m else PageWrite(m, c, chip, a, data, k - 1)[Place(chip, InPage(c, a, k - 1)) := data[k - 1]]
  }

  /** In a read it goes around the chip. */
  function SerialRead(m: Memory, c: Config, chip: nat, a: nat, n: nat): seq<byte> {
    seq(n, k requires 0 <= k < n => Get(m, Place(chip, Spot(a, k, ChipSize(c)))))
  }

  // ---- One transfer ------------------------------------------------------------------

  /** `k` bytes from offset `x` on stay inside a block of 256, and inside a page. */
  predicate Inside(c: Config, x: nat, k: nat) {
    x % 0x100 + k <= 0x100 && x % PageSize(c) + k <= PageSize(c)
  }

  lemma {:induction false} SameChip(c: Config, x: nat, k: nat)
    requires AddressLength(c) && x % 0x100 + k < 0x100
    ensures Nth(c, x, k) == Place(Chip(c, x), x % ChipSize(c) + k)
    ensures x % ChipSize(c) + k == Spot(x % ChipSize(c), k, ChipSize(c))
  {
    var size := ChipSize(c);
    assert x % size + k < size by { if size == 0x1_0000 { LowOfHigh(x); } }
    RemainderUnique(x + k, size, x / size, x % size + k);
    DivSmall(x % size + k, size);
  }

  lemma {:induction false} LowOfHigh(x: nat)
    ensures x % 0x1_0000 <= 0xFF00 + x % 0x100
  {
    var q := x / 0x100;
    RemainderUnique(x, 0x1_0000, q / 0x100, 0x100 * (q % 0x100) + x % 0x100);
  }

  lemma {:induction false} PageDivides(c: Config)
    requires Proper(c)
    ensures PageSize(c) * Pow2(8 - c.pageBits) == 0x100
  {
    Pow2Split(c.pageBits, 8 - c.pageBits);
    Pow2Values();
  }

  /** The place in the page can be computed from the low byte of the offset. */
  lemma {:induction false} LowByte(c: Config, x: nat)
    requires Proper(c)
    ensures (x % 0x100) % PageSize(c) == x % PageSize(c)
  {
    PageDivides(c);
    var k := ModuloMultiple(x, 0x100, PageSize(c), Pow2(8 - c.pageBits));
    Around(x % 0x100, k, PageSize(c));
  }

  lemma {:induction false} CellInPage(c: Config, x: nat, k: nat)
    requires Proper(c) && x % PageSize(c) + k < PageSize(c)
    ensures InPage(c, x % ChipSize(c), k) == x % ChipSize(c) + k
  {
    var a := x % ChipSize(c);
    LowByte(c, x);
    LowByte(c, a);
    SameLow(c, x);
    DivSmall(a % PageSize(c) + k, PageSize(c));
  }

  lemma {:induction false} SameLow(c: Config, x: nat)
    ensures (x % ChipSize(c)) % 0x100 == x % 0x100
  {
  }

  lemma {:induction false} SamePlace(c: Config, x: nat, k: nat)
    requires Proper(c) && Inside(c, x, k + 1)
    ensures Place(Chip(c, x), InPage(c, x % ChipSize(c), k)) == Nth(c, x, k)
  {
    SameChip(c, x, k);
    CellInPage(c, x, k);
  }

  /** A write that stays inside is a flat write. */
  lemma {:induction false} InsideWrite(m: Memory, c: Config, x: nat, data: seq<byte>, k: nat)
    requires Proper(c) && k <= |data| && Inside(c, x, k)
    ensures PageWrite(m, c, Chip(c, x), x % ChipSize(c), data, k) == FlatWrite(m, c, x, data, k)
  {
    if k > 0 {
      InsideWrite(m, c, x, data, k - 1);
      SamePlace(c, x, k - 1);
    }
  }

  lemma {:induction false} InsideRead(m: Memory, c: Config, x: nat, n: nat)
    requires AddressLength(c) && x % 0x100 + n <= 0x100
    ensures SerialRead(m, c, Chip(c, x), x % ChipSize(c), n) == FlatRead(m, c, x, n)
  {
    var a, size := x % ChipSize(c), ChipSize(c);
    forall k | 0 <= k < n ensures Place(Chip(c, x), Spot(a, k, size)) == Nth(c, x, k) { SameChip(c, x, k); }
  }

  /** Successive writes are one write. */
  lemma {:induction false} WriteOn(m: Memory, c: Config, x: nat, data: seq<byte>, i: nat, n: nat, k: nat)
    requires k <= n && i + n <= |data|
    ensures FlatWrite(FlatWrite(m, c, x, data, i), c, x + i, data[i..i + n], k) == FlatWrite(m, c, x, data, i + k)
    decreases k
  {
    if k > 0 {
      WriteOn(m, c, x, data, i, n, k - 1);
      assert Nth(c, x + i, k - 1) == Nth(c, x, i + k - 1);
    }
  }

  lemma {:induction false} ReadOn(m: Memory, c: Config, x: nat, i: nat, n: nat)
    ensures FlatRead(m, c, x, i) + FlatRead(m, c, x + i, n) == FlatRead(m, c, x, i + n)
  {
    var next := x + i;
    forall k | 0 <= k < n ensures Nth(c, next, k) == Nth(c, x, i + k) {}
  }

  // ---- Lengths -----------------------------------------------------------------------

  /** EEPROM_PAGE_OFFSET: `blk_off & (EEPROM_PAGE_SIZE - 1)`. */
  function PageOffset(c: Config, low: nat): (r: nat)
    ensures r < PageSize(c)
  {
    MaskIsRemainder(low, c.pageBits);
    And(low, PageSize(c) - 1)
  }

  /** How much one write transfer may carry. */
  function WriteLen(c: Config, x: nat, want: nat): nat {
    Least(want, Least(PageSize(c) - PageOffset(c, x % 0x100), RXTX_LEN))
  }

  function ReadLen(x: nat, want: nat): nat {
    Least(want, Least(0x100 - x % 0x100, RXTX_LEN))
  }

  function Least(a: nat, b: nat): nat { if a > b then b else a }

  lemma {:induction false} WriteLenFits(c: Config, x: nat, want: nat)
    requires Proper(c) && want > 0
    ensures 0 < WriteLen(c, x, want) <= want && Inside(c, x, WriteLen(c, x, want))
  {
    var low, size := x % 0x100, PageSize(c);
    MaskIsRemainder(low, c.pageBits);
    LowByte(c, x);
    PageDivides(c);
    LastPage(low, size, Pow2(8 - c.pageBits));
  }

  /** A page ends where its block ends, or before. */
  lemma {:induction false} LastPage(low: nat, size: nat, pages: nat)
    requires size > 0 && size * pages == 0x100 && low < 0x100
    ensures low - low % size + size <= 0x100
  {
    var q := low / size;
    QuotientAndRemainder(low, size);
    MulOrder(size, pages, q);
    MulOrder(size, q + 1, pages);
    assert size * (q + 1) == size * q + size;
  }

  /** No transfer of any write leaves its page. */
  ghost predicate KeepsPages(c: Config) {
    forall x: nat, want: nat :: x % PageSize(c) + WriteLen(c, x, want) <= PageSize(c)
  }

  /** The page offset is taken from the low byte of the address alone: that is enough if and only if a
      page is no longer than 256 bytes. */
  lemma {:induction false} KeepsPagesIff(c: Config)
    requires AddressLength(c)
    ensures KeepsPages(c) <==> Proper(c)
  {
    if Proper(c) {
      forall x: nat, want: nat ensures x % PageSize(c) + WriteLen(c, x, want) <= PageSize(c) {
        if want > 0 { WriteLenFits(c, x, want); }
      }
    } else {
      var x: nat := LeavesPage(c);
      assert x % PageSize(c) + WriteLen(c, x, 1000) > PageSize(c);
    }
  }

  /** A transfer over the end of a longer page: the byte that belongs behind the page comes round to
      its start. */
  lemma {:induction false} LeavesPage(c: Config) returns (x: nat)
    requires c.pageBits > 8
    ensures x == PageSize(c) - 64 && x % PageSize(c) == x && WriteLen(c, x, 1000) == 128
    ensures InPage(c, x, 64) == 0
  {
    Pow2Split(9, c.pageBits - 9);
    Pow2Values();
    MulOrder(Pow2(9), 1, Pow2(c.pageBits - 9));
    x := PageSize(c) - 64;
    var low := x % 0x100;
    MaskIsRemainder(low, c.pageBits);
    DivSmall(low, PageSize(c));
    DivSmall(x, PageSize(c));
    RemainderUnique(PageSize(c), PageSize(c), 1, 0);
  }

  /** How many bytes a request moves: all of them, or none if its end does not fit into 32 bits. */
  function Span(offset: u32, cnt: u32): nat {
    if offset + cnt < 0x1_0000_0000 then cnt else 0
  }

  // ---- The bus -----------------------------------------------------------------------

  class Bus {
    const c: Config
    const silent: set<nat>            // the transfers that are not acknowledged
    var mem: Memory
    var transfers: nat

    constructor (c: Config, silent: set<nat>, mem: Memory)
      ensures this.c == c && this.silent == silent && this.mem == mem && transfers == 0
    {
      this.c, this.silent, this.mem, transfers := c, silent, mem, 0;
    }

    /** All transfers since the given one were acknowledged. */
    ghost predicate Acked(since: nat)
      reads this
    {
      forall t :: since <= t < transfers ==> t !in silent
    }

    method I2cWrite(chip: nat, offset: nat, data: seq<byte>) returns (rc: int)
      modifies this`mem, this`transfers
      ensures transfers == old(transfers) + 1 && (rc == 0 <==> old(transfers) !in silent)
      ensures mem == if rc == 0 then PageWrite(old(mem), c, chip, offset % ChipSize(c), data, |data|) else old(mem)
    {
      if transfers in silent { rc := 1; } else {
        rc := 0;
        mem := PageWrite(mem, c, chip, offset % ChipSize(c), data, |data|);
      }
      transfers := transfers + 1;
    }

    method I2cRead(chip: nat, offset: nat, n: nat) returns (rc: int, data: seq<byte>)
      modifies this`transfers
      ensures transfers == old(transfers) + 1 && (rc == 0 <==> old(transfers) !in silent)
      ensures data == if rc == 0 then SerialRead(mem, c, chip, offset % ChipSize(c), n) else []
    {
      if transfers in silent { rc, data := 1, []; } else {
        rc, data := 0, SerialRead(mem, c, chip, offset % ChipSize(c), n);
      }
      transfers := transfers + 1;
    }

    /** eeprom_write: it returns 0 exactly when every transfer was acknowledged, and then the memory is
        as if the bytes had been written one by one, if pages are no longer than 256 bytes; whatever
        happens, no other cell changes then. */
    method Write(offset0: u32, data: seq<byte>, cnt: u32) returns (rcode: int)
      requires AddressLength(c) && cnt <= |data|
      modifies this`mem, this`transfers
      ensures rcode == 0 <==> Acked(old(transfers))
      ensures rcode == 0 && Proper(c) ==> mem == FlatWrite(old(mem), c, offset0, data, Span(offset0, cnt))
      ensures Proper(c) ==> Elsewhere(old(mem), mem, c, offset0, Span(offset0, cnt))
    {
      var end := Add32(offset0, cnt);
      var offset, i := offset0, 0;
      rcode := 0;
      while offset < end
        invariant offset == offset0 + i && i <= Span(offset0, cnt) && transfers >= old(transfers)
        invariant rcode == 0 <==> Acked(old(transfers))
        invariant Proper(c) ==> Written(old(mem), mem, c, offset0, data, i, rcode == 0)
        decreases end - offset
      {
        ghost var before, clean := mem, rcode == 0;
        var rc, len := WriteChunk(offset, data, i, end - offset);
        if rc != 0 { rcode := 1; }
        if Proper(c) { WrittenOn(old(mem), before, mem, c, offset0, data, i, len, clean, rc == 0); }
        i := i + len;
        offset := offset + len;
      }
    }

    /** One turn of its loop. */
    method WriteChunk(offset: u32, data: seq<byte>, i: nat, want: nat) returns (rc: int, len: nat)
      requires AddressLength(c) && 0 < want && i + want <= |data|
      modifies this`mem, this`transfers
      ensures 0 < len <= want && (Proper(c) ==> Inside(c, offset, len))
      ensures transfers == old(transfers) + 1 && (rc == 0 <==> old(transfers) !in silent)
      ensures rc == 0 && Proper(c) ==> mem == FlatWrite(old(mem), c, offset, data[i..i + len], len)
      ensures rc != 0 ==> mem == old(mem)
      ensures Proper(c) ==> Elsewhere(old(mem), mem, c, offset, len)
    {
      len := WriteLen(c, offset, want);
      var chunk := data[i..i + len];
      if Proper(c) {
        WriteLenFits(c, offset, want);
        InsideWrite(mem, c, offset, chunk, len);
        OnlyThere(mem, c, offset, chunk, len);
      }
      rc := I2cWrite(Chip(c, offset), offset, chunk);
    }

    /** eeprom_read. */
    method Read(offset0: u32, buffer: array<byte>, cnt: u32) returns (rcode: int)
      requires AddressLength(c) && cnt <= buffer.Length
      modifies this`transfers, buffer
      ensures rcode == 0 <==> Acked(old(transfers))
      ensures rcode == 0 ==> buffer[..Span(offset0, cnt)] == FlatRead(mem, c, offset0, Span(offset0, cnt))
      ensures buffer[Span(offset0, cnt)..] == old(buffer[Span(offset0, cnt)..])
    {
      var end := Add32(offset0, cnt);
      var offset, i := offset0, 0;
      ghost var span := Span(offset0, cnt);
      rcode := 0;
      while offset < end
        invariant offset == offset0 + i && i <= span && transfers >= old(transfers)
        invariant rcode == 0 <==> Acked(old(transfers))
        invariant rcode == 0 ==> buffer[..i] == FlatRead(mem, c, offset0, i)
        invariant buffer[span..] == old(buffer[span..])
        decreases end - offset
      {
        var len := ReadLen(offset, end - offset);
        var rc := ReadChunk(offset, buffer, i, len);
        if rc != 0 { rcode := 1; }
        ReadOn(mem, c, offset0, i, len);
        i := i + len;
        offset := offset + len;
      }
    }

    method ReadChunk(offset: u32, buffer: array<byte>, i: nat, len: nat) returns (rc: int)
      requires AddressLength(c) && offset % 0x100 + len <= 0x100 && i + len <= buffer.Length
      modifies this`transfers, buffer
      ensures transfers == old(transfers) + 1 && (rc == 0 <==> old(transfers) !in silent)
      ensures rc == 0 ==> buffer[..i + len] == old(buffer[..i]) + FlatRead(mem, c, offset, len)
      ensures buffer[i + len..] == old(buffer[i + len..])
    {
      InsideRead(mem, c, offset, len);
      var data: seq<byte>;
      rc, data := I2cRead(Chip(c, offset), offset, len);
      for k := 0 to |data|
        invariant buffer[..i] == old(buffer[..i]) && buffer[i..i + k] == data[..k]
        invariant buffer[i + len..] == old(buffer[i + len..]) && transfers == old(transfers) + 1
      {
        buffer[i + k] := data[k];
      }
      assert rc == 0 ==> |data| == len && data[..len] == data && buffer[..i + len] == buffer[..i] + buffer[i..i + len];
    }
  }

  /** A cell of `n` bytes from `x` on. */
  ghost predicate Among(c: Config, x: nat, n: nat, p: Place) {
    exists k :: 0 <= k < n && Nth(c, x, k) == p
  }

  /** Only those may differ. */
  ghost predicate Elsewhere(before: Memory, after: Memory, c: Config, x: nat, n: nat) {
    forall p :: !Among(c, x, n, p) ==> Get(after, p) == Get(before, p)
  }

  lemma {:induction false} OnlyThere(m: Memory, c: Config, x: nat, data: seq<byte>, k: nat)
    requires k <= |data|
    ensures Elsewhere(m, FlatWrite(m, c, x, data, k), c, x, k)
  {
    if k > 0 {
      OnlyThere(m, c, x, data, k - 1);
      forall p | !Among(c, x, k, p) ensures Get(FlatWrite(m, c, x, data, k), p) == Get(m, p) {
        assert Nth(c, x, k - 1) != p;
        assert !Among(c, x, k - 1, p);
      }
    }
  }

  lemma {:induction false} Together(m0: Memory, m1: Memory, m2: Memory, c: Config, x: nat, i: nat, n: nat)
    requires Elsewhere(m0, m1, c, x, i) && Elsewhere(m1, m2, c, x + i, n)
    ensures Elsewhere(m0, m2, c, x, i + n)
  {
    var next := x + i;
    forall p | !Among(c, x, i + n, p) ensures Get(m2, p) == Get(m0, p) {
      assert !Among(c, x, i, p) by { assert forall k :: 0 <= k < i ==> Nth(c, x, k) != p; }
      assert !Among(c, next, n, p) by {
        forall k | 0 <= k < n ensures Nth(c, next, k) != p { assert Nth(c, next, k) == Nth(c, x, i + k); }
      }
    }
  }

  /** `i` bytes are written, unless a transfer failed. */
  ghost predicate Written(m0: Memory, m: Memory, c: Config, x: nat, data: seq<byte>, i: nat, clean: bool)
    requires i <= |data|
  {
    (clean ==> m == FlatWrite(m0, c, x, data, i)) && Elsewhere(m0, m, c, x, i)
  }

  lemma {:induction false} WrittenOn(m0: Memory, m1: Memory, m2: Memory, c: Config, x: nat, data: seq<byte>, i: nat,
                                     n: nat, clean: bool, acked: bool)
    requires i + n <= |data| && Written(m0, m1, c, x, data, i, clean)
    requires acked ==> m2 == FlatWrite(m1, c, x + i, data[i..i + n], n)
    requires Elsewhere(m1, m2, c, x + i, n)
    ensures Written(m0, m2, c, x, data, i + n, clean && acked)
  {
    WriteOn(m0, c, x, data, i, n, n);
    Together(m0, m1, m2, c, x, i, n);
  }

  // ---- Reading back ------------------------------------------------------------------

  /** No two bytes of the range share a cell. */
  ghost predicate OwnCells(c: Config, x: nat, n: nat) {
    forall i, j :: 0 <= i < j < n ==> Nth(c, x, i) != Nth(c, x, j)
  }

  /** The last byte written to a cell is the one it holds. */
  lemma {:induction false} LastWins(m: Memory, c: Config, x: nat, data: seq<byte>, n: nat, j: nat)
    requires j < n <= |data|
    requires forall k :: j < k < n && Nth(c, x, k) == Nth(c, x, j) ==> data[k] == data[j]
    ensures Get(FlatWrite(m, c, x, data, n), Nth(c, x, j)) == data[j]
  {
    if j < n - 1 { LastWins(m, c, x, data, n - 1, j); }
  }

  ghost predicate ReadsBack(m: Memory, c: Config, x: nat, data: seq<byte>) {
    FlatRead(FlatWrite(m, c, x, data, |data|), c, x, |data|) == data
  }

  /** Reading back returns what was written, whatever it was, if and only if each byte of the range has
      a cell of its own. */
  lemma {:induction false} ReadBackIff(m: Memory, c: Config, x: nat, n: nat)
    ensures (forall data: seq<byte> :: |data| == n ==> ReadsBack(m, c, x, data)) <==> OwnCells(c, x, n)
  {
    if OwnCells(c, x, n) {
      forall data: seq<byte> | |data| == n ensures ReadsBack(m, c, x, data) {
        forall j | 0 <= j < n ensures Get(FlatWrite(m, c, x, data, n), Nth(c, x, j)) == data[j] {
          LastWins(m, c, x, data, n, j);
        }
      }
    } else {
      var i, j :| 0 <= i < j < n && Nth(c, x, i) == Nth(c, x, j);
      Overwritten(m, c, x, n, i, j);
    }
  }

  lemma {:induction false} Overwritten(m: Memory, c: Config, x: nat, n: nat, i: nat, j: nat)
    requires i < j < n && Nth(c, x, i) == Nth(c, x, j)
    ensures exists data: seq<byte> :: |data| == n && !ReadsBack(m, c, x, data)
  {
    var data: seq<byte> := seq(n, k => if k == i then 1 else 0);
    LastWins(m, c, x, data, n, j);
    assert FlatRead(FlatWrite(m, c, x, data, n), c, x, n)[i] == 0;
    assert !ReadsBack(m, c, x, data);
  }

  function Block(c: Config, x: nat, k: nat): nat { (x + k) / ChipSize(c) }

  /** That is so if the device address shares no bit with the block numbers, and these fit a byte. */
  lemma {:induction false} DisjointBits(c: Config, x: nat, n: nat)
    requires x + n <= 0x100 * ChipSize(c)
    requires forall k :: 0 <= k < n ==> And(Block(c, x, k), c.dev) == 0
    ensures OwnCells(c, x, n)
  {
    forall i, j | 0 <= i < j < n ensures Nth(c, x, i) != Nth(c, x, j) {
      CellsApart(c, x, i, j);
    }
  }

  lemma {:induction false} CellsApart(c: Config, x: nat, i: nat, j: nat)
    requires i < j && x + j < 0x100 * ChipSize(c)
    requires And(Block(c, x, i), c.dev) == 0 && And(Block(c, x, j), c.dev) == 0
    ensures Nth(c, x, i) != Nth(c, x, j)
  {
    ChipNumber(c, x, i);
    ChipNumber(c, x, j);
    if Nth(c, x, i).chip == Nth(c, x, j).chip {
      SameRemainder(Block(c, x, i), Block(c, x, j), c.dev);
      QuotientAndRemainder(x + i, ChipSize(c));
      QuotientAndRemainder(x + j, ChipSize(c));
    }
  }

  lemma {:induction false} ChipNumber(c: Config, x: nat, k: nat)
    requires x + k < 0x100 * ChipSize(c) && And(Block(c, x, k), c.dev) == 0
    ensures Block(c, x, k) < 0x100 && Nth(c, x, k).chip == (Block(c, x, k) + c.dev) % 0x100
  {
    OrOfDisjoint(Block(c, x, k), c.dev);
    assert Block(c, x, k) < 0x100 by { if c.addrLen == 1 { assert ChipSize(c) == 0x100; } }
    assert Block(c, x, k) % 0x100 == Block(c, x, k);
  }

  lemma {:induction false} SameRemainder(a: nat, b: nat, d: nat)
    requires a < 0x100 && b < 0x100 && (a + d) % 0x100 == (b + d) % 0x100
    ensures a == b
  {
  }

  /** With a device address that does share a bit, two blocks lie in one chip. */
  lemma {:induction false} SharedBit()
    ensures var c := Config(1, 8, 1); Locate(c, 0) == Locate(c, 0x100) && !OwnCells(c, 0, 0x101)
  {
    var c := Config(1, 8, 1);
    assert Or(0, 1) == 1 && Or(1, 1) == 1;
    assert Nth(c, 0, 0) == Nth(c, 0, 0x100);
  }
}
