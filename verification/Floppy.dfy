/** The multi-track floppy read of cmd_fdc.c over an abstract drive: block numbers split into
    track, head and sector, chunks that stay on one track side, and two nested retry counters. */
module Floppy {
  import opened Machine

  const RW_RETRIES := 3
  const CAL_RETRIES := 3

  /** The part of FD_GEO_STRUCT that addressing uses; a sector has 0x80 << sect_code bytes. */
  datatype Geometry = Geometry(sect: nat, heads: nat, tracks: nat, sectCode: nat)

  /** What one byte each can express: the head goes into bit 2 of the drive byte. */
  predicate Usable(g: Geometry) {
    1 <= g.sect <= 255 && 1 <= g.heads <= 2 && 1 <= g.tracks <= 256
  }

  function SectorSize(g: Geometry): (n: nat)
    ensures n >= 1
  {
    0x80 * Pow2(g.sectCode)
  }

  /** The bytes in `n` blocks, and the blocks on the first `t` tracks. */
  function Bytes(g: Geometry, n: nat): nat {
    if n == 0 then 0 else Bytes(g, n - 1) + SectorSize(g)
  }

  function Blocks(g: Geometry, t: nat): nat {
    if t == 0 then 0 else Blocks(g, t - 1) + g.sect * g.heads
  }

  /** The sizes that the sector codes stand for. */
  lemma {:induction false} SectorSizes(g: Geometry)
    ensures g.sectCode < 4 ==> SectorSize(g) == [128, 256, 512, 1024][g.sectCode]
  {
    assert Pow2(3) == 8 && Pow2(2) == 4 && Pow2(1) == 2 && Pow2(0) == 1;
  }

  lemma {:induction false} BytesIs(g: Geometry, n: nat)
    ensures Bytes(g, n) == n * SectorSize(g)
  {
    if n > 0 { BytesIs(g, n - 1); }
  }

  lemma {:induction false} BlocksIs(g: Geometry, t: nat)
    ensures Blocks(g, t) == (g.sect * g.heads) * t
  {
    if t > 0 {
      BlocksIs(g, t - 1);
      assert (g.sect * g.heads) * t == (g.sect * g.heads) * (t - 1) + g.sect * g.heads;
    }
  }

  lemma {:induction false} BytesAdd(g: Geometry, n: nat, m: nat)
    ensures Bytes(g, n + m) == Bytes(g, n) + Bytes(g, m)
  {
    if m > 0 { BytesAdd(g, n, m - 1); }
  }

  /** The bytes of a READ command that say where to read. */
  datatype Command = Command(drive: byte, track: byte, head: byte, sector: byte)

  /** The address split of fdc_issue_cmd. */
  function Split(g: Geometry, drive: nat, blnr: nat): Command
    requires Usable(g) && drive < 4
  {
    Positive(g.sect, g.heads);
    var side := g.sect * g.heads;
    var track, rest := blnr / side, blnr % side;
    Fields(drive, track, rest / g.sect, rest % g.sect + 1)
  }

  lemma {:induction false} Positive(a: nat, b: nat)
    requires a > 0 && b > 0
    ensures a * b > 0
  {
  }

  /** Each field is a byte; a head other than 0 also sets bit 2 of the drive byte. */
  function Fields(drive: nat, track: int, head: int, sector: int): Command
    requires drive < 4
  {
    Command(if head != 0 then drive + 4 else drive, track % 256, head % 256, sector % 256)
  }

  /** The usual numbering of sectors, with which a disk image is laid out. */
  function BlockOf(g: Geometry, track: nat, head: nat, sector: nat): int {
    (track * g.heads + head) * g.sect + sector - 1
  }

  /** Where on a track side a block lies: the remainder modulo the sectors of a track, see OnSideIs. */
  function OnSide(g: Geometry, blnr: nat): (s: nat)
    requires Usable(g)
    ensures s < g.sect
  {
    if blnr < g.sect then blnr else OnSide(g, blnr - g.sect)
  }

  lemma {:induction false} OnSideIs(g: Geometry, blnr: nat)
    requires Usable(g)
    ensures OnSide(g, blnr) == blnr % g.sect
  {
    if blnr < g.sect {
      DivSmall(blnr, g.sect);
    } else {
      OnSideIs(g, blnr - g.sect);
      var q := (blnr - g.sect) / g.sect;
      assert g.sect * (q + 1) == g.sect * q + g.sect;
      RemainderUnique(blnr, g.sect, q + 1, OnSide(g, blnr));
    }
  }

  lemma {:induction false} SplitQuotients(g: Geometry, blnr: nat) returns (track: nat, head: nat, s: nat)
    requires Usable(g)
    ensures track == blnr / (g.sect * g.heads) && head == (blnr % (g.sect * g.heads)) / g.sect
    ensures s == (blnr % (g.sect * g.heads)) % g.sect == OnSide(g, blnr)
    ensures head < g.heads && s < g.sect && blnr == (track * g.heads + head) * g.sect + s
    ensures blnr == (g.sect * g.heads) * track + blnr % (g.sect * g.heads)
  {
    Positive(g.sect, g.heads);
    var side := g.sect * g.heads;
    QuotientAndRemainder(blnr, side);
    track := blnr / side;
    var rest := blnr % side;
    QuotientAndRemainder(rest, g.sect);
    head, s := rest / g.sect, rest % g.sect;
    HeadInRange(g.sect, g.heads, rest, head, s);
    Regroup(g.sect, g.heads, track, head, s);
    RemainderUnique(blnr, g.sect, track * g.heads + head, s);
    OnSideIs(g, blnr);
  }

  lemma {:induction false} HeadInRange(sect: nat, heads: nat, rest: nat, head: nat, s: nat)
    requires rest == sect * head + s && rest < sect * heads
    ensures head < heads
  {
    MulOrder(sect, heads, head);
  }

  lemma {:induction false} Regroup(sect: nat, heads: nat, track: nat, head: nat, s: nat)
    ensures (sect * heads) * track + (sect * head + s) == (track * heads + head) * sect + s
    ensures (track * heads + head) * sect == sect * (track * heads + head)
  {
    assert (sect * heads) * track == (track * heads) * sect;
    assert (track * heads + head) * sect == (track * heads) * sect + head * sect;
  }

  lemma {:induction false} TrackInRange(g: Geometry, blnr: nat, track: nat, rest: nat)
    requires Usable(g) && blnr < Blocks(g, g.tracks) && blnr == (g.sect * g.heads) * track + rest
    ensures track < g.tracks
  {
    BlocksIs(g, g.tracks);
    MulOrder(g.sect * g.heads, g.tracks, track);
  }

  /** The command names exactly the block: both head fields agree, nothing is cut off, and the usual
      numbering gives the block number back. */
  lemma {:induction false} SplitExact(g: Geometry, drive: nat, blnr: nat)
    requires Usable(g) && drive < 4 && blnr < Blocks(g, g.tracks)
    ensures var c := Split(g, drive, blnr);
            && c.head == (c.drive / 4) % 2 && c.drive % 4 == drive
            && c.track < g.tracks && c.head < g.heads && c.sector == OnSide(g, blnr) + 1
            && BlockOf(g, c.track, c.head, c.sector) == blnr
  {
    var track, head, s := SplitFields(g, drive, blnr);
    FieldsExact(drive, track, head, s + 1);
  }

  lemma {:induction false} SplitFields(g: Geometry, drive: nat, blnr: nat) returns (track: nat, head: nat, s: nat)
    requires Usable(g) && drive < 4 && blnr < Blocks(g, g.tracks)
    ensures track < g.tracks && head < g.heads && s == OnSide(g, blnr)
    ensures Split(g, drive, blnr) == Fields(drive, track, head, s + 1) && BlockOf(g, track, head, s + 1) == blnr
  {
    track, head, s := SplitQuotients(g, blnr);
    TrackInRange(g, blnr, track, blnr % (g.sect * g.heads));
  }

  lemma {:induction false} FieldsExact(drive: nat, track: nat, head: nat, sector: nat)
    requires drive < 4 && track < 256 && head < 2 && sector < 256
    ensures var c := Fields(drive, track, head, sector);
            && c.track == track && c.head == head && c.sector == sector
            && (c.drive / 4) % 2 == head && c.drive % 4 == drive
  {
  }

  // ---- The drive ---------------------------------------------------------------------

  datatype SeekAnswer = SeekEnd | SeekFailed | SeekTimeout

  datatype ReadAnswer = Clean | Fault(at: nat) | ReadTimeout

  /** A drive that always answers. The image is the disk, byte after byte; `junk` is what a controller
      delivers that has run past the end of the track side or was sent to no sector of the disk. What
      goes wrong may depend in any way on how many commands there have been. */
  datatype Drive = Drive(
    image: nat -> byte,
    junk: nat -> byte,
    seek: nat -> SeekAnswer,
    recalibrate: nat -> bool,
    read: nat -> ReadAnswer)

  /** Every seek ends, every recalibration works and no READ times out. */
  ghost predicate Obedient(d: Drive) {
    (forall t :: d.seek(t) == SeekEnd) && (forall t :: d.recalibrate(t)) && forall t :: d.read(t) != ReadTimeout
  }

  /** And no transfer goes wrong. */
  ghost predicate Flawless(d: Drive) {
    Obedient(d) && forall t :: d.read(t) == Clean
  }

  /** The i-th byte that a READ command delivers with the heads on a track: the sectors from the named one to
      the end of the track side (the EOT field is the number of sectors), one after the other, if that is the
      track the command names. */
  function Delivered(d: Drive, g: Geometry, at: int, c: Command, i: nat): byte
    requires Usable(g)
  {
    var block := BlockOf(g, c.track, c.head, c.sector);
    if at == c.track && c.head == (c.drive / 4) % 2 && 1 <= c.sector <= g.sect && block >= 0
       && i < Bytes(g, g.sect - c.sector + 1)
    then d.image(Bytes(g, block) + i) else d.junk(i)
  }

  /** Within one track side a READ at block `blnr` delivers the disk from that block on, if the heads are on
      the track of the block. */
  lemma {:induction false} DeliversBlock(d: Drive, g: Geometry, drive: nat, blnr: nat, count: nat, i: nat)
    requires Usable(g) && drive < 4 && blnr < Blocks(g, g.tracks)
    requires OnSide(g, blnr) + count <= g.sect && i < Bytes(g, count)
    ensures Delivered(d, g, Split(g, drive, blnr).track, Split(g, drive, blnr), i) == d.image(Bytes(g, blnr) + i)
  {
    var c := Split(g, drive, blnr);
    assert c.head == (c.drive / 4) % 2 && c.sector == OnSide(g, blnr) + 1
        && BlockOf(g, c.track, c.head, c.sector) == blnr by { SplitExact(g, drive, blnr); }
    BytesAdd(g, count, g.sect - c.sector + 1 - count);
  }

  /** A READ command that was issued, and how many blocks were wanted from it. */
  datatype Request = Request(command: Command, count: nat)

  predicate StaysOnSide(g: Geometry, r: Request) {
    1 <= r.command.sector && r.command.sector - 1 + r.count <= g.sect
  }

  lemma {:induction false} RequestOnSide(g: Geometry, drive: nat, blnr: nat, count: nat)
    requires Usable(g) && drive < 4 && blnr < Blocks(g, g.tracks) && OnSide(g, blnr) + count <= g.sect
    ensures StaysOnSide(g, Request(Split(g, drive, blnr), count))
  {
    SplitExact(g, drive, blnr);
  }

  ghost predicate AllOnSide(g: Geometry, requests: seq<Request>) {
    forall i :: 0 <= i < |requests| ==> StaysOnSide(g, requests[i])
  }

  /** What follows a transfer error: read again, recalibrate and seek first, or stop. */
  datatype RetryStep = Again | Reseek | Stop | Broken

  datatype Outcome = Done | TimedOut | SeekError | GaveUp

  class Fdc {
    const geometry: Geometry
    const drive: Drive
    const unit: nat              // pCMD->drive
    var blnr: nat                // pCMD->blnr
    var clock: nat               // commands so far
    var at: int                  // the track the heads are on, or -1 if that is not known
    var errors: nat              // transfer errors in this call
    ghost var requests: seq<Request>

    ghost predicate Valid()
      reads this
    {
      Usable(geometry) && unit < 4
    }

    constructor (geometry: Geometry, drive: Drive, unit: nat, blnr: nat)
      requires Usable(geometry) && unit < 4
      ensures Valid() && this.geometry == geometry && this.drive == drive && this.unit == unit && this.blnr == blnr
    {
      this.geometry, this.drive, this.unit, this.blnr := geometry, drive, unit, blnr;
      clock, at, errors, requests := 0, -1, 0, [];
    }

    /** The heads are on the track of the current block. */
    ghost predicate OnTrack()
      requires Valid()
      reads this
    {
      at == Split(geometry, unit, blnr).track
    }

    /** fdc_seek and the test of the seek-end bit. */
    method Seek() returns (a: SeekAnswer)
      requires Valid()
      modifies this`clock, this`at
      ensures a == SeekEnd ==> OnTrack()
      ensures Obedient(drive) ==> a == SeekEnd
    {
      a := drive.seek(clock);
      at := if a == SeekEnd then Split(geometry, unit, blnr).track else -1;
      clock := clock + 1;
    }

    /** One READ command and its transfer; a fault leaves the bytes before it in the buffer. */
    method Transfer(buffer: array<byte>, offset: nat, readblk: nat, ghost origin: nat) returns (a: ReadAnswer)
      requires Valid() && OnTrack() && blnr < Blocks(geometry, geometry.tracks)
      requires OnSide(geometry, blnr) + readblk <= geometry.sect
      requires origin + offset == Bytes(geometry, blnr)
      requires offset + Bytes(geometry, readblk) <= buffer.Length && Holds(buffer[..], drive, origin, offset)
      modifies this`clock, this`requests, buffer
      ensures Valid() && requests == old(requests) + [Request(Split(geometry, unit, blnr), readblk)]
      ensures Holds(buffer[..], drive, origin, offset)
      ensures a == Clean ==> Holds(buffer[..], drive, origin, offset + Bytes(geometry, readblk))
      ensures (Obedient(drive) ==> a != ReadTimeout) && (Flawless(drive) ==> a == Clean)
    {
      var len := Bytes(geometry, readblk);
      var command := Split(geometry, unit, blnr);
      requests := requests + [Request(command, readblk)];
      a := drive.read(clock);
      clock := clock + 1;
      if a != ReadTimeout { a := ReceiveBytes(buffer, offset, len, command, readblk, a, origin); }
    }

    /** The byte loop: a fault is noticed when its byte is due, and one after the last byte is not. */
    method ReceiveBytes(buffer: array<byte>, offset: nat, len: nat, command: Command, ghost readblk: nat,
                        answer: ReadAnswer, ghost origin: nat) returns (a: ReadAnswer)
      requires Valid() && OnTrack() && blnr < Blocks(geometry, geometry.tracks)
      requires OnSide(geometry, blnr) + readblk <= geometry.sect && command == Split(geometry, unit, blnr)
      requires len == Bytes(geometry, readblk) && origin + offset == Bytes(geometry, blnr)
      requires offset + len <= buffer.Length && Holds(buffer[..], drive, origin, offset)
      modifies buffer
      ensures Holds(buffer[..], drive, origin, offset) && a != ReadTimeout && (answer == Clean ==> a == Clean)
      ensures a == Clean ==> Holds(buffer[..], drive, origin, offset + len)
    {
      var i := 0;
      while i < len
        invariant 0 <= i <= len && Holds(buffer[..], drive, origin, offset + i)
      {
        if answer == Fault(i) { return answer; }
        DeliversBlock(drive, geometry, unit, blnr, readblk, i);
        buffer[offset + i] := Delivered(drive, geometry, at, command, i);
        i := i + 1;
      }
      a := Clean;
    }

    /** One pass: a READ for the current chunk and, if it went through, the step to the next one. */
    method ReadChunk(buffer: array<byte>, offset: nat, blocks: nat, readblk: nat, ghost origin: nat, ghost end: nat,
                     ghost total: nat)
      returns (a: ReadAnswer, offset': nat, blocks': nat)
      requires Valid() && OnTrack()
      requires blnr + blocks <= Blocks(geometry, geometry.tracks) && blnr < Blocks(geometry, geometry.tracks)
      requires readblk == Min(geometry.sect - OnSide(geometry, blnr), blocks)
      requires Midway(geometry, drive, buffer[..], origin, offset, blnr, blocks, end, total) && total <= buffer.Length
      modifies this`clock, this`requests, this`blnr, buffer
      ensures Valid() && |requests| == |old(requests)| + 1 && requests[..|old(requests)|] == old(requests)
      ensures StaysOnSide(geometry, requests[|old(requests)|])
      ensures Midway(geometry, drive, buffer[..], origin, offset', blnr, blocks', end, total)
      ensures if a == Clean then blocks' == blocks - readblk && (blocks' > 0 ==> OnSide(geometry, blnr) == 0)
              else blocks' == blocks && blnr == old(blnr)
      ensures (Obedient(drive) ==> a != ReadTimeout) && (Flawless(drive) ==> a == Clean)
    {
      RequestOnSide(geometry, unit, blnr, readblk);
      BytesAdd(geometry, blocks - readblk, readblk);
      offset', blocks' := offset, blocks;
      a := Transfer(buffer, offset, readblk, origin);
      if a == Clean {
        NextChunk(geometry, blnr, blocks, readblk);
        BytesAdd(geometry, blnr, readblk);
        offset' := offset + Bytes(geometry, readblk);
        blnr := blnr + readblk;
        blocks' := blocks - readblk;
      }
    }

    /** The two retry counters. Four errors in a row are just retried; the fifth costs one of four
        recalibrations; so each error counts one, and the 25th is fatal. */
    method CountError(rw: int, cal: int) returns (step: RetryStep, rw': int, cal': int)
      requires 0 <= rw <= 4 && 0 <= cal <= 4 && errors == 5 * cal + rw
      modifies this`errors, this`clock, this`at
      ensures errors == old(errors) + 1 && (step == Again ==> at == old(at))
      ensures step == Stop <==> errors == 25
      ensures step != Stop ==> errors == 5 * cal' + rw' && 0 <= rw' <= 4 && 0 <= cal' <= 4
      ensures Obedient(drive) ==> step != Broken
    {
      errors := errors + 1;
      rw', cal' := rw + 1, cal;
      if rw <= RW_RETRIES { return Again, rw', cal'; }
      cal' := cal + 1;
      if cal > CAL_RETRIES { return Stop, rw', cal'; }
      var ok := drive.recalibrate(clock);
      at := if ok then 0 else -1;
      clock := clock + 1;
      rw' := 0;
      step := if ok then Reseek else Broken;
    }

    /** A seek and the look at its status. */
    method GoToBlock() returns (stop: Option<Outcome>)
      requires Valid()
      modifies this`clock, this`at
      ensures stop.None? ==> OnTrack()
      ensures stop.Some? ==> stop.value == TimedOut || stop.value == SeekError
      ensures Obedient(drive) ==> stop.None?
    {
      var s := Seek();
      stop := if s == SeekEnd then None else Some(if s == SeekTimeout then TimedOut else SeekError);
    }

    /** What follows a transfer error: the same chunk again, after a recalibration and a seek if it is the
        fifth in a row. */
    method Recover(rw: int, cal: int) returns (stop: Option<Outcome>, rw': int, cal': int)
      requires Valid() && OnTrack() && 0 <= rw <= 4 && 0 <= cal <= 4 && errors == 5 * cal + rw
      modifies this`errors, this`clock, this`at
      ensures stop.None? ==> OnTrack()
      ensures errors == old(errors) + 1 && (stop == Some(GaveUp) <==> errors == 25) && stop != Some(Done)
      ensures stop.None? ==> errors == 5 * cal' + rw' && 0 <= rw' <= 4 && 0 <= cal' <= 4
      ensures Obedient(drive) ==> stop.None? || stop == Some(GaveUp)
    {
      var step;
      step, rw', cal' := CountError(rw, cal);
      match step
      case Again => stop := None;
      case Stop => stop := Some(GaveUp);
      case Broken => stop := Some(TimedOut);
      case Reseek => stop := GoToBlock();
    }

    /** fdc_read_data. If it reports success, the buffer holds the blocks asked for, the block number
        has advanced by them, and at most 24 transfer errors were survived; it gives up exactly at the
        25th. A drive that always does what it is told lets it end in one of these two ways, and one that
        also makes no error lets it succeed. No READ command ever crosses a track side. */
    method ReadData(buffer: array<byte>, blocks0: nat) returns (outcome: Outcome)
      requires Valid() && blnr + blocks0 <= Blocks(geometry, geometry.tracks)
      requires blocks0 > 0 || blnr < Blocks(geometry, geometry.tracks)
      requires Bytes(geometry, blocks0) <= buffer.Length
      modifies this, buffer
      ensures Valid()
      ensures outcome == Done ==> blnr == old(blnr) + blocks0 && errors <= 24
      ensures outcome == Done ==>
        Holds(buffer[..], drive, Bytes(geometry, old(blnr)), Bytes(geometry, blocks0))
      ensures outcome == GaveUp <==> errors == 25
      ensures Obedient(drive) ==> outcome == Done || outcome == GaveUp
      ensures Flawless(drive) ==> outcome == Done && errors == 0
      ensures AllOnSide(geometry, requests)
    {
      ghost var origin, end, total := Bytes(geometry, blnr), blnr + blocks0, Bytes(geometry, blocks0);
      errors, requests := 0, [];
      var retriesrw, retriescal := 0, 0;
      var offset: nat, blocks: nat := 0, blocks0;
      var s := GoToBlock();
      if s.Some? { return s.value; }
      var readblk := geometry.sect - OnSide(geometry, blnr);
      if readblk > blocks { readblk := blocks; }
      var stop: Option<Outcome> := None;
      while stop.None?
        invariant Valid() && AllOnSide(geometry, requests)
        invariant stop.None? ==> OnTrack() && Counted(retriesrw, retriescal) && (blocks > 0 || blocks0 == 0)
        invariant stop.None? ==> readblk == Min(geometry.sect - OnSide(geometry, blnr), blocks)
        invariant Midway(geometry, drive, buffer[..], origin, offset, blnr, blocks, end, total)
        invariant stop == Some(Done) ==> blocks == 0
        invariant Ending(stop)
        decreases stop.None?, blocks, 25 - errors
      {
        stop, offset, blocks, readblk, retriesrw, retriescal :=
          Turn(buffer, offset, blocks, readblk, retriesrw, retriescal, origin, end, total);
      }
      outcome := stop.value;
    }

    /** The retry counters count the errors. */
    ghost predicate Counted(rw: int, cal: int)
      reads this
    {
      0 <= rw <= 4 && 0 <= cal <= 4 && errors == 5 * cal + rw
    }

    /** What is known of the way the call ends. */
    ghost predicate Ending(stop: Option<Outcome>)
      reads this
    {
      && (stop == Some(Done) ==> errors <= 24) && (stop == Some(GaveUp) <==> errors == 25)
      && (Obedient(drive) ==> stop.None? || stop == Some(Done) || stop == Some(GaveUp))
      && (Flawless(drive) ==> stop != Some(GaveUp) && errors == 0)
    }

    /** One pass through the loop: a chunk, and what follows it. */
    method Turn(buffer: array<byte>, offset0: nat, blocks0: nat, readblk0: nat, rw0: int, cal0: int,
                ghost origin: nat, ghost end: nat, ghost total: nat)
      returns (stop: Option<Outcome>, offset: nat, blocks: nat, readblk: nat, rw: int, cal: int)
      requires Valid() && OnTrack()
      requires end <= Blocks(geometry, geometry.tracks) && blnr < Blocks(geometry, geometry.tracks)
      requires readblk0 == Min(geometry.sect - OnSide(geometry, blnr), blocks0) && Counted(rw0, cal0)
      requires Midway(geometry, drive, buffer[..], origin, offset0, blnr, blocks0, end, total) && total <= buffer.Length
      requires AllOnSide(geometry, requests) && Ending(None)
      modifies this, buffer
      ensures Valid() && AllOnSide(geometry, requests) && Ending(stop)
      ensures Midway(geometry, drive, buffer[..], origin, offset, blnr, blocks, end, total)
      ensures stop == Some(Done) ==> blocks == 0
      ensures stop.None? ==> OnTrack()
      ensures stop.None? ==> Counted(rw, cal) && readblk == Min(geometry.sect - OnSide(geometry, blnr), blocks)
      ensures stop.None? ==> if errors == old(errors) then 0 < blocks < blocks0
                             else errors == old(errors) + 1 && blocks == blocks0 && blnr == old(blnr)
    {
      var a;
      rw, cal, readblk := rw0, cal0, readblk0;
      a, offset, blocks := ReadChunk(buffer, offset0, blocks0, readblk, origin, end, total);
      if a == ReadTimeout { return Some(TimedOut), offset, blocks, readblk, rw, cal; }
      if a.Fault? {
        stop, rw, cal := Recover(rw, cal);
      } else if blocks == 0 {
        stop := Some(Done);
      } else {
        readblk := geometry.sect;
        if readblk > blocks { readblk := blocks; }
        stop := GoToBlock();
      }
    }
  }

  /** The first `n` bytes of the buffer are the disk from byte `origin` on. */
  ghost predicate Holds(buffer: seq<byte>, d: Drive, origin: nat, n: nat) {
    n <= |buffer| && forall j :: 0 <= j < n ==> buffer[j] == d.image(origin + j)
  }

  /** The blocks before block `blnr` are in the buffer, and `blocks` are still to come. */
  ghost predicate Midway(g: Geometry, d: Drive, buffer: seq<byte>, origin: nat, offset: nat, blnr: nat, blocks: nat,
                         end: nat, total: nat)
  {
    && blnr + blocks == end && origin + offset == Bytes(g, blnr) && offset + Bytes(g, blocks) == total
    && Holds(buffer, d, origin, offset)
  }

  /** After a chunk that was not the last one, the next block starts a track side. */
  lemma {:induction false} NextChunk(g: Geometry, blnr: nat, blocks: nat, readblk: nat)
    requires Usable(g) && readblk == Min(g.sect - OnSide(g, blnr), blocks)
    ensures readblk < blocks ==> OnSide(g, blnr + readblk) == 0
    ensures readblk == 0 ==> blocks == 0
  {
    OnSideIs(g, blnr);
    OnSideIs(g, blnr + readblk);
    var q := blnr / g.sect;
    if readblk < blocks {
      assert blnr + readblk == g.sect * (q + 1) + 0 by { assert blnr == g.sect * q + OnSide(g, blnr); }
      RemainderUnique(blnr + readblk, g.sect, q + 1, 0);
    }
  }
}
