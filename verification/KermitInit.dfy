/** The Send-Init packet of chapter 6 of the Kermit Protocol Manual (Sixth Edition), built from its fields,
    and what the receiver of cmd_load.c takes from it and offers in return. */
module KermitInit {
  import opened Machine
  import opened KermitCoding
  import opened KermitFrame
  import opened KermitProtocol

  /** What a station announces: the longest packet, the time-out, how many padding characters it needs and
      which, the end of line it needs, its quote character; then the fields from QBIN on, as characters. */
  datatype Fields = Fields(maxl: byte, time: byte, npad: byte, padc: byte, eol: byte, qctl: byte, more: seq<byte>)

  /** The manual's char(x): a number becomes a graphic character by adding a space. */
  function Char(x: byte): byte { if x < 224 then x + 32 else x - 224 }

  /** MAXL, TIME, NPAD, PADC, EOL, QCTL and the others, in this order. */
  function AllFields(f: Fields): seq<byte> {
    [Char(f.maxl), Char(f.time), Char(f.npad), Ctl(f.padc), Char(f.eol), f.qctl] + f.more
  }

  /** Any number of fields may be left off at the end. */
  function Announced(f: Fields, k: nat): seq<byte>
    requires k <= |AllFields(f)|
  {
    AllFields(f)[..k]
  }

  /** The quote character that an announcement of `k` fields stands for; '#' if it is not among them. */
  function QuoteOf(f: Fields, k: nat): byte {
    if k >= 6 then f.qctl else 35
  }

  /** No announcement is left out: every string is one. */
  lemma {:induction false} AnyAnnouncement(data: seq<byte>) returns (f: Fields)
    ensures |data| <= |AllFields(f)| && data == Announced(f, |data|)
  {
    var d := data + [32, 32, 32, 64, 32, 35];
    f := Fields(Unchar(d[0]), Unchar(d[1]), Unchar(d[2]), Ctl(d[3]), Unchar(d[4]), d[5],
                if |data| > 6 then data[6..] else []);
    forall i | 0 <= i < |data| ensures AllFields(f)[i] == data[i] {
      if i < 6 { CharTwice(d[0]); CharTwice(d[1]); CharTwice(d[2]); CharTwice(d[3]); CharTwice(d[4]); }
    }
  }

  /** The manual's unchar(x). */
  function Unchar(c: byte): byte { if c < 32 then c + 224 else c - 32 }

  lemma {:induction false} CharTwice(c: byte)
    ensures Char(Unchar(c)) == c && Ctl(Ctl(c)) == c && UnChar(Char(c)) == c
  {
  }

  /** ktrans undoes the manual's ctl() for control characters, and only for them. */
  lemma {:induction false} CtlTaken(c: byte)
    ensures Ktrans(Ctl(c)) == c <==> IsControl(c)
  {
    assert c % 128 < 64 ==> Ctl(c) == c + 64 && Ctl(c) % 128 == c % 128 + 64;
    assert c % 128 >= 64 ==> Ctl(c) == c - 64 && Ctl(c) % 128 == c % 128 - 64;
  }

  /** The receiver remembers exactly the end of line, the padding count and the quote character that were
      announced, and the manual's defaults for what was left off: CR, no padding, '#'. It remembers the padding
      character that was announced if and only if that is a control character, as the manual says it must be. */
  lemma {:induction false} FieldsTaken(f: Fields, k: nat)
    requires k <= |AllFields(f)|
    ensures var p := PeerFrom(Announced(f, k));
            && p.eol == (if k >= 5 then f.eol else 13) && p.padCount == (if k >= 3 then f.npad else 0)
            && p.quote == QuoteOf(f, k)
            && (if k < 4 then p.padChar == 0 else p.padChar == f.padc <==> IsControl(f.padc))
  {
    var data := Announced(f, k);
    CharTwice(f.npad);
    CharTwice(f.eol);
    CtlTaken(f.padc);
    assert k >= 3 ==> data[2] == Char(f.npad);
    assert k >= 4 ==> data[3] == Ctl(f.padc);
    assert k >= 5 ==> data[4] == Char(f.eol);
    assert k >= 6 ==> data[5] == f.qctl;
  }

  /** Before an S packet, and after one without fields, the defaults hold. */
  lemma {:induction false} NothingAnnounced(start: nat, mem: map<nat, byte>)
    ensures Initial(start, mem).peer == Peer(13, 0, 0, 35) == PeerFrom([])
  {
  }

  /** The quote character of an S packet: its sixth field. */
  function QuoteIn(data: seq<byte>): byte {
    if |data| >= 6 then data[5] else 35
  }

  lemma {:induction false} QuoteAnnounced(f: Fields, k: nat)
    requires k <= |AllFields(f)|
    ensures QuoteIn(Announced(f, k)) == QuoteOf(f, k)
  {
    assert k >= 6 ==> Announced(f, k)[5] == f.qctl;
  }

  // ---- What is offered ---------------------------------------------------------------

  /** The receiver's own fields: packets of 94 characters, a time-out of one second, no padding, CR, '#'; no
      eighth-bit prefix, block check 1, no repeat prefix, and long packets, no windows, of up to
      94 * 95 + 94 characters. */
  const OURS := Fields(94, 1, 0, 0, 13, 35, ['N' as int, '1' as int, 'N' as int, 32 + 2, 32 + 0, 32 + 94, 32 + 94])

  /** It offers a field for each one that was announced, and the fields from CAPAS on together. */
  lemma {:induction false} FieldsOffered(f: Fields, k: nat)
    requires k <= |AllFields(f)|
    ensures OurParams(Announced(f, k)) == Announced(OURS, if k >= 10 then 13 else k)
  {
    var all := AllFields(OURS);
    assert all == [126, 33, 32, 64, 45, 35] + [78, 49, 78, 34, 32, 126, 126];
    assert all == OUR_PARAMS + OUR_CAPABILITIES;
  }
}
