/** Control-character quoting: the encoding chapter 6 of the Kermit Protocol Manual
    (Sixth Edition) asks of a sender, and the one-character decoder of cmd_load.c. */
module KermitCoding {
  import opened Machine

  /** ktrans: `(in & 0x60) == 0x40` says that bits 6..5 are 10, and clearing bit 6
      then subtracts 64; `(in & 0x7f) == 0x3f` is '?' with any eighth bit. */
  function Ktrans(c: byte): byte {
    if (c / 32) % 4 == 2 then c - 64
    else if c % 128 == 63 then c + 64
    else c
  }

  /** The bytes that k_data_char passes on for `text`, starting with the given escape flag. */
  function Decode(quote: byte, escape: bool, text: seq<byte>): seq<byte>
    decreases text
  {
    if text == [] then []
    else if escape then [Ktrans(text[0])] + Decode(quote, false, text[1..])
    else if text[0] == quote then Decode(quote, true, text[1..])
    else [text[0]] + Decode(quote, false, text[1..])
  }

  /** The escape flag that k_data_char leaves behind. */
  function EscapeAfter(quote: byte, escape: bool, text: seq<byte>): bool
    decreases text
  {
    if text == [] then escape
    else EscapeAfter(quote, !escape && text[0] == quote, text[1..])
  }

  lemma {:induction false} OneChar(quote: byte, escape: bool, c: byte)
    ensures EscapeAfter(quote, escape, [c]) == (!escape && c == quote)
    ensures Decode(quote, escape, [c])
         == (if escape then [Ktrans(c)] else if c == quote then [] else [c])
  {
    var text := [c];
    assert text[1..] == [];
  }

  /** A quote character the manual allows a sender to announce. */
  predicate LegalQuote(q: byte) {
    33 <= q <= 62 || 96 <= q <= 126
  }

  /** Control characters are those whose low seven bits are 0..31 or 127. */
  predicate IsControl(b: byte) {
    b % 128 < 32 || b % 128 == 127
  }

  /** The manual's ctl(): complement bit 6. */
  function Ctl(b: byte): byte {
    if (b / 64) % 2 == 1 then b - 64 else b + 64
  }

  /** The manual's encoding of one byte when eighth-bit prefixing has been refused. */
  function EncodeByte(q: byte, b: byte): seq<byte> {
    if IsControl(b) then [q, Ctl(b)]
    else if b % 128 == q then [q, b]
    else [b]
  }

  function Encode(q: byte, bytes: seq<byte>): seq<byte> {
    if bytes == [] then [] else EncodeByte(q, bytes[0]) + Encode(q, bytes[1..])
  }

  /** Decoding does not care where a text is cut, even between a quote character and
      the character it quotes: the flag carries over. */
  lemma {:induction false} DecodeAppend(quote: byte, escape: bool, a: seq<byte>, b: seq<byte>)
    ensures Decode(quote, escape, a + b)
         == Decode(quote, escape, a) + Decode(quote, EscapeAfter(quote, escape, a), b)
    ensures EscapeAfter(quote, escape, a + b)
         == EscapeAfter(quote, EscapeAfter(quote, escape, a), b)
    decreases a
  {
    if a == [] {
      assert a + b == b;
    } else {
      assert (a + b)[1..] == a[1..] + b;
      DecodeAppend(quote, !escape && a[0] == quote, a[1..], b);
    }
  }

  lemma {:induction false} DecodeOne(quote: byte, b: byte)
    requires LegalQuote(quote)
    ensures Decode(quote, false, EncodeByte(quote, b)) == [b]
    ensures !EscapeAfter(quote, false, EncodeByte(quote, b))
  {
    var e := EncodeByte(quote, b);
    if |e| == 1 {
      assert e[1..] == [];
    } else {
      assert e[0] == quote && Ktrans(e[1]) == b;
      var f := e[1..];
      assert f == [e[1]] && f[1..] == [];
      assert Decode(quote, true, f) == [b] && !EscapeAfter(quote, true, f);
    }
  }

  /** Decoding the manual's form of any byte string returns the string. */
  lemma {:induction false} RoundTrip(quote: byte, bytes: seq<byte>)
    requires LegalQuote(quote)
    ensures Decode(quote, false, Encode(quote, bytes)) == bytes
    ensures !EscapeAfter(quote, false, Encode(quote, bytes))
  {
    if bytes != [] {
      DecodeOne(quote, bytes[0]);
      RoundTrip(quote, bytes[1..]);
      DecodeAppend(quote, false, EncodeByte(quote, bytes[0]), Encode(quote, bytes[1..]));
    }
  }

  /** Among the graphic characters the legal ones are exactly those with which every
      byte string survives: with any other, the quote character itself does not. */
  lemma {:induction false} RoundTripIffLegal(quote: byte)
    requires 33 <= quote <= 126
    ensures LegalQuote(quote)
       <==> forall bytes: seq<byte> :: Decode(quote, false, Encode(quote, bytes)) == bytes
  {
    if LegalQuote(quote) {
      forall bytes: seq<byte> ensures Decode(quote, false, Encode(quote, bytes)) == bytes {
        RoundTrip(quote, bytes);
      }
    } else {
      var bytes: seq<byte> := [quote];
      assert Encode(quote, bytes) == [quote, quote] by { assert bytes[1..] == []; }
      assert [quote, quote][1..] == [quote];
      assert Decode(quote, true, [quote]) == [Ktrans(quote)] by { assert [quote][1..] == []; }
      assert Decode(quote, false, Encode(quote, bytes)) != bytes;
    }
  }

  /** Everything a sender puts in a packet passes the receiver's test for control
      characters, `(new_char & 0xE0) != 0`. */
  lemma {:induction false} EncodeIsGraphic(quote: byte, bytes: seq<byte>)
    requires LegalQuote(quote)
    ensures forall c :: c in Encode(quote, bytes) ==> c >= 32
  {
    if bytes != [] { EncodeIsGraphic(quote, bytes[1..]); }
  }

  /** A packet that does not end in the middle of a quoted pair carries at least one byte. */
  lemma {:induction false} DecodeNonempty(quote: byte, text: seq<byte>)
    requires text != [] && !EscapeAfter(quote, false, text)
    ensures Decode(quote, false, text) != []
  {
    if text[0] == quote && |text| > 1 {
      assert text[1..] != [];
    }
  }
}
