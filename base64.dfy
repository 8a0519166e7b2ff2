/**
 * The standard base64 encoding of RFC 4648 section 4 (alphabet A-Z a-z 0-9 + /,
 * padding '='), as Go's `base64.StdEncoding` implements it.  Strings are Go
 * strings, i.e. byte sequences.
 *
 * Decoding follows Go's non-strict decoder: carriage returns and line feeds are
 * skipped wherever they occur, padding is mandatory, and the unused low bits
 * of the last quantum are ignored (so decoding is not injective).
 */
module Base64 {
  import opened Wrappers

  type Byte = b: int | 0 <= b < 256
  type Bytes = seq<Byte>
  type Sextet = x: int | 0 <= x < 64

  const Pad: Byte := 61  // '='
  const LineFeed: Byte := 10
  const CarriageReturn: Byte := 13

  /** The character that encodes a 6-bit group. */
  function Alphabet(v: Sextet): (c: Byte)
    ensures c != Pad && c != LineFeed && c != CarriageReturn
  {
    if v < 26 then 65 + v        // 'A'..'Z'
    else if v < 52 then 71 + v   // 'a'..'z'
    else if v < 62 then v - 4    // '0'..'9'
    else if v == 62 then 43      // '+'
    else 47                      // '/'
  }

  /** The decoder's table: the 6-bit group a character stands for, if any. */
  function SextetOf(c: Byte): (r: Option<Sextet>)
    ensures r.Some? ==> Alphabet(r.value) == c
    ensures c == Pad || c == LineFeed || c == CarriageReturn ==> r.None?
  {
    if 65 <= c <= 90 then Some(c - 65)
    else if 97 <= c <= 122 then Some(c - 71)
    else if 48 <= c <= 57 then Some(c + 4)
    else if c == 43 then Some(62)
    else if c == 47 then Some(63)
    else None
  }

  lemma SextetOfAlphabet(v: Sextet)
    ensures SextetOf(Alphabet(v)) == Some(v)
  {
  }

  /** Encoding: every three bytes become four characters; a final group of
      one or two bytes is padded with "==" or "=". */
  function Encode(b: Bytes): (s: Bytes)
    ensures |s| == 4 * ((|b| + 2) / 3)
    ensures forall i :: 0 <= i < |s| ==> s[i] != LineFeed && s[i] != CarriageReturn
    decreases |b|
  {
    if |b| == 0 then []
    else if |b| == 1 then
      [Alphabet(b[0] / 4), Alphabet((b[0] % 4) * 16), Pad, Pad]
    else if |b| == 2 then
      [Alphabet(b[0] / 4), Alphabet((b[0] % 4) * 16 + b[1] / 16), Alphabet((b[1] % 16) * 4), Pad]
    else
      Quantum(b[0], b[1], b[2]) + Encode(b[3..])
  }

  /** Go's decoder ignores '\r' and '\n' everywhere in its input. */
  function StripNewlines(s: Bytes): (r: Bytes)
    ensures |r| <= |s|
    ensures forall i :: 0 <= i < |r| ==> r[i] != LineFeed && r[i] != CarriageReturn
    ensures (forall i :: 0 <= i < |s| ==> s[i] != LineFeed && s[i] != CarriageReturn) ==> r == s
  {
    if s == [] then []
    else if s[0] == LineFeed || s[0] == CarriageReturn then StripNewlines(s[1..])
    else [s[0]] + StripNewlines(s[1..])
  }

  /** Line breaks are dropped wherever they stand; every other byte is kept,
      in order. */
  lemma {:induction false} StripNewlinesConcat(a: Bytes, b: Bytes)
    ensures StripNewlines(a + b) == StripNewlines(a) + StripNewlines(b)
    decreases |a|
  {
    if a == [] {
      assert a + b == b;
    } else {
      assert (a + b)[1..] == a[1..] + b;
      StripNewlinesConcat(a[1..], b);
    }
  }

  /** Decoding does not see a '\r' or '\n' anywhere in its input. */
  lemma DecodeIgnoresNewline(a: Bytes, c: Byte, b: Bytes)
    requires c == LineFeed || c == CarriageReturn
    ensures Decode(a + [c] + b) == Decode(a + b)
  {
    assert StripNewlines([c]) == [];
    StripNewlinesConcat(a, [c]);
    assert StripNewlines(a + [c]) == StripNewlines(a);
    StripNewlinesConcat(a + [c], b);
    StripNewlinesConcat(a, b);
    assert StripNewlines(a + [c] + b) == StripNewlines(a + b);
  }

  /** Decodes a newline-free input quantum by quantum.  Padding may only end
      the input: "xx==" yields one byte, "xxx=" two; anything after the
      padding, a missing '=', an incomplete quantum or a character outside the
      alphabet is an error. */
  function DecodeQuanta(s: Bytes): (r: Option<Bytes>)
    ensures r.Some? ==> |r.value| <= 3 * |s| / 4
    decreases |s|
  {
    if |s| == 0 then Some([])
    else if |s| < 4 then None
    else
      var c0, c1, c2, c3 := SextetOf(s[0]), SextetOf(s[1]), SextetOf(s[2]), SextetOf(s[3]);
      if c0.None? || c1.None? then None
      else if s[2] == Pad then
        if s[3] == Pad && |s| == 4 then Some([c0.value * 4 + c1.value / 16]) else None
      else if c2.None? then None
      else if s[3] == Pad then
        if |s| == 4 then Some([c0.value * 4 + c1.value / 16, (c1.value % 16) * 16 + c2.value / 4])
        else None
      else if c3.None? then None
      else
        match DecodeQuanta(s[4..])
        case None => None
        case Some(rest) =>
          Some([c0.value * 4 + c1.value / 16, (c1.value % 16) * 16 + c2.value / 4,
                (c2.value % 4) * 64 + c3.value] + rest)
  }

  /** `base64.StdEncoding.DecodeString`; None is the decoder's error. */
  function Decode(s: Bytes): (r: Option<Bytes>)
    ensures r.Some? ==> |r.value| <= 3 * |s| / 4
  {
    DecodeQuanta(StripNewlines(s))
  }

  /** The four characters that encode three bytes. */
  function Quantum(b0: Byte, b1: Byte, b2: Byte): (q: Bytes)
    ensures |q| == 4
  {
    [Alphabet(b0 / 4), Alphabet((b0 % 4) * 16 + b1 / 16),
     Alphabet((b1 % 16) * 4 + b2 / 64), Alphabet(b2 % 64)]
  }

  lemma FirstByte(b0: Byte, b1: Byte)
    ensures (b0 / 4) * 4 + ((b0 % 4) * 16 + b1 / 16) / 16 == b0
  {
    assert ((b0 % 4) * 16 + b1 / 16) / 16 == b0 % 4;
  }

  lemma SecondByte(b1: Byte, c1: Sextet, b2: Byte)
    requires c1 % 16 == b1 / 16
    ensures (c1 % 16) * 16 + ((b1 % 16) * 4 + b2 / 64) / 4 == b1
  {
    assert ((b1 % 16) * 4 + b2 / 64) / 4 == b1 % 16;
  }

  lemma ThirdByte(b1: Byte, b2: Byte)
    ensures (((b1 % 16) * 4 + b2 / 64) % 4) * 64 + b2 % 64 == b2
  {
    assert ((b1 % 16) * 4 + b2 / 64) % 4 == b2 / 64;
  }

  lemma DecodeQuantum(b0: Byte, b1: Byte, b2: Byte, rest: Bytes)
    ensures DecodeQuanta(Quantum(b0, b1, b2) + rest) ==
      match DecodeQuanta(rest)
      case None => None
      case Some(r) => Some([b0, b1, b2] + r)
  {
    var c1, c2 := (b0 % 4) * 16 + b1 / 16, (b1 % 16) * 4 + b2 / 64;
    var s := Quantum(b0, b1, b2) + rest;
    SextetOfAlphabet(b0 / 4);
    SextetOfAlphabet(c1);
    SextetOfAlphabet(c2);
    SextetOfAlphabet(b2 % 64);
    FirstByte(b0, b1);
    SecondByte(b1, c1, b2);
    ThirdByte(b1, b2);
    assert s[4..] == rest;
  }

  lemma DecodeOneByte(b0: Byte)
    ensures DecodeQuanta([Alphabet(b0 / 4), Alphabet((b0 % 4) * 16), Pad, Pad]) == Some([b0])
  {
    SextetOfAlphabet(b0 / 4);
    SextetOfAlphabet((b0 % 4) * 16);
    assert ((b0 % 4) * 16) / 16 == b0 % 4;
  }

  lemma DecodeTwoBytes(b0: Byte, b1: Byte)
    ensures DecodeQuanta([Alphabet(b0 / 4), Alphabet((b0 % 4) * 16 + b1 / 16),
                          Alphabet((b1 % 16) * 4), Pad]) == Some([b0, b1])
  {
    SextetOfAlphabet(b0 / 4);
    SextetOfAlphabet((b0 % 4) * 16 + b1 / 16);
    SextetOfAlphabet((b1 % 16) * 4);
    FirstByte(b0, b1);
    assert ((b1 % 16) * 4) / 4 == b1 % 16;
  }

  lemma {:induction false} DecodeQuantaEncode(b: Bytes)
    ensures DecodeQuanta(Encode(b)) == Some(b)
    decreases |b|
  {
    if |b| == 0 {
    } else if |b| == 1 {
      DecodeOneByte(b[0]);
      assert b == [b[0]];
    } else if |b| == 2 {
      DecodeTwoBytes(b[0], b[1]);
      assert b == [b[0], b[1]];
    } else {
      DecodeQuantum(b[0], b[1], b[2], Encode(b[3..]));
      DecodeQuantaEncode(b[3..]);
      assert b == [b[0], b[1], b[2]] + b[3..];
    }
  }

  /** Decoding inverts encoding. */
  lemma DecodeEncode(b: Bytes)
    ensures Decode(Encode(b)) == Some(b)
  {
    DecodeQuantaEncode(b);
  }

  /** Encoding is injective, and empty exactly for the empty input. */
  lemma EncodeInjective(a: Bytes, b: Bytes)
    ensures Encode(a) == Encode(b) ==> a == b
    ensures Encode(a) == [] <==> a == []
  {
    DecodeEncode(a);
    DecodeEncode(b);
  }
}
