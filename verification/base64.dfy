/**
 * The basic Base64 alphabet and encoding of section 4 of RFC 4648, as
 * java.util.Base64.getEncoder() writes it (always padded with '=') and
 * java.util.Base64.getDecoder() reads it (padding optional on the last group).
 */
module Base64 {
  import opened Wrappers
  import opened JavaTypes

  /** A character of the Base64 alphabet: A-Z, a-z, 0-9, '+', '/'. */
  predicate IsBase64Char(c: char) {
    'A' <= c <= 'Z' || 'a' <= c <= 'z' || '0' <= c <= '9' || c == '+' || c == '/'
  }

  /** The alphabet character for a 6-bit value. */
  function SextetChar(v: nat): (c: char)
    requires v < 64
    ensures IsBase64Char(c)
  {
    if v < 26 then ('A' as int + v) as char
    else if v < 52 then ('a' as int + v - 26) as char
    else if v < 62 then ('0' as int + v - 52) as char
    else if v == 62 then '+'
    else '/'
  }

  /** The 6-bit value of an alphabet character; None for anything else, '=' included. */
  function SextetValue(c: char): (r: Option<nat>)
    ensures r.Some? ==> r.value < 64 && SextetChar(r.value) == c
  {
    if 'A' <= c <= 'Z' then Some(c as int - 'A' as int)
    else if 'a' <= c <= 'z' then Some(c as int - 'a' as int + 26)
    else if '0' <= c <= '9' then Some(c as int - '0' as int + 52)
    else if c == '+' then Some(62)
    else if c == '/' then Some(63)
    else None
  }

  lemma SextetRoundTrip(v: nat)
    requires v < 64
    ensures SextetValue(SextetChar(v)) == Some(v)
  {
  }

  /** Encoded text: groups of four characters, the last padded with '=' when the input length is not a multiple of three. */
  function Encode(bs: seq<Byte>): (s: string)
    ensures |s| % 4 == 0 && (|s| == 0 <==> |bs| == 0)
    decreases |bs|
  {
    if |bs| == 0 then ""
    else if |bs| == 1 then EncodeOne(bs[0])
    else if |bs| == 2 then EncodeTwo(bs[0], bs[1])
    else
      var rest := Encode(bs[3..]);
      GroupMultiple(|rest|);
      EncodeThree(bs[0], bs[1], bs[2]) + rest
  }

  /** One more group of four keeps the length a multiple of four. */
  lemma GroupMultiple(k: nat)
    requires k % 4 == 0
    ensures (4 + k) % 4 == 0
  {
  }

  /** A last single byte: two characters and two '='. */
  function EncodeOne(b0: Byte): (g: string)
    ensures |g| == 4 && g[2] == '=' && g[3] == '=' && IsBase64Char(g[0]) && IsBase64Char(g[1])
  {
    [SextetChar(b0 / 4), SextetChar(b0 % 4 * 16), '=', '=']
  }

  /** Two last bytes: three characters and one '='. */
  function EncodeTwo(b0: Byte, b1: Byte): (g: string)
    ensures |g| == 4 && g[3] == '=' && IsBase64Char(g[0]) && IsBase64Char(g[1]) && IsBase64Char(g[2])
  {
    [SextetChar(b0 / 4), SextetChar(b0 % 4 * 16 + b1 / 16), SextetChar(b1 % 16 * 4), '=']
  }

  /** A full group of three bytes: four characters. */
  function EncodeThree(b0: Byte, b1: Byte, b2: Byte): (g: string)
    ensures |g| == 4 && forall i :: 0 <= i < 4 ==> IsBase64Char(g[i])
  {
    [SextetChar(b0 / 4), SextetChar(b0 % 4 * 16 + b1 / 16),
     SextetChar(b1 % 16 * 4 + b2 / 64), SextetChar(b2 % 64)]
  }

  /** The bytes of a final group of two characters (one byte; the low four bits of the second are dropped). */
  function DecodeTwo(c0: char, c1: char): Option<seq<Byte>> {
    var v0, v1 := SextetValue(c0), SextetValue(c1);
    if v0.None? || v1.None? then None
    else Some([v0.value * 4 + v1.value / 16])
  }

  /** The bytes of a final group of three characters (two bytes). */
  function DecodeThree(c0: char, c1: char, c2: char): Option<seq<Byte>> {
    var v0, v1, v2 := SextetValue(c0), SextetValue(c1), SextetValue(c2);
    if v0.None? || v1.None? || v2.None? then None
    else Some([v0.value * 4 + v1.value / 16, v1.value % 16 * 16 + v2.value / 4])
  }

  /** The bytes of a full group of four characters (three bytes). */
  function DecodeFour(c0: char, c1: char, c2: char, c3: char): Option<seq<Byte>> {
    var v0, v1, v2, v3 := SextetValue(c0), SextetValue(c1), SextetValue(c2), SextetValue(c3);
    if v0.None? || v1.None? || v2.None? || v3.None? then None
    else Some([v0.value * 4 + v1.value / 16, v1.value % 16 * 16 + v2.value / 4, v2.value % 4 * 64 + v3.value])
  }

  /**
   * Decoding as the basic decoder does it: full groups of four, and a last
   * group of two or three characters, either bare or padded to four with '='.
   * A single leftover character, padding anywhere but at the very end, or a
   * character outside the alphabet is an IllegalArgumentException (None).
   */
  function Decode(s: string): (r: Option<seq<Byte>>)
    decreases |s|
  {
    if |s| == 0 then Some([])
    else if |s| == 1 then None
    else if |s| == 2 then DecodeTwo(s[0], s[1])
    else if |s| == 3 then DecodeThree(s[0], s[1], s[2])
    else if |s| == 4 && s[2] == '=' && s[3] == '=' then DecodeTwo(s[0], s[1])
    else if |s| == 4 && s[3] == '=' then DecodeThree(s[0], s[1], s[2])
    else
      var head := DecodeFour(s[0], s[1], s[2], s[3]);
      var tail := Decode(s[4..]);
      if head.None? || tail.None? then None else Some(head.value + tail.value)
  }

  lemma DecodeOneByte(b0: Byte)
    ensures DecodeTwo(EncodeOne(b0)[0], EncodeOne(b0)[1]) == Some([b0])
  {
    SextetRoundTrip(b0 / 4);
    SextetRoundTrip(b0 % 4 * 16);
  }

  lemma DecodeTwoBytes(b0: Byte, b1: Byte)
    ensures var g := EncodeTwo(b0, b1); DecodeThree(g[0], g[1], g[2]) == Some([b0, b1])
  {
    var v0, v1, v2 := b0 / 4, b0 % 4 * 16 + b1 / 16, b1 % 16 * 4;
    SextetRoundTrip(v0);
    SextetRoundTrip(v1);
    SextetRoundTrip(v2);
    assert v1 / 16 == b0 % 4 && v1 % 16 == b1 / 16 && v2 / 4 == b1 % 16;
  }

  /** A full group of three bytes encodes to four alphabet characters that decode back to them. */
  lemma DecodeGroup(b0: Byte, b1: Byte, b2: Byte)
    ensures var g := EncodeThree(b0, b1, b2); DecodeFour(g[0], g[1], g[2], g[3]) == Some([b0, b1, b2])
  {
    var v0, v1 := b0 / 4, b0 % 4 * 16 + b1 / 16;
    var v2, v3 := b1 % 16 * 4 + b2 / 64, b2 % 64;
    SextetRoundTrip(v0);
    SextetRoundTrip(v1);
    SextetRoundTrip(v2);
    SextetRoundTrip(v3);
    assert v1 / 16 == b0 % 4 && v1 % 16 == b1 / 16;
    assert v2 / 4 == b1 % 16 && v2 % 4 == b2 / 64;
  }

  /** Decoding what the encoder wrote gives the bytes back. */
  lemma {:induction false} DecodeEncode(bs: seq<Byte>)
    ensures Decode(Encode(bs)) == Some(bs)
    decreases |bs|
  {
    if |bs| == 1 {
      DecodeEncodeOne(bs);
    } else if |bs| == 2 {
      DecodeEncodeTwo(bs);
    } else if |bs| >= 3 {
      DecodeEncode(bs[3..]);
      EncodeGroup(bs);
      SplitGroup(bs);
      DecodeEncodeStep(bs[0], bs[1], bs[2], Encode(bs[3..]), bs[3..]);
    }
  }

  lemma DecodeEncodeOne(bs: seq<Byte>)
    requires |bs| == 1
    ensures Decode(Encode(bs)) == Some(bs)
  {
    DecodeOneByte(bs[0]);
    assert bs == [bs[0]];
  }

  lemma DecodeEncodeTwo(bs: seq<Byte>)
    requires |bs| == 2
    ensures Decode(Encode(bs)) == Some(bs)
  {
    var g := EncodeTwo(bs[0], bs[1]);
    assert Encode(bs) == g;
    DecodeTwoBytes(bs[0], bs[1]);
    assert !IsBase64Char('=');
    assert Decode(g) == DecodeThree(g[0], g[1], g[2]);
    assert bs == [bs[0], bs[1]];
  }

  lemma DecodeEncodeStep(b0: Byte, b1: Byte, b2: Byte, t: string, rest: seq<Byte>)
    requires Decode(t) == Some(rest)
    ensures Decode(EncodeThree(b0, b1, b2) + t) == Some([b0, b1, b2] + rest)
  {
    DecodeGroup(b0, b1, b2);
    DecodeFullGroupFirst(EncodeThree(b0, b1, b2), t);
  }

  /** Three or more bytes: a full group, then the rest. */
  lemma EncodeGroup(bs: seq<Byte>)
    requires |bs| >= 3
    ensures Encode(bs) == EncodeThree(bs[0], bs[1], bs[2]) + Encode(bs[3..])
  {
  }

  /** The first three bytes and the rest make up the whole. */
  lemma SplitGroup(bs: seq<Byte>)
    requires |bs| >= 3
    ensures [bs[0], bs[1], bs[2]] + bs[3..] == bs
  {
    assert bs[..3] == [bs[0], bs[1], bs[2]];
    assert bs == bs[..3] + bs[3..];
  }

  /** A full group of four alphabet characters in front decodes on its own. */
  lemma DecodeFullGroupFirst(g: string, t: string)
    requires |g| == 4 && forall i :: 0 <= i < 4 ==> IsBase64Char(g[i])
    ensures Decode(g + t) ==
      var head, tail := DecodeFour(g[0], g[1], g[2], g[3]), Decode(t);
      if head.None? || tail.None? then None else Some(head.value + tail.value)
  {
    var s := g + t;
    assert s[4..] == t;
    assert s[3] != '=';
  }

  /** Encoded text uses only the alphabet and '=': no space and no line break. */
  lemma {:induction false} EncodeChars(bs: seq<Byte>)
    ensures forall i :: 0 <= i < |Encode(bs)| ==> IsBase64Char(Encode(bs)[i]) || Encode(bs)[i] == '='
    decreases |bs|
  {
    if |bs| >= 3 {
      EncodeChars(bs[3..]);
      var g, t := EncodeThree(bs[0], bs[1], bs[2]), Encode(bs[3..]);
      assert Encode(bs) == g + t;
      forall i | 0 <= i < |g + t| ensures IsBase64Char((g + t)[i]) || (g + t)[i] == '=' {
        if i >= 4 { assert (g + t)[i] == t[i - 4]; }
      }
    }
  }

  /** The empty byte array, and only it, encodes to the empty string. */
  lemma EncodeEmpty(bs: seq<Byte>)
    ensures Encode(bs) == "" <==> bs == []
  {
  }
}
