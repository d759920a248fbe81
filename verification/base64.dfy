/** Base64 text encoding with the standard alphabet and `=` padding, as in
    section 4 of RFC 4648. The password store keeps its salt-and-key bytes
    in this form. */
module Base64 {
  import opened Wrappers

  type Byte = b: int | 0 <= b < 256

  /** The value of one Base64 digit. */
  type Sextet = s: int | 0 <= s < 64

  /** The alphabet of section 4 of RFC 4648 (Table 1). */
  function DigitChar(s: Sextet): (c: char)
    ensures c != '='
  {
    if s < 26 then (65 + s) as char
    else if s < 52 then (97 + (s - 26)) as char
    else if s < 62 then (48 + (s - 52)) as char
    else if s == 62 then '+'
    else '/'
  }

  /** The value of a digit of the alphabet; `None` for any other character. */
  function DigitValue(c: char): (r: Option<Sextet>)
    ensures r.Some? ==> DigitChar(r.value) == c
  {
    if 'A' <= c <= 'Z' then Some(c as int - 65)
    else if 'a' <= c <= 'z' then Some(c as int - 97 + 26)
    else if '0' <= c <= '9' then Some(c as int - 48 + 52)
    else if c == '+' then Some(62)
    else if c == '/' then Some(63)
    else None
  }

  lemma DigitRoundTrip(s: Sextet)
    ensures DigitValue(DigitChar(s)) == Some(s)
  {
  }

  /** The four digits of a full three-byte group. */
  function EncodeGroup(b0: Byte, b1: Byte, b2: Byte): (q: string)
    ensures |q| == 4 && '=' !in q
  {
    [DigitChar(b0 / 4), DigitChar(b0 % 4 * 16 + b1 / 16),
     DigitChar(b1 % 16 * 4 + b2 / 64), DigitChar(b2 % 64)]
  }

  /** Three bytes from four digit values. */
  function Join(s0: Sextet, s1: Sextet, s2: Sextet, s3: Sextet): (g: seq<Byte>)
    ensures |g| == 3
  {
    [s0 * 4 + s1 / 16, s1 % 16 * 16 + s2 / 4, s2 % 4 * 64 + s3]
  }

  lemma JoinSplit(b0: Byte, b1: Byte, b2: Byte)
    ensures Join(b0 / 4, b0 % 4 * 16 + b1 / 16, b1 % 16 * 4 + b2 / 64, b2 % 64) == [b0, b1, b2]
  {
  }

  /** The Base64 text of `b`: one four-digit group per three bytes, the last
      group completed with `=` when fewer than three bytes remain. */
  function Encode(b: seq<Byte>): (s: string)
    ensures |s| % 4 == 0
    ensures forall i :: 0 <= i < |s| ==> s[i] == '=' || DigitValue(s[i]).Some?
    decreases |b|
  {
    if |b| == 0 then ""
    else if |b| == 1 then [DigitChar(b[0] / 4), DigitChar(b[0] % 4 * 16), '=', '=']
    else if |b| == 2 then
      [DigitChar(b[0] / 4), DigitChar(b[0] % 4 * 16 + b[1] / 16), DigitChar(b[1] % 16 * 4), '=']
    else EncodeGroup(b[0], b[1], b[2]) + Encode(b[3..])
  }

  /** Four characters for every three bytes, the last group rounded up. */
  lemma {:induction false} EncodeLength(b: seq<Byte>)
    ensures |Encode(b)| == (|b| + 2) / 3 * 4
    decreases |b|
  {
    if |b| >= 3 {
      EncodeLength(b[3..]);
      assert (|b| + 2) / 3 == (|b[3..]| + 2) / 3 + 1;
    }
  }

  /** A group of four digits with no padding. */
  function DecodeGroup(c0: char, c1: char, c2: char, c3: char): (r: Option<seq<Byte>>)
    ensures r.Some? ==> |r.value| == 3
  {
    match (DigitValue(c0), DigitValue(c1), DigitValue(c2), DigitValue(c3))
    case (Some(d0), Some(d1), Some(d2), Some(d3)) => Some(Join(d0, d1, d2, d3))
    case _ => None
  }

  /** The final group, which may end in one or two `=`. */
  function DecodeLast(c0: char, c1: char, c2: char, c3: char): (r: Option<seq<Byte>>)
    ensures r.Some? ==> 1 <= |r.value| <= 3
  {
    if c2 == '=' && c3 == '=' then
      match (DigitValue(c0), DigitValue(c1))
      case (Some(d0), Some(d1)) => Some(Join(d0, d1, 0, 0)[..1])
      case _ => None
    else if c3 == '=' then
      match (DigitValue(c0), DigitValue(c1), DigitValue(c2))
      case (Some(d0), Some(d1), Some(d2)) => Some(Join(d0, d1, d2, 0)[..2])
      case _ => None
    else DecodeGroup(c0, c1, c2, c3)
  }

  /** The bytes of Base64 text; `None` for text whose length is not a multiple
      of four, that holds a character outside the alphabet, or that is padded
      anywhere but in its last group. */
  function Decode(s: string): (r: Option<seq<Byte>>)
    ensures r.Some? ==> |s| % 4 == 0
    decreases |s|
  {
    if |s| == 0 then Some([])
    else if |s| < 4 then None
    else if |s| == 4 then DecodeLast(s[0], s[1], s[2], s[3])
    else
      match (DecodeGroup(s[0], s[1], s[2], s[3]), Decode(s[4..]))
      case (Some(g), Some(rest)) => Some(g + rest)
      case _ => None
  }

  /** One trailing byte: two digits and `==`. */
  lemma DecodeEncodeOne(b0: Byte)
    ensures Decode(Encode([b0])) == Some([b0])
  {
    var s := Encode([b0]);
    assert s == [DigitChar(b0 / 4), DigitChar(b0 % 4 * 16), '=', '='];
    DigitRoundTrip(b0 / 4);
    DigitRoundTrip(b0 % 4 * 16);
    assert Join(b0 / 4, b0 % 4 * 16, 0, 0)[0] == b0;
    assert DecodeLast(s[0], s[1], s[2], s[3]) == Some(Join(b0 / 4, b0 % 4 * 16, 0, 0)[..1]);
    assert Join(b0 / 4, b0 % 4 * 16, 0, 0)[..1] == [b0];
    assert Decode(s) == DecodeLast(s[0], s[1], s[2], s[3]);
  }

  /** Two trailing bytes: three digits and `=`. */
  lemma DecodeEncodeTwo(b0: Byte, b1: Byte)
    ensures Decode(Encode([b0, b1])) == Some([b0, b1])
  {
    var s := Encode([b0, b1]);
    assert s == [DigitChar(b0 / 4), DigitChar(b0 % 4 * 16 + b1 / 16), DigitChar(b1 % 16 * 4), '='];
    DigitRoundTrip(b0 / 4);
    DigitRoundTrip(b0 % 4 * 16 + b1 / 16);
    DigitRoundTrip(b1 % 16 * 4);
    JoinSplit(b0, b1, 0);
    assert Join(b0 / 4, b0 % 4 * 16 + b1 / 16, b1 % 16 * 4, 0)[..2] == [b0, b1];
    assert DecodeLast(s[0], s[1], s[2], s[3]) == Some([b0, b1]);
    assert Decode(s) == DecodeLast(s[0], s[1], s[2], s[3]);
  }

  /** A full group decodes to the three bytes it was made from. */
  lemma DecodeEncodeGroup(b0: Byte, b1: Byte, b2: Byte)
    ensures var q := EncodeGroup(b0, b1, b2); DecodeGroup(q[0], q[1], q[2], q[3]) == Some([b0, b1, b2])
  {
    DigitRoundTrip(b0 / 4);
    DigitRoundTrip(b0 % 4 * 16 + b1 / 16);
    DigitRoundTrip(b1 % 16 * 4 + b2 / 64);
    DigitRoundTrip(b2 % 64);
    JoinSplit(b0, b1, b2);
  }

  /** Text that starts with an unpadded group decodes group by group. */
  lemma DecodeLeadingGroup(q: string, rest: string, g: seq<Byte>)
    requires |q| == 4 && '=' !in q && DecodeGroup(q[0], q[1], q[2], q[3]) == Some(g)
    ensures Decode(rest).Some? ==> Decode(q + rest) == Some(g + Decode(rest).value)
  {
    var s := q + rest;
    assert s[..4] == q && s[4..] == rest;
    assert s[0] == q[0] && s[1] == q[1] && s[2] == q[2] && s[3] == q[3];
    if rest == [] {
      assert s == q;
      assert g + [] == g;
    }
  }

  /** Decoding undoes encoding, for every byte sequence. */
  lemma {:induction false} DecodeEncode(b: seq<Byte>)
    ensures Decode(Encode(b)) == Some(b)
    decreases |b|
  {
    if |b| == 0 {
    } else if |b| == 1 {
      assert b == [b[0]];
      DecodeEncodeOne(b[0]);
    } else if |b| == 2 {
      assert b == [b[0], b[1]];
      DecodeEncodeTwo(b[0], b[1]);
    } else {
      var q := EncodeGroup(b[0], b[1], b[2]);
      assert Encode(b) == q + Encode(b[3..]);
      DecodeEncodeGroup(b[0], b[1], b[2]);
      DecodeEncode(b[3..]);
      DecodeLeadingGroup(q, Encode(b[3..]), [b[0], b[1], b[2]]);
      assert b == [b[0], b[1], b[2]] + b[3..];
    }
  }
}
