/**
 * The base64 encoding of section 4 of RFC 4648, as PHP's `base64_encode`
 * produces it: groups of three bytes become four characters of the
 * 64-character alphabet, and a final group of one or two bytes is padded
 * with "=". The decoder is the strict reading of the same section (only
 * alphabet characters, padding only at the end, pad bits zero), so that
 * encoding and decoding are exact inverses.
 */
module Base64 {
  import opened Wrappers

  /** One octet of a PHP binary string. */
  type Byte = b: int | 0 <= b < 256

  /** The value of one base64 character. */
  type Sextet = v: int | 0 <= v < 64

  const Pad: char := '='

  /** The character of the alphabet (RFC 4648, table 1) with value v. */
  function Digit(v: Sextet): char
  {
    if v < 26 then ('A' as int + v) as char
    else if v < 52 then ('a' as int + (v - 26)) as char
    else if v < 62 then ('0' as int + (v - 52)) as char
    else if v == 62 then '+'
    else '/'
  }

  /** The value of an alphabet character; None for any other character, "=" included. */
  function DigitValue(c: char): Option<Sextet>
  {
    if 'A' <= c <= 'Z' then Some(c as int - 'A' as int)
    else if 'a' <= c <= 'z' then Some(c as int - 'a' as int + 26)
    else if '0' <= c <= '9' then Some(c as int - '0' as int + 52)
    else if c == '+' then Some(62)
    else if c == '/' then Some(63)
    else None
  }

  predicate IsDigit(c: char)
  {
    DigitValue(c).Some?
  }

  lemma DigitValueOfDigit(v: Sextet)
    ensures DigitValue(Digit(v)) == Some(v)
  {
  }

  lemma DigitOfDigitValue(c: char)
    requires IsDigit(c)
    ensures Digit(DigitValue(c).value) == c
  {
  }

  /** The four 6-bit values of the 24 bits b0 b1 b2, high bits first. */
  function High6(b0: Byte): Sextet { b0 / 4 }
  function Split1(b0: Byte, b1: Byte): Sextet { (b0 % 4) * 16 + b1 / 16 }
  function Split2(b1: Byte, b2: Byte): Sextet { (b1 % 16) * 4 + b2 / 64 }
  function Low6(b2: Byte): Sextet { b2 % 64 }

  /** The three bytes of the 24 bits d0 d1 d2 d3. */
  function Join0(d0: Sextet, d1: Sextet): Byte { d0 * 4 + d1 / 16 }
  function Join1(d1: Sextet, d2: Sextet): Byte { (d1 % 16) * 16 + d2 / 4 }
  function Join2(d2: Sextet, d3: Sextet): Byte { (d2 % 4) * 64 + d3 }

  lemma JoinSplit(b0: Byte, b1: Byte, b2: Byte)
    ensures Join0(High6(b0), Split1(b0, b1)) == b0
    ensures Join1(Split1(b0, b1), Split2(b1, b2)) == b1
    ensures Join2(Split2(b1, b2), Low6(b2)) == b2
  {
  }

  /** A final quantum's last character carries only zero pad bits. */
  lemma PadBitsZero(b0: Byte, b1: Byte)
    ensures Split1(b0, 0) % 16 == 0
    ensures Split2(b1, 0) % 4 == 0
  {
    assert Split1(b0, 0) == (b0 % 4) * 16;
    assert Split2(b1, 0) == (b1 % 16) * 4;
  }

  lemma SplitJoin(d0: Sextet, d1: Sextet, d2: Sextet, d3: Sextet)
    ensures High6(Join0(d0, d1)) == d0
    ensures Split1(Join0(d0, d1), Join1(d1, d2)) == d1
    ensures Split2(Join1(d1, d2), Join2(d2, d3)) == d2
    ensures Low6(Join2(d2, d3)) == d3
  {
  }

  /** Four characters for three bytes. */
  function EncodeGroup(b0: Byte, b1: Byte, b2: Byte): string
  {
    [Digit(High6(b0)), Digit(Split1(b0, b1)), Digit(Split2(b1, b2)), Digit(Low6(b2))]
  }

  /** The final quantum of one byte: two characters and two pads. */
  function EncodeOne(b0: Byte): string
  {
    [Digit(High6(b0)), Digit(Split1(b0, 0)), Pad, Pad]
  }

  /** The final quantum of two bytes: three characters and one pad. */
  function EncodeTwo(b0: Byte, b1: Byte): string
  {
    [Digit(High6(b0)), Digit(Split1(b0, b1)), Digit(Split2(b1, 0)), Pad]
  }

  /** `base64_encode`: the text is 4 * ceil(n / 3) characters long. */
  function Encode(s: seq<Byte>): (t: string)
    ensures |t| == 4 * ((|s| + 2) / 3)
    decreases |s|
  {
    if |s| == 0 then []
    else if |s| == 1 then EncodeOne(s[0])
    else if |s| == 2 then EncodeTwo(s[0], s[1])
    else EncodeGroup(s[0], s[1], s[2]) + Encode(s[3..])
  }

  /** Three bytes from four alphabet characters. */
  function DecodeGroup(c0: char, c1: char, c2: char, c3: char): Option<seq<Byte>>
  {
    match (DigitValue(c0), DigitValue(c1), DigitValue(c2), DigitValue(c3))
    case (Some(d0), Some(d1), Some(d2), Some(d3)) =>
      Some([Join0(d0, d1), Join1(d1, d2), Join2(d2, d3)])
    case _ => None
  }

  /** The last quantum: "xy==" gives one byte, "xyz=" two, "xyzw" three; the pad bits must be zero. */
  function DecodeFinal(c0: char, c1: char, c2: char, c3: char): Option<seq<Byte>>
  {
    if c2 == Pad && c3 == Pad then
      match (DigitValue(c0), DigitValue(c1))
      case (Some(d0), Some(d1)) =>
        if d1 % 16 == 0 then Some([Join0(d0, d1)]) else None
      case _ => None
    else if c3 == Pad then
      match (DigitValue(c0), DigitValue(c1), DigitValue(c2))
      case (Some(d0), Some(d1), Some(d2)) =>
        if d2 % 4 == 0 then Some([Join0(d0, d1), Join1(d1, d2)]) else None
      case _ => None
    else
      DecodeGroup(c0, c1, c2, c3)
  }

  /** Strict base64 decoding; None for text that no byte string encodes to. */
  function Decode(t: string): Option<seq<Byte>>
    decreases |t|
  {
    if |t| == 0 then Some([])
    else if |t| < 4 then None
    else if |t| == 4 then DecodeFinal(t[0], t[1], t[2], t[3])
    else
      match DecodeGroup(t[0], t[1], t[2], t[3])
      case None => None
      case Some(g) =>
        match Decode(t[4..])
        case None => None
        case Some(rest) => Some(g + rest)
  }

  lemma DecodeGroupOfEncodeGroup(b0: Byte, b1: Byte, b2: Byte)
    ensures var q := EncodeGroup(b0, b1, b2);
      DecodeGroup(q[0], q[1], q[2], q[3]) == Some([b0, b1, b2])
  {
    DigitValueOfDigit(High6(b0));
    DigitValueOfDigit(Split1(b0, b1));
    DigitValueOfDigit(Split2(b1, b2));
    DigitValueOfDigit(Low6(b2));
    JoinSplit(b0, b1, b2);
  }

  lemma DecodeFinalOfDigits1(d0: Sextet, d1: Sextet)
    requires d1 % 16 == 0
    ensures DecodeFinal(Digit(d0), Digit(d1), Pad, Pad) == Some([Join0(d0, d1)])
  {
    DigitValueOfDigit(d0);
    DigitValueOfDigit(d1);
  }

  lemma DecodeFinalOfEncodeOne(b0: Byte)
    ensures var q := EncodeOne(b0); DecodeFinal(q[0], q[1], q[2], q[3]) == Some([b0])
  {
    PadBitsZero(b0, 0);
    DecodeFinalOfDigits1(High6(b0), Split1(b0, 0));
    JoinSplit(b0, 0, 0);
  }

  lemma DecodeFinalOfEncodeTwo(b0: Byte, b1: Byte)
    ensures var q := EncodeTwo(b0, b1); DecodeFinal(q[0], q[1], q[2], q[3]) == Some([b0, b1])
  {
    DigitValueOfDigit(High6(b0));
    DigitValueOfDigit(Split1(b0, b1));
    DigitValueOfDigit(Split2(b1, 0));
    JoinSplit(b0, b1, 0);
    PadBitsZero(b0, b1);
  }

  /** Decoding a text of more than one quantum: its first group, then the rest. */
  lemma DecodeSplit(t: string)
    requires |t| > 4
    ensures Decode(t).Some? <==> DecodeGroup(t[0], t[1], t[2], t[3]).Some? && Decode(t[4..]).Some?
    ensures Decode(t).Some? ==> Decode(t).value == DecodeGroup(t[0], t[1], t[2], t[3]).value + Decode(t[4..]).value
  {
  }

  lemma DecodeGroupThen(q: string, r: string, g: seq<Byte>, rest: seq<Byte>)
    requires |q| == 4 && |r| > 0
    requires DecodeGroup(q[0], q[1], q[2], q[3]) == Some(g) && Decode(r) == Some(rest)
    ensures Decode(q + r) == Some(g + rest)
  {
    var t := q + r;
    assert t[0] == q[0] && t[1] == q[1] && t[2] == q[2] && t[3] == q[3];
    assert t[4..] == r;
    DecodeSplit(t);
  }

  lemma DigitIsNotPad(v: Sextet)
    ensures Digit(v) != Pad
  {
    DigitValueOfDigit(v);
  }

  lemma DecodeLastOne(b0: Byte)
    ensures Decode(EncodeOne(b0)) == Some([b0])
  {
    DecodeFinalOfEncodeOne(b0);
  }

  lemma DecodeLastTwo(b0: Byte, b1: Byte)
    ensures Decode(EncodeTwo(b0, b1)) == Some([b0, b1])
  {
    DecodeFinalOfEncodeTwo(b0, b1);
  }

  lemma DecodeLastGroup(b0: Byte, b1: Byte, b2: Byte)
    ensures Decode(EncodeGroup(b0, b1, b2)) == Some([b0, b1, b2])
  {
    var q := EncodeGroup(b0, b1, b2);
    DecodeGroupOfEncodeGroup(b0, b1, b2);
    DigitIsNotPad(Low6(b2));
    assert DecodeFinal(q[0], q[1], q[2], q[3]) == DecodeGroup(q[0], q[1], q[2], q[3]);
  }

  lemma DecodeFirstGroup(s: seq<Byte>, r: string)
    requires |s| > 3 && |r| > 0
    requires Decode(r) == Some(s[3..])
    ensures Decode(EncodeGroup(s[0], s[1], s[2]) + r) == Some(s)
  {
    DecodeGroupOfEncodeGroup(s[0], s[1], s[2]);
    DecodeGroupThen(EncodeGroup(s[0], s[1], s[2]), r, [s[0], s[1], s[2]], s[3..]);
    assert s == [s[0], s[1], s[2]] + s[3..];
  }

  /** Round trip for a single full group. */
  lemma DecodeEncodeThree(s: seq<Byte>)
    requires |s| == 3
    ensures Decode(Encode(s)) == Some(s)
  {
    DecodeLastGroup(s[0], s[1], s[2]);
    EncodeSplit(s);
    assert s == [s[0], s[1], s[2]];
  }

  /** Round trip: decoding what `base64_encode` produced gives back exactly the bytes. */
  lemma {:induction false} DecodeEncode(s: seq<Byte>)
    ensures Decode(Encode(s)) == Some(s)
    decreases |s|
  {
    if |s| == 0 {
    } else if |s| == 1 {
      DecodeLastOne(s[0]);
      assert s == [s[0]];
    } else if |s| == 2 {
      DecodeLastTwo(s[0], s[1]);
      assert s == [s[0], s[1]];
    } else if |s| == 3 {
      DecodeEncodeThree(s);
    } else {
      EncodeSplit(s);
      DecodeEncode(s[3..]);
      DecodeFirstGroup(s, Encode(s[3..]));
    }
  }

  lemma EncodeGroupOfDecodeGroup(c0: char, c1: char, c2: char, c3: char)
    requires DecodeGroup(c0, c1, c2, c3).Some?
    ensures var g := DecodeGroup(c0, c1, c2, c3).value;
      |g| == 3 && EncodeGroup(g[0], g[1], g[2]) == [c0, c1, c2, c3]
  {
    var d0, d1, d2, d3 := DigitValue(c0).value, DigitValue(c1).value, DigitValue(c2).value, DigitValue(c3).value;
    DigitOfDigitValue(c0);
    DigitOfDigitValue(c1);
    DigitOfDigitValue(c2);
    DigitOfDigitValue(c3);
    SplitJoin(d0, d1, d2, d3);
  }

  lemma EncodeOneOfDigits(d0: Sextet, d1: Sextet)
    requires d1 % 16 == 0
    ensures EncodeOne(Join0(d0, d1)) == [Digit(d0), Digit(d1), Pad, Pad]
  {
    SplitJoin(d0, d1, 0, 0);
    assert Join1(d1, 0) == 0;
  }

  lemma EncodeTwoOfDigits(d0: Sextet, d1: Sextet, d2: Sextet)
    requires d2 % 4 == 0
    ensures EncodeTwo(Join0(d0, d1), Join1(d1, d2)) == [Digit(d0), Digit(d1), Digit(d2), Pad]
  {
    SplitJoin(d0, d1, d2, 0);
    assert Join2(d2, 0) == 0;
  }

  lemma EncodeOfDecodeFinal(c0: char, c1: char, c2: char, c3: char)
    requires DecodeFinal(c0, c1, c2, c3).Some?
    ensures Encode(DecodeFinal(c0, c1, c2, c3).value) == [c0, c1, c2, c3]
  {
    var g := DecodeFinal(c0, c1, c2, c3).value;
    if c2 == Pad && c3 == Pad {
      var d0, d1 := DigitValue(c0).value, DigitValue(c1).value;
      DigitOfDigitValue(c0);
      DigitOfDigitValue(c1);
      EncodeOneOfDigits(d0, d1);
      assert g == [Join0(d0, d1)];
      assert Encode(g) == EncodeOne(g[0]);
    } else if c3 == Pad {
      var d0, d1, d2 := DigitValue(c0).value, DigitValue(c1).value, DigitValue(c2).value;
      DigitOfDigitValue(c0);
      DigitOfDigitValue(c1);
      DigitOfDigitValue(c2);
      EncodeTwoOfDigits(d0, d1, d2);
      assert g == [Join0(d0, d1), Join1(d1, d2)];
      assert Encode(g) == EncodeTwo(g[0], g[1]);
    } else {
      EncodeGroupOfDecodeGroup(c0, c1, c2, c3);
      assert Encode(g) == EncodeGroup(g[0], g[1], g[2]) + Encode([]);
    }
  }

  /** Encoding bytes that start with a full group: that group's four characters, then the rest. */
  lemma EncodeSplit(s: seq<Byte>)
    requires |s| >= 3
    ensures Encode(s) == EncodeGroup(s[0], s[1], s[2]) + Encode(s[3..])
  {
  }

  /** The other direction: text the decoder accepts is exactly the encoding of what it decodes to. */
  lemma {:induction false} EncodeDecode(t: string)
    requires Decode(t).Some?
    ensures Encode(Decode(t).value) == t
    decreases |t|
  {
    if |t| == 0 {
    } else if |t| == 4 {
      EncodeOfDecodeFinal(t[0], t[1], t[2], t[3]);
      assert t == [t[0], t[1], t[2], t[3]];
    } else {
      DecodeSplit(t);
      var g := DecodeGroup(t[0], t[1], t[2], t[3]).value;
      var rest := Decode(t[4..]).value;
      EncodeGroupOfDecodeGroup(t[0], t[1], t[2], t[3]);
      EncodeDecode(t[4..]);
      var s := g + rest;
      assert s[..3] == g && s[3..] == rest;
      EncodeSplit(s);
      assert t == [t[0], t[1], t[2], t[3]] + t[4..];
    }
  }

  /** Decoding succeeds with s exactly on the encoding of s. */
  lemma DecodeIffEncode(t: string, s: seq<Byte>)
    ensures Decode(t) == Some(s) <==> t == Encode(s)
  {
    if Decode(t) == Some(s) {
      EncodeDecode(t);
    }
    if t == Encode(s) {
      DecodeEncode(s);
    }
  }
}
