/** The base64 encoding of section 4 of RFC 4648 (standard alphabet, '='
    padding), which `base64.b64encode` produces for the payload of a data URI,
    and the decoding a reader of that URI applies to get the image bytes back. */
module Base64 {
  import opened Wrappers
  import opened Text

  /** The character of the alphabet that stands for the 6-bit value `n`. */
  function Digit(n: int): (c: char)
    requires 0 <= n < 64
    ensures IsDigit(c)
  {
    if n < 26 then ('A' as int + n) as char
    else if n < 52 then ('a' as int + n - 26) as char
    else if n < 62 then ('0' as int + n - 52) as char
    else if n == 62 then '+'
    else '/'
  }

  predicate IsDigit(c: char) {
    ('A' <= c <= 'Z') || ('a' <= c <= 'z') || ('0' <= c <= '9') || c == '+' || c == '/'
  }

  /** The 6-bit value a character of the alphabet stands for. */
  function DigitValue(c: char): (n: nat)
    requires IsDigit(c)
    ensures n < 64
  {
    if 'A' <= c <= 'Z' then c as int - 'A' as int
    else if 'a' <= c <= 'z' then c as int - 'a' as int + 26
    else if '0' <= c <= '9' then c as int - '0' as int + 52
    else if c == '+' then 62
    else 63
  }

  lemma DigitRoundTrip(n: int)
    requires 0 <= n < 64
    ensures DigitValue(Digit(n)) == n
  {
  }

  /** Three bytes as four characters. */
  function Quad(b0: byte, b1: byte, b2: byte): string {
    [Digit(b0 as int / 4), Digit(b0 as int % 4 * 16 + b1 as int / 16),
     Digit(b1 as int % 16 * 4 + b2 as int / 64), Digit(b2 as int % 64)]
  }

  /** `base64.b64encode(b).decode("utf-8")`. */
  function Encode(b: seq<byte>): (s: string)
    ensures |s| == (|b| + 2) / 3 * 4
  {
    if |b| == 0 then ""
    else if |b| == 1 then [Digit(b[0] as int / 4), Digit(b[0] as int % 4 * 16), '=', '=']
    else if |b| == 2 then
      [Digit(b[0] as int / 4), Digit(b[0] as int % 4 * 16 + b[1] as int / 16), Digit(b[1] as int % 16 * 4), '=']
    else Quad(b[0], b[1], b[2]) + Encode(b[3..])
  }

  /** The bytes a group of 6-bit values `c0 c1 c2 c3` stands for. */
  function FirstByte(c0: nat, c1: nat): byte
    requires c0 < 64 && c1 < 64
  {
    (c0 * 4 + c1 / 16) as byte
  }

  function SecondByte(c1: nat, c2: nat): byte
    requires c1 < 64 && c2 < 64
  {
    (c1 % 16 * 16 + c2 / 4) as byte
  }

  function ThirdByte(c2: nat, c3: nat): byte
    requires c2 < 64 && c3 < 64
  {
    (c2 % 4 * 64 + c3) as byte
  }

  /** Four digits (the last one or two possibly '=') as one to three bytes. */
  function DecodeQuad(q: string): (r: Option<seq<byte>>)
    requires |q| == 4
  {
    if !IsDigit(q[0]) || !IsDigit(q[1]) then None
    else if q[2] == '=' && q[3] == '=' then Some([FirstByte(DigitValue(q[0]), DigitValue(q[1]))])
    else if !IsDigit(q[2]) then None
    else if q[3] == '=' then
      Some([FirstByte(DigitValue(q[0]), DigitValue(q[1])), SecondByte(DigitValue(q[1]), DigitValue(q[2]))])
    else if !IsDigit(q[3]) then None
    else
      Some([FirstByte(DigitValue(q[0]), DigitValue(q[1])), SecondByte(DigitValue(q[1]), DigitValue(q[2])),
            ThirdByte(DigitValue(q[2]), DigitValue(q[3]))])
  }

  /** Strict decoding: groups of four, padding only in the last group. */
  function Decode(s: string): (r: Option<seq<byte>>)
    decreases |s|
  {
    if |s| == 0 then Some([])
    else if |s| < 4 then None
    else
      match DecodeQuad(s[..4])
      case None => None
      case Some(head) =>
        if |s| == 4 then Some(head)
        else if |head| < 3 then None
        else
          match Decode(s[4..])
          case None => None
          case Some(tail) => Some(head + tail)
  }

  /** Euclidean division by 16 undoes `q * 16 + a` for a remainder `a` below 16. */
  lemma DivMod16(q: int, a: int)
    requires 0 <= a < 16
    ensures (q * 16 + a) / 16 == q && (q * 16 + a) % 16 == a
  {
  }

  /** Euclidean division by 4 undoes `q * 4 + a` for a remainder `a` below 4. */
  lemma DivMod4(q: int, a: int)
    requires 0 <= a < 4
    ensures (q * 4 + a) / 4 == q && (q * 4 + a) % 4 == a
  {
  }

  // The bit arithmetic of one group: the 6-bit values of bytes x, y, z put
  // each byte back together.

  lemma FirstByteOf(x: byte, y: byte)
    ensures FirstByte(x as int / 4, x as int % 4 * 16 + y as int / 16) == x
  {
    DivMod16(x as int % 4, y as int / 16);
  }

  lemma SecondByteOf(x: byte, y: byte, z: byte)
    ensures SecondByte(x as int % 4 * 16 + y as int / 16, y as int % 16 * 4 + z as int / 64) == y
  {
    DivMod16(x as int % 4, y as int / 16);
    DivMod4(y as int % 16, z as int / 64);
  }

  lemma ThirdByteOf(y: byte, z: byte)
    ensures ThirdByte(y as int % 16 * 4 + z as int / 64, z as int % 64) == z
  {
    DivMod4(y as int % 16, z as int / 64);
  }

  /** A full group of four digits decodes to the three bytes its 6-bit values stand for. */
  lemma DecodeFullQuad(c0: nat, c1: nat, c2: nat, c3: nat)
    requires c0 < 64 && c1 < 64 && c2 < 64 && c3 < 64
    ensures DecodeQuad([Digit(c0), Digit(c1), Digit(c2), Digit(c3)])
         == Some([FirstByte(c0, c1), SecondByte(c1, c2), ThirdByte(c2, c3)])
  {
    DigitRoundTrip(c0);
    DigitRoundTrip(c1);
    DigitRoundTrip(c2);
    DigitRoundTrip(c3);
  }

  lemma QuadRoundTrip(b0: byte, b1: byte, b2: byte)
    ensures DecodeQuad(Quad(b0, b1, b2)) == Some([b0, b1, b2])
  {
    var x, y, z := b0 as int, b1 as int, b2 as int;
    DecodeFullQuad(x / 4, x % 4 * 16 + y / 16, y % 16 * 4 + z / 64, z % 64);
    FirstByteOf(b0, b1);
    SecondByteOf(b0, b1, b2);
    ThirdByteOf(b1, b2);
  }

  /** A last group of one byte, padded with "==". */
  lemma PadTwoRoundTrip(b0: byte)
    ensures DecodeQuad([Digit(b0 as int / 4), Digit(b0 as int % 4 * 16), '=', '=']) == Some([b0])
  {
    DigitRoundTrip(b0 as int / 4);
    DigitRoundTrip(b0 as int % 4 * 16);
    FirstByteOf(b0, 0);
  }

  /** A last group of two bytes, padded with "=". */
  lemma PadOneRoundTrip(b0: byte, b1: byte)
    ensures DecodeQuad([Digit(b0 as int / 4), Digit(b0 as int % 4 * 16 + b1 as int / 16), Digit(b1 as int % 16 * 4), '='])
         == Some([b0, b1])
  {
    DigitRoundTrip(b0 as int / 4);
    DigitRoundTrip(b0 as int % 4 * 16 + b1 as int / 16);
    DigitRoundTrip(b1 as int % 16 * 4);
    FirstByteOf(b0, b1);
    SecondByteOf(b0, b1, 0);
  }

  /** Decoding proceeds group by group. */
  lemma DecodeCons(q: string, t: string, head: seq<byte>, tail: seq<byte>)
    requires |q| == 4 && DecodeQuad(q) == Some(head) && |head| == 3
    requires Decode(t) == Some(tail)
    ensures Decode(q + t) == Some(head + tail)
  {
    assert (q + t)[..4] == q;
    assert (q + t)[4..] == t;
    if t == [] {
      assert q + t == q && head + tail == head;
    }
  }

  /** A one-byte input round-trips through its "=="-padded group. */
  lemma OneByteRoundTrip(b: seq<byte>)
    requires |b| == 1
    ensures Decode(Encode(b)) == Some(b)
  {
    var q := [Digit(b[0] as int / 4), Digit(b[0] as int % 4 * 16), '=', '='];
    assert Encode(b) == q;
    PadTwoRoundTrip(b[0]);
    assert q[..4] == q;
    assert b == [b[0]];
  }

  /** A two-byte input round-trips through its "="-padded group. */
  lemma TwoByteRoundTrip(b: seq<byte>)
    requires |b| == 2
    ensures Decode(Encode(b)) == Some(b)
  {
    var q := [Digit(b[0] as int / 4), Digit(b[0] as int % 4 * 16 + b[1] as int / 16), Digit(b[1] as int % 16 * 4), '='];
    assert Encode(b) == q;
    PadOneRoundTrip(b[0], b[1]);
    assert q[..4] == q;
    assert b == [b[0], b[1]];
  }

  lemma SplitThree(b: seq<byte>)
    requires |b| >= 3
    ensures [b[0], b[1], b[2]] + b[3..] == b
  {
  }

  /** If the rest of the input round-trips, so does the input with a full
      group of three bytes in front. */
  lemma GroupStep(b: seq<byte>)
    requires |b| >= 3 && Decode(Encode(b[3..])) == Some(b[3..])
    ensures Decode(Encode(b)) == Some(b)
  {
    var q := Quad(b[0], b[1], b[2]);
    QuadRoundTrip(b[0], b[1], b[2]);
    assert Encode(b) == q + Encode(b[3..]);
    DecodeCons(q, Encode(b[3..]), [b[0], b[1], b[2]], b[3..]);
    SplitThree(b);
  }

  /** Decoding inverts encoding: the payload of a data URI yields the image
      bytes exactly. */
  lemma {:induction false} RoundTrip(b: seq<byte>)
    ensures Decode(Encode(b)) == Some(b)
  {
    if |b| == 1 {
      OneByteRoundTrip(b);
    } else if |b| == 2 {
      TwoByteRoundTrip(b);
    } else if |b| >= 3 {
      RoundTrip(b[3..]);
      GroupStep(b);
    }
  }
}
