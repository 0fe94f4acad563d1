/** UTF-8 as Python's codec decodes it: a well-formed sequence becomes its
    code point; an ill-formed one is handled by the error handler on its
    maximal valid prefix ("replace" puts one U+FFFD in its place, "ignore"
    drops it), and decoding resumes right after that prefix. The encoder is
    the partner the decoder is proved against. */
module Utf8 {
  import opened Text

  datatype ErrorHandler = Replace | Ignore

  const ReplacementCharacter: char := '\U{FFFD}'

  /** The number of bytes of the sequence that `lead` starts; 0 when `lead`
      cannot start one (continuation bytes, 0xC0, 0xC1, 0xF5 and above). */
  function SequenceLength(lead: byte): (n: nat)
    ensures n <= 4
  {
    if lead < 0x80 then 1
    else if 0xC2 <= lead <= 0xDF then 2
    else if 0xE0 <= lead <= 0xEF then 3
    else if 0xF0 <= lead <= 0xF4 then 4
    else 0
  }

  /** Whether `b` may stand at position `k` (from 1) of a sequence led by
      `lead`; the second byte's range excludes overlong forms, surrogates
      and code points above U+10FFFF. */
  predicate ContinuationOk(lead: byte, k: nat, b: byte) {
    if k == 1 && lead == 0xE0 then 0xA0 <= b <= 0xBF
    else if k == 1 && lead == 0xED then 0x80 <= b <= 0x9F
    else if k == 1 && lead == 0xF0 then 0x90 <= b <= 0xBF
    else if k == 1 && lead == 0xF4 then 0x80 <= b <= 0x8F
    else 0x80 <= b <= 0xBF
  }

  /** The length of the maximal valid prefix of `b`, counting on from `k`
      bytes already accepted, for a sequence of `n` bytes. */
  function ValidPrefix(b: seq<byte>, n: nat, k: nat): (m: nat)
    requires 1 <= k <= n && k <= |b|
    ensures k <= m <= n && m <= |b|
    ensures forall j :: 1 <= j < m && k <= j ==> ContinuationOk(b[0], j, b[j])
    ensures m < n && m < |b| ==> !ContinuationOk(b[0], m, b[m])
    decreases n - k
  {
    if k < n && k < |b| && ContinuationOk(b[0], k, b[k]) then ValidPrefix(b, n, k + 1) else k
  }

  /** A complete well-formed sequence of one code point. */
  predicate WellFormed(s: seq<byte>) {
    |s| > 0 && SequenceLength(s[0]) == |s| &&
    forall k :: 1 <= k < |s| ==> ContinuationOk(s[0], k, s[k])
  }

  /** The code point a well-formed sequence stands for. */
  function Scalar(s: seq<byte>): char
    requires WellFormed(s)
  {
    if |s| == 1 then s[0] as int as char
    else if |s| == 2 then ((s[0] as int - 0xC0) * 64 + (s[1] as int - 0x80)) as char
    else if |s| == 3 then
      ((s[0] as int - 0xE0) * 4096 + (s[1] as int - 0x80) * 64 + (s[2] as int - 0x80)) as char
    else
      ((s[0] as int - 0xF0) * 262144 + (s[1] as int - 0x80) * 4096 + (s[2] as int - 0x80) * 64
       + (s[3] as int - 0x80)) as char
  }

  function ErrorText(errors: ErrorHandler): string {
    if errors == Replace then [ReplacementCharacter] else []
  }

  /** `bytes(b).decode("utf-8", errors)`. */
  function Decode(b: seq<byte>, errors: ErrorHandler): (s: string)
    ensures |s| <= |b|
    decreases |b|
  {
    if b == [] then []
    else
      var n := SequenceLength(b[0]);
      if n == 0 then ErrorText(errors) + Decode(b[1..], errors)
      else
        var m := ValidPrefix(b, n, 1);
        if m == n then
          assert WellFormed(b[..n]);
          [Scalar(b[..n])] + Decode(b[n..], errors)
        else ErrorText(errors) + Decode(b[m..], errors)
  }

  /** One character as its UTF-8 bytes. */
  function EncodeChar(c: char): (s: seq<byte>)
    ensures WellFormed(s)
  {
    var v := c as int;
    if v < 0x80 then [v as byte]
    else if v < 0x800 then [(0xC0 + v / 64) as byte, (0x80 + v % 64) as byte]
    else if v < 0x10000 then
      [(0xE0 + v / 64 / 64) as byte, (0x80 + v / 64 % 64) as byte, (0x80 + v % 64) as byte]
    else
      [(0xF0 + v / 64 / 64 / 64) as byte, (0x80 + v / 64 / 64 % 64) as byte,
       (0x80 + v / 64 % 64) as byte, (0x80 + v % 64) as byte]
  }

  /** `s.encode("utf-8")`. */
  function Encode(s: string): seq<byte> {
    if s == [] then [] else EncodeChar(s[0]) + Encode(s[1..])
  }

  lemma ScalarOfEncoding(c: char)
    ensures Scalar(EncodeChar(c)) == c
  {
  }

  /** A well-formed sequence at the front is decoded as its code point,
      whatever follows it. */
  lemma DecodeWellFormedFront(w: seq<byte>, rest: seq<byte>, errors: ErrorHandler)
    requires WellFormed(w)
    ensures Decode(w + rest, errors) == [Scalar(w)] + Decode(rest, errors)
  {
    var b := w + rest;
    var n := |w|;
    assert b[0] == w[0];
    var m := ValidPrefix(b, n, 1);
    assert forall k :: 1 <= k < n ==> b[k] == w[k];
    assert m == n;
    assert b[..n] == w;
    assert b[n..] == rest;
  }

  /** Decoding inverts encoding. */
  lemma {:induction false} RoundTrip(s: string, errors: ErrorHandler)
    ensures Decode(Encode(s), errors) == s
  {
    if s != [] {
      DecodeWellFormedFront(EncodeChar(s[0]), Encode(s[1..]), errors);
      ScalarOfEncoding(s[0]);
      RoundTrip(s[1..], errors);
    }
  }

  /** Bytes below 0x80 decode to the characters with the same code. */
  lemma {:induction false} DecodeAscii(b: seq<byte>, errors: ErrorHandler)
    requires forall k :: 0 <= k < |b| ==> b[k] < 0x80
    ensures Decode(b, errors) == seq(|b|, k requires 0 <= k < |b| => b[k] as int as char)
  {
    if b != [] {
      DecodeAscii(b[1..], errors);
      assert b[..1] == [b[0]];
    }
  }

  /** '/' or '\\' as a byte. */
  predicate IsSlashByte(b: byte) {
    b == 0x2F || b == 0x5C
  }

  /** Two byte strings that differ at most in which slash byte stands where. */
  predicate SameUpToSlashBytes(x: seq<byte>, y: seq<byte>) {
    |x| == |y| &&
    forall k :: 0 <= k < |x| ==> x[k] == y[k] || (IsSlashByte(x[k]) && IsSlashByte(y[k]))
  }

  lemma SlashBytesCons(x: seq<byte>, y: seq<byte>, xs: seq<byte>, ys: seq<byte>)
    requires SameUpToSlashBytes(x, y) && SameUpToSlashBytes(xs, ys)
    ensures SameUpToSlashBytes(x + xs, y + ys)
  {
    var a, b := x + xs, y + ys;
    forall k | |x| <= k < |a|
      ensures a[k] == b[k] || (IsSlashByte(a[k]) && IsSlashByte(b[k]))
    {
      assert a[k] == xs[k - |x|] && b[k] == ys[k - |x|];
    }
  }

  lemma SlashBytesSuffix(x: seq<byte>, y: seq<byte>, i: nat)
    requires SameUpToSlashBytes(x, y) && i <= |x|
    ensures SameUpToSlashBytes(x[i..], y[i..])
  {
    forall k | 0 <= k < |x| - i
      ensures x[i..][k] == y[i..][k] || (IsSlashByte(x[i..][k]) && IsSlashByte(y[i..][k]))
    {
      assert x[i..][k] == x[i + k] && y[i..][k] == y[i + k];
    }
  }

  /** Slash bytes are never continuation bytes, so the maximal valid prefix
      does not depend on which slash stands where. */
  lemma {:induction false} ValidPrefixSlashes(x: seq<byte>, y: seq<byte>, n: nat, k: nat)
    requires SameUpToSlashBytes(x, y) && 1 <= k <= n && k <= |x| && x[0] == y[0]
    ensures ValidPrefix(x, n, k) == ValidPrefix(y, n, k)
    decreases n - k
  {
    if k < n && k < |x| {
      assert ContinuationOk(x[0], k, x[k]) == ContinuationOk(y[0], k, y[k]);
      ValidPrefixSlashes(x, y, n, k + 1);
    }
  }

  /** Decoding turns a difference in slash bytes into a difference in
      slash characters and changes nothing else. */
  lemma {:induction false} DecodeSlashes(x: seq<byte>, y: seq<byte>, errors: ErrorHandler)
    requires SameUpToSlashBytes(x, y)
    ensures SameUpToSlashes(Decode(x, errors), Decode(y, errors))
    decreases |x|
  {
    if x != [] {
      var n := SequenceLength(x[0]);
      var m := if n == 0 then 1 else ValidPrefix(x, n, 1);
      var hx, hy: string;
      if x[0] != y[0] {
        assert n == 1 && SequenceLength(y[0]) == 1;
        assert ValidPrefix(x, 1, 1) == 1 && ValidPrefix(y, 1, 1) == 1;
        assert x[..1] == [x[0]] && y[..1] == [y[0]];
        hx, hy := [Scalar(x[..1])], [Scalar(y[..1])];
      } else if n == 0 {
        hx, hy := ErrorText(errors), ErrorText(errors);
      } else {
        ValidPrefixSlashes(x, y, n, 1);
        if m == n {
          assert x[..n] == y[..n] by {
            forall j | 1 <= j < n ensures x[j] == y[j] {
              assert ContinuationOk(x[0], j, x[j]);
            }
          }
          hx, hy := [Scalar(x[..n])], [Scalar(y[..n])];
        } else {
          hx, hy := ErrorText(errors), ErrorText(errors);
        }
      }
      assert Decode(x, errors) == hx + Decode(x[m..], errors);
      assert Decode(y, errors) == hy + Decode(y[m..], errors);
      SlashBytesSuffix(x, y, m);
      DecodeSlashes(x[m..], y[m..], errors);
      SameUpToSlashesConcat(hx, hy, Decode(x[m..], errors), Decode(y[m..], errors));
    }
  }
}
