/** Percent-decoding of section 2.1 of RFC 3986 as `urllib.parse.unquote`
    performs it: each maximal run of ASCII characters is turned into bytes
    (a '%' followed by two hexadecimal digits becomes the byte they spell,
    anything else stays as it is) and the bytes are decoded as UTF-8 with the
    "replace" handler; characters outside ASCII are kept as they are. */
module Percent {
  import opened Text
  import Utf8

  predicate IsHexDigit(c: char) {
    ('0' <= c <= '9') || ('a' <= c <= 'f') || ('A' <= c <= 'F')
  }

  function HexValue(c: char): (v: nat)
    requires IsHexDigit(c)
    ensures v < 16
  {
    if '0' <= c <= '9' then c as int - '0' as int
    else if 'a' <= c <= 'f' then c as int - 'a' as int + 10
    else c as int - 'A' as int + 10
  }

  /** The upper-case hexadecimal digit for `v`. */
  function HexDigit(v: nat): (c: char)
    requires v < 16
    ensures IsHexDigit(c) && HexValue(c) == v
  {
    if v < 10 then ('0' as int + v) as char else ('A' as int + v - 10) as char
  }

  /** `unquote_to_bytes` of a run of ASCII characters. */
  function PercentBytes(s: string): (b: seq<byte>)
    requires AllAscii(s)
  {
    if s == [] then []
    else if s[0] == '%' && |s| >= 3 && IsHexDigit(s[1]) && IsHexDigit(s[2]) then
      [(HexValue(s[1]) * 16 + HexValue(s[2])) as byte] + PercentBytes(s[3..])
    else [s[0] as int as byte] + PercentBytes(s[1..])
  }

  /** The length of the run of ASCII characters `s` starts with. */
  function AsciiRunLength(s: string): (n: nat)
    ensures n <= |s| && AllAscii(s[..n])
    ensures n < |s| ==> s[n] as int >= 128
  {
    if s == [] || s[0] as int >= 128 then 0
    else
      var n := AsciiRunLength(s[1..]);
      assert s[..n + 1] == [s[0]] + s[1..][..n];
      n + 1
  }

  /** How much of `s` one step of `unquote` consumes: one non-ASCII
      character, or the leading ASCII run. */
  function StepEnd(s: string): (n: nat)
    requires s != []
    ensures 0 < n <= |s|
  {
    if s[0] as int >= 128 then 1 else AsciiRunLength(s)
  }

  /** What one step of `unquote` yields: a non-ASCII character as it is,
      an ASCII run as the UTF-8 decoding of its bytes. */
  function DecodeStep(s: string): string
    requires s != []
  {
    if s[0] as int >= 128 then [s[0]]
    else Utf8.Decode(PercentBytes(s[..AsciiRunLength(s)]), Utf8.Replace)
  }

  /** `urllib.parse.unquote(s)`: never longer than `s`, since an escape
      stands for one byte and bytes decode to at most as many characters. */
  function Unquote(s: string): (r: string)
    ensures |r| <= |s|
    decreases |s|
  {
    if s == [] then []
    else
      DecodeStepLength(s);
      DecodeStep(s) + Unquote(s[StepEnd(s)..])
  }

  lemma {:induction false} PercentBytesLength(s: string)
    requires AllAscii(s)
    ensures |PercentBytes(s)| <= |s|
  {
    if s != [] {
      if s[0] == '%' && |s| >= 3 && IsHexDigit(s[1]) && IsHexDigit(s[2]) {
        PercentBytesLength(s[3..]);
      } else {
        PercentBytesLength(s[1..]);
      }
    }
  }

  lemma DecodeStepLength(s: string)
    requires s != []
    ensures |DecodeStep(s)| <= StepEnd(s)
  {
    if s[0] as int < 128 {
      PercentBytesLength(s[..AsciiRunLength(s)]);
    }
  }

  /** Every byte of `b` written as '%' and two upper-case hexadecimal digits. */
  function PercentEncodeBytes(b: seq<byte>): (s: string)
    ensures AllAscii(s) && |s| == 3 * |b|
  {
    if b == [] then []
    else ['%', HexDigit(b[0] as int / 16), HexDigit(b[0] as int % 16)] + PercentEncodeBytes(b[1..])
  }

  /** Every character of `s` percent-encoded through its UTF-8 bytes, as
      `urllib.parse.quote(s, safe="")` does for characters outside the
      unreserved set. */
  function PercentEncode(s: string): string {
    PercentEncodeBytes(Utf8.Encode(s))
  }

  /** Escapes written for `b` turn back into `b`, whatever ASCII text follows. */
  lemma {:induction false} PercentBytesOfEncoding(b: seq<byte>, rest: string)
    requires AllAscii(rest)
    ensures AllAscii(PercentEncodeBytes(b) + rest)
    ensures PercentBytes(PercentEncodeBytes(b) + rest) == b + PercentBytes(rest)
  {
    if b != [] {
      var s := PercentEncodeBytes(b) + rest;
      assert s[3..] == PercentEncodeBytes(b[1..]) + rest;
      PercentBytesOfEncoding(b[1..], rest);
      assert HexValue(s[1]) * 16 + HexValue(s[2]) == b[0] as int;
    } else {
      assert PercentEncodeBytes(b) + rest == rest;
    }
  }

  /** A string made of ASCII characters only is a single run: it decodes
      as the UTF-8 decoding of its bytes. */
  lemma {:induction false} UnquoteOfAsciiRun(s: string)
    requires AllAscii(s) && s != []
    ensures Unquote(s) == Utf8.Decode(PercentBytes(s), Utf8.Replace)
  {
    var n := AsciiRunLength(s);
    assert n == |s|;
    assert s[..n] == s;
    assert s[n..] == [];
  }

  /** Percent-decoding inverts percent-encoding, for every string. */
  lemma UnquoteOfPercentEncode(s: string)
    ensures Unquote(PercentEncode(s)) == s
  {
    var e := PercentEncode(s);
    assert PercentBytes(e) == Utf8.Encode(s) by {
      PercentBytesOfEncoding(Utf8.Encode(s), []);
      assert e + [] == e && Utf8.Encode(s) + [] == Utf8.Encode(s);
    }
    Utf8.RoundTrip(s, Utf8.Replace);
    if e != [] {
      UnquoteOfAsciiRun(e);
    }
  }

  /** A non-empty string is encoded to an escape first. */
  lemma PercentEncodeStart(s: string)
    requires s != []
    ensures PercentEncode(s) != [] && PercentEncode(s)[0] == '%'
  {
    assert Utf8.Encode(s) == Utf8.EncodeChar(s[0]) + Utf8.Encode(s[1..]);
    assert |Utf8.EncodeChar(s[0])| > 0;
  }

  /** Without a '%', a run of ASCII characters is its own byte string. */
  lemma {:induction false} PercentBytesWithoutPercent(s: string)
    requires AllAscii(s) && '%' !in s
    ensures PercentBytes(s) == seq(|s|, k requires 0 <= k < |s| => s[k] as int as byte)
  {
    if s != [] {
      assert s[0] != '%';
      PercentBytesWithoutPercent(s[1..]);
    }
  }

  /** A string without '%' is left as it is (the early return of `unquote`). */
  lemma {:induction false} UnquoteWithoutPercent(s: string)
    requires '%' !in s
    ensures Unquote(s) == s
    decreases |s|
  {
    if s != [] {
      var n := StepEnd(s);
      assert s[..n] + s[n..] == s;
      DecodeStepWithoutPercent(s);
      SuffixWithout(s, n, '%');
      UnquoteWithoutPercent(s[n..]);
    }
  }

  /** One step of `Unquote` on a string without '%' yields what it consumes. */
  lemma DecodeStepWithoutPercent(s: string)
    requires s != [] && '%' !in s
    ensures DecodeStep(s) == s[..StepEnd(s)]
  {
    if s[0] as int >= 128 {
      assert s[..1] == [s[0]];
    } else {
      var n := AsciiRunLength(s);
      assert '%' !in s[..n];
      AsciiWithoutPercent(s[..n]);
    }
  }

  /** A character missing from a string is missing from its suffixes. */
  lemma SuffixWithout(s: string, n: nat, c: char)
    requires c !in s && n <= |s|
    ensures c !in s[n..]
  {
  }

  /** A run of ASCII characters without '%' decodes to itself. */
  lemma AsciiWithoutPercent(run: string)
    requires AllAscii(run) && '%' !in run
    ensures Utf8.Decode(PercentBytes(run), Utf8.Replace) == run
  {
    PercentBytesWithoutPercent(run);
    Utf8.DecodeAscii(PercentBytes(run), Utf8.Replace);
  }

  /** How many characters `PercentBytes` turns into its first byte: three
      for an escape, one otherwise. */
  function HeadLength(s: string): (n: nat)
    requires s != []
    ensures n <= |s|
  {
    if s[0] == '%' && |s| >= 3 && IsHexDigit(s[1]) && IsHexDigit(s[2]) then 3 else 1
  }

  lemma PercentBytesHead(s: string)
    requires AllAscii(s) && s != []
    ensures PercentBytes(s) == PercentBytes(s[..HeadLength(s)]) + PercentBytes(s[HeadLength(s)..])
  {
    assert PercentBytes(s[..HeadLength(s)]) == [PercentBytes(s)[0]];
  }

  /** '%' and hexadecimal digits are never slashes, so the bytes of two runs
      that differ only in slash direction differ only in slash bytes. */
  lemma {:induction false} PercentBytesSlashes(a: string, b: string)
    requires AllAscii(a) && AllAscii(b) && SameUpToSlashes(a, b)
    ensures Utf8.SameUpToSlashBytes(PercentBytes(a), PercentBytes(b))
    decreases |a|
  {
    if a != [] {
      var n := HeadLength(a);
      assert n == HeadLength(b) && Utf8.SameUpToSlashBytes(PercentBytes(a[..n]), PercentBytes(b[..n])) by {
        if n == 3 {
          assert a[..3] == b[..3];
        } else {
          assert b[..1] == [b[0]] && a[..1] == [a[0]];
        }
      }
      PercentBytesHead(a);
      PercentBytesHead(b);
      SameUpToSlashesSlice(a, b, n, n);
      PercentBytesSlashes(a[n..], b[n..]);
      Utf8.SlashBytesCons(PercentBytes(a[..n]), PercentBytes(b[..n]), PercentBytes(a[n..]), PercentBytes(b[n..]));
    }
  }

  lemma {:induction false} AsciiRunLengthSlashes(a: string, b: string)
    requires SameUpToSlashes(a, b)
    ensures AsciiRunLength(a) == AsciiRunLength(b)
    decreases |a|
  {
    if a != [] {
      SameUpToSlashesSlice(a, b, 1, 1);
      AsciiRunLengthSlashes(a[1..], b[1..]);
    }
  }

  /** `unquote` keeps two strings that differ only in slash direction so:
      slashes are ASCII, are not part of any escape, and decode as themselves. */
  lemma {:induction false} UnquoteSlashes(a: string, b: string)
    requires SameUpToSlashes(a, b)
    ensures SameUpToSlashes(Unquote(a), Unquote(b))
    decreases |a|
  {
    if a != [] {
      AsciiRunLengthSlashes(a, b);
      var n := StepEnd(a);
      assert n == StepEnd(b);
      if a[0] as int < 128 {
        SameUpToSlashesSlice(a, b, 0, n);
        PercentBytesSlashes(a[..n], b[..n]);
        Utf8.DecodeSlashes(PercentBytes(a[..n]), PercentBytes(b[..n]), Utf8.Replace);
      }
      SameUpToSlashesSlice(a, b, n, n);
      UnquoteSlashes(a[n..], b[n..]);
      SameUpToSlashesConcat(DecodeStep(a), DecodeStep(b), Unquote(a[n..]), Unquote(b[n..]));
    }
  }

  /** One step of `unquote` on an ASCII character other than '%' in front of
      `s`: the character joins the run `s` starts with. */
  lemma AsciiConsStep(c: char, s: string)
    requires c as int < 128 && c != '%'
    ensures var n := AsciiRunLength(s);
            StepEnd([c] + s) == n + 1 &&
            DecodeStep([c] + s) == [c] + Utf8.Decode(PercentBytes(s[..n]), Utf8.Replace)
  {
    var t := [c] + s;
    assert t[1..] == s;
    var n := AsciiRunLength(s);
    assert t[..n + 1] == [c] + s[..n];
    var cb := c as int as byte;
    assert PercentBytes([c] + s[..n]) == [cb] + PercentBytes(s[..n]) by {
      assert ([c] + s[..n])[1..] == s[..n];
    }
    assert Utf8.WellFormed([cb]);
    Utf8.DecodeWellFormedFront([cb], PercentBytes(s[..n]), Utf8.Replace);
  }

  /** An ASCII character other than '%' in front is kept as it is and
      changes nothing after it. */
  lemma UnquoteAsciiCons(c: char, s: string)
    requires c as int < 128 && c != '%'
    ensures Unquote([c] + s) == [c] + Unquote(s)
  {
    var n := AsciiRunLength(s);
    UnquoteAsciiConsSplit(c, s);
    UnquoteRunSplit(s);
    ConcatAssoc([c], Utf8.Decode(PercentBytes(s[..n]), Utf8.Replace), Unquote(s[n..]));
  }

  lemma UnquoteAsciiConsSplit(c: char, s: string)
    requires c as int < 128 && c != '%'
    ensures var n := AsciiRunLength(s);
            Unquote([c] + s) == [c] + Utf8.Decode(PercentBytes(s[..n]), Utf8.Replace) + Unquote(s[n..])
  {
    var t := [c] + s;
    var n := AsciiRunLength(s);
    AsciiConsStep(c, s);
    assert t[n + 1..] == s[n..];
  }

  /** `unquote` splits a string after the ASCII run it starts with. */
  lemma UnquoteRunSplit(s: string)
    ensures var n := AsciiRunLength(s);
            Unquote(s) == Utf8.Decode(PercentBytes(s[..n]), Utf8.Replace) + Unquote(s[n..])
  {
    var n := AsciiRunLength(s);
    if n == 0 {
      assert s[..0] == [] && s[0..] == s;
    }
  }

  /** An ASCII prefix without '%' is kept as it is and changes nothing after
      it: `unquote("file:///" + s) == "file:///" + unquote(s)`. */
  lemma {:induction false} UnquoteAsciiPrefix(p: string, s: string)
    requires AllAscii(p) && '%' !in p
    ensures Unquote(p + s) == p + Unquote(s)
  {
    if p != [] {
      var c, p' := p[0], p[1..];
      assert p == [c] + p';
      ConcatAssoc([c], p', s);
      UnquoteAsciiCons(c, p' + s);
      UnquoteAsciiPrefix(p', s);
      ConcatAssoc([c], p', Unquote(s));
    } else {
      assert p + s == s;
    }
  }

  /** `s` with the characters `chosen` marks percent-encoded through their
      UTF-8 bytes and the others left as they are: one of the many ways the
      same reference can be spelled. */
  function EncodeSelected(s: string, chosen: seq<bool>): (r: string)
    requires |chosen| == |s|
    ensures |r| >= |s|
  {
    if s == [] then []
    else
      var head := if chosen[0] then PercentEncode([s[0]]) else [s[0]];
      assert |head| >= 1 by {
        if chosen[0] { PercentEncodeStart([s[0]]); }
      }
      head + EncodeSelected(s[1..], chosen[1..])
  }

  /** Every '%' of `s` is among the characters `chosen` for encoding (a
      literal '%' must be escaped to survive decoding). */
  predicate EscapesPercent(s: string, chosen: seq<bool>) {
    |chosen| == |s| && forall k :: 0 <= k < |s| && s[k] == '%' ==> chosen[k]
  }

  lemma {:induction false} EncodeSelectedAppend(a: string, ca: seq<bool>, b: string, cb: seq<bool>)
    requires |ca| == |a| && |cb| == |b|
    ensures EncodeSelected(a + b, ca + cb) == EncodeSelected(a, ca) + EncodeSelected(b, cb)
  {
    if a == [] {
      assert a + b == b && ca + cb == cb;
    } else {
      assert (a + b)[1..] == a[1..] + b && (ca + cb)[1..] == ca[1..] + cb;
      EncodeSelectedAppend(a[1..], ca[1..], b, cb);
    }
  }

  /** Where the encoding has only ASCII characters, its bytes are the UTF-8
      bytes of the text it spells. */
  lemma {:induction false} SpelledBytes(s: string, chosen: seq<bool>)
    requires EscapesPercent(s, chosen) && forall k :: 0 <= k < |s| ==> chosen[k] || s[k] as int < 128
    ensures AllAscii(EncodeSelected(s, chosen))
    ensures PercentBytes(EncodeSelected(s, chosen)) == Utf8.Encode(s)
  {
    if s != [] {
      var rest := EncodeSelected(s[1..], chosen[1..]);
      SpelledBytes(s[1..], chosen[1..]);
      var c := s[0];
      if chosen[0] {
        assert Utf8.Encode([c]) == Utf8.EncodeChar(c) by {
          assert [c][1..] == [];
        }
        PercentBytesOfEncoding(Utf8.EncodeChar(c), rest);
      } else {
        assert ([c] + rest)[1..] == rest;
        assert PercentBytes([c] + rest) == [c as int as byte] + PercentBytes(rest);
      }
    }
  }

  /** The first character at or after `i` that is left unencoded and is not
      ASCII, or the end of `s`. */
  function FirstPlainWide(s: string, chosen: seq<bool>, i: nat): (r: nat)
    requires |chosen| == |s| && i <= |s|
    ensures i <= r <= |s|
    ensures forall k :: i <= k < r ==> chosen[k] || s[k] as int < 128
    ensures r < |s| ==> !chosen[r] && s[r] as int >= 128
    decreases |s| - i
  {
    if i == |s| || (!chosen[i] && s[i] as int >= 128) then i else FirstPlainWide(s, chosen, i + 1)
  }

  lemma {:induction false} AsciiRunBeforeWide(a: string, c: char, r: string)
    requires AllAscii(a) && c as int >= 128
    ensures AsciiRunLength(a + [c] + r) == |a|
  {
    if a != [] {
      assert (a + [c] + r)[1..] == a[1..] + [c] + r;
      AsciiRunBeforeWide(a[1..], c, r);
    } else {
      assert a + [c] + r == [c] + r;
    }
  }

  /** A character outside ASCII is kept as it is and ends the run before it. */
  lemma UnquoteBeforeWide(a: string, c: char, r: string)
    requires AllAscii(a) && c as int >= 128
    ensures Unquote(a + [c] + r) == (if a == [] then [] else Utf8.Decode(PercentBytes(a), Utf8.Replace)) + [c] + Unquote(r)
  {
    var w := [c] + r;
    assert w[1..] == r;
    assert Unquote(w) == [c] + Unquote(r);
    if a != [] {
      var t := a + [c] + r;
      AsciiRunBeforeWide(a, c, r);
      assert t[..|a|] == a && t[|a|..] == w;
    } else {
      assert a + [c] + r == w;
    }
  }

  /** A spelling whose every character is ASCII is one run, and decodes to
      the text it spells. */
  lemma UnquoteOfSpelledRun(s: string, chosen: seq<bool>)
    requires EscapesPercent(s, chosen) && forall k :: 0 <= k < |s| ==> chosen[k] || s[k] as int < 128
    ensures Unquote(EncodeSelected(s, chosen)) == s
  {
    var a := EncodeSelected(s, chosen);
    SpelledBytes(s, chosen);
    Utf8.RoundTrip(s, Utf8.Replace);
    if a != [] {
      UnquoteOfAsciiRun(a);
    }
  }

  /** A character left unencoded stands for itself between the spellings
      of what comes before and after it. */
  lemma SelectedAround(s: string, chosen: seq<bool>, i: nat)
    requires |chosen| == |s| && i < |s| && !chosen[i]
    ensures EncodeSelected(s, chosen) ==
            EncodeSelected(s[..i], chosen[..i]) + [s[i]] + EncodeSelected(s[i + 1..], chosen[i + 1..])
  {
    var c := s[i];
    assert s == s[..i] + ([c] + s[i + 1..]) && chosen == chosen[..i] + ([false] + chosen[i + 1..]);
    EncodeSelectedAppend(s[..i], chosen[..i], [c] + s[i + 1..], [false] + chosen[i + 1..]);
    EncodeSelectedAppend([c], [false], s[i + 1..], chosen[i + 1..]);
    assert EncodeSelected([c], [false]) == [c];
  }

  /** Percent-decoding undoes any choice of characters to encode, as long
      as every '%' is among them. */
  lemma {:induction false} UnquoteOfSelected(s: string, chosen: seq<bool>)
    requires EscapesPercent(s, chosen)
    ensures Unquote(EncodeSelected(s, chosen)) == s
    decreases |s|
  {
    var i := FirstPlainWide(s, chosen, 0);
    if i == |s| {
      assert s[..i] == s && chosen[..i] == chosen;
      UnquoteOfSpelledRun(s, chosen);
    } else {
      var u, c, v := s[..i], s[i], s[i + 1..];
      assert s == u + [c] + v;
      var a := EncodeSelected(u, chosen[..i]);
      var r := EncodeSelected(v, chosen[i + 1..]);
      assert AllAscii(a) by {
        SpelledBytes(u, chosen[..i]);
      }
      var d := if a == [] then [] else Utf8.Decode(PercentBytes(a), Utf8.Replace);
      assert d == u by {
        if u != [] { UnquoteOfSpelledRun(u, chosen[..i]); UnquoteOfAsciiRun(a); }
      }
      calc {
        Unquote(EncodeSelected(s, chosen));
        { SelectedAround(s, chosen, i); }
        Unquote(a + [c] + r);
        { UnquoteBeforeWide(a, c, r); }
        d + [c] + Unquote(r);
        { UnquoteOfSelected(v, chosen[i + 1..]); }
        u + [c] + v;
        s;
      }
    }
  }

  /** An encoding that starts with a prefix free of '%' spells a text that
      starts with it: an escape never stands for its own first character. */
  lemma {:induction false} SelectedPrefix(s: string, chosen: seq<bool>, p: string)
    requires |chosen| == |s| && '%' !in p && StartsWith(EncodeSelected(s, chosen), p)
    ensures StartsWith(s, p)
  {
    if p != [] {
      var rest := EncodeSelected(s[1..], chosen[1..]);
      var q := EncodeSelected(s, chosen);
      assert q[0] == p[0] && p[0] != '%' by {
        assert q[..|p|][0] == q[0];
      }
      assert !chosen[0] by {
        if chosen[0] {
          PercentEncodeStart([s[0]]);
          assert false;
        }
      }
      assert q == [s[0]] + rest;
      assert StartsWith(rest, p[1..]) by {
        assert rest[..|p| - 1] == q[1..|p|];
      }
      SelectedPrefix(s[1..], chosen[1..], p[1..]);
      assert s[..|p|] == [s[0]] + s[1..][..|p| - 1];
    }
  }
}
