/** Characters, bytes and the small string operations the converter uses
    (`startswith`, single-character `replace`, `strip`, `os.path.basename`)
    and the character classes of Python's `re` module that its patterns rely on. */
module Text {

  newtype byte = x: int | 0 <= x < 256

  predicate StartsWith(s: string, prefix: string) {
    |prefix| <= |s| && s[..|prefix|] == prefix
  }

  /** `s.replace(from, to)` for single characters. */
  function ReplaceChar(s: string, from: char, to: char): (r: string)
    ensures |r| == |s|
    ensures from != to ==> from !in r
  {
    seq(|s|, k requires 0 <= k < |s| => if s[k] == from then to else s[k])
  }

  lemma ConcatAssoc<T>(a: seq<T>, b: seq<T>, c: seq<T>)
    ensures a + b + c == a + (b + c)
  {
  }

  /** Two strings that differ at most in the direction of their path separators. */
  predicate SameUpToSlashes(a: string, b: string) {
    |a| == |b| &&
    forall k :: 0 <= k < |a| ==> a[k] == b[k] || (a[k] in "/\\" && b[k] in "/\\")
  }

  lemma ReplaceBackslashesAgree(a: string, b: string)
    requires SameUpToSlashes(a, b)
    ensures ReplaceChar(a, '\\', '/') == ReplaceChar(b, '\\', '/')
  {
  }

  /** A prefix without separators survives a change of separator direction. */
  lemma SlashFreePrefix(a: string, b: string, prefix: string)
    requires SameUpToSlashes(a, b) && '/' !in prefix && '\\' !in prefix
    ensures StartsWith(a, prefix) ==> StartsWith(b, prefix)
  {
    if StartsWith(a, prefix) {
      forall k | 0 <= k < |prefix| ensures b[k] == prefix[k] {
        assert a[k] == prefix[k];
      }
    }
  }

  lemma SameUpToSlashesSymmetric(a: string, b: string)
    requires SameUpToSlashes(a, b)
    ensures SameUpToSlashes(b, a)
  {
  }

  lemma SameUpToSlashesConcat(a1: string, b1: string, a2: string, b2: string)
    requires SameUpToSlashes(a1, b1) && SameUpToSlashes(a2, b2)
    ensures SameUpToSlashes(a1 + a2, b1 + b2)
  {
    var a, b := a1 + a2, b1 + b2;
    forall k | |a1| <= k < |a|
      ensures a[k] == b[k] || (a[k] in "/\\" && b[k] in "/\\")
    {
      assert a[k] == a2[k - |a1|] && b[k] == b2[k - |a1|];
    }
  }

  lemma SameUpToSlashesSlice(a: string, b: string, i: nat, j: nat)
    requires SameUpToSlashes(a, b) && i <= j <= |a|
    ensures SameUpToSlashes(a[i..j], b[i..j]) && SameUpToSlashes(a[i..], b[i..])
  {
    forall k | 0 <= k < j - i
      ensures a[i..j][k] == b[i..j][k] || (a[i..j][k] in "/\\" && b[i..j][k] in "/\\")
    {
      assert a[i..j][k] == a[i + k] && b[i..j][k] == b[i + k];
    }
    forall k | 0 <= k < |a| - i
      ensures a[i..][k] == b[i..][k] || (a[i..][k] in "/\\" && b[i..][k] in "/\\")
    {
      assert a[i..][k] == a[i + k] && b[i..][k] == b[i + k];
    }
  }

  /** Case-insensitive equality of the character `c` with the lower-case
      pattern character `p`, as Python's `re` decides it under IGNORECASE:
      simple lower-casing, plus the extra equivalences that module adds
      (dotless i, long s, Kelvin sign). */
  predicate FoldEq(c: char, p: char) {
    || c == p
    || ('a' <= p <= 'z' && c as int == p as int - 32)
    || (p == 'i' && (c == '\U{0130}' || c == '\U{0131}'))
    || (p == 's' && c == '\U{017F}')
    || (p == 'k' && c == '\U{212A}')
  }

  /** `pattern` (lower-case) matches `s` at offset `i`, case-insensitively. */
  predicate FoldMatchAt(s: string, i: nat, pattern: string) {
    i + |pattern| <= |s| && forall k :: 0 <= k < |pattern| ==> FoldEq(s[i + k], pattern[k])
  }

  /** A case-insensitive match at the start survives appending text. */
  lemma FoldMatchPrefix(s: string, rest: string, pattern: string)
    requires FoldMatchAt(s, 0, pattern)
    ensures FoldMatchAt(s + rest, 0, pattern)
  {
    forall k | 0 <= k < |pattern|
      ensures FoldEq((s + rest)[0 + k], pattern[k])
    {
      assert (s + rest)[k] == s[k];
    }
  }

  /** A case-insensitive match survives cutting out a slice around it. */
  lemma FoldMatchInSlice(s: string, i: nat, e: nat, pattern: string)
    requires FoldMatchAt(s, i, pattern) && i + |pattern| <= e <= |s|
    ensures FoldMatchAt(s[i..e], 0, pattern)
  {
    forall k | 0 <= k < |pattern|
      ensures FoldEq(s[i..e][k], pattern[k])
    {
      assert s[i..e][k] == s[i + k];
    }
  }

  /** Python's `\s` for str patterns. */
  predicate IsSpace(c: char) {
    || ('\t' <= c <= '\r')
    || ('\U{1C}' <= c <= ' ')
    || c == '\U{85}' || c == '\U{A0}' || c == '\U{1680}'
    || ('\U{2000}' <= c <= '\U{200A}')
    || c == '\U{2028}' || c == '\U{2029}' || c == '\U{202F}' || c == '\U{205F}' || c == '\U{3000}'
  }

  /** `\w`, restricted to ASCII (letters, digits and the underscore). */
  predicate IsWordChar(c: char) {
    ('a' <= c <= 'z') || ('A' <= c <= 'Z') || ('0' <= c <= '9') || c == '_'
  }

  predicate AllAscii(s: string) {
    forall k :: 0 <= k < |s| ==> s[k] as int < 128
  }

  /** Where `s.lstrip(chars)` starts: the first position at or after `i`
      whose character is not in `chars`. */
  function LeadEnd(s: string, chars: string, i: nat): (e: nat)
    requires i <= |s|
    ensures i <= e <= |s|
    decreases |s| - i
  {
    if i < |s| && s[i] in chars then LeadEnd(s, chars, i + 1) else i
  }

  /** Where the following `rstrip(chars)` ends: the last position down to
      `lo` after which only characters in `chars` follow. */
  function TrailStart(s: string, chars: string, lo: nat, j: nat): (e: nat)
    requires lo <= j <= |s|
    ensures lo <= e <= j
    decreases j
  {
    if lo < j && s[j - 1] in chars then TrailStart(s, chars, lo, j - 1) else j
  }

  /** `s.strip(chars)`: `lstrip` and then `rstrip`. The result neither
      starts nor ends with a character of `chars`. */
  function Strip(s: string, chars: string): (r: string)
    ensures |r| <= |s|
    ensures r != [] ==> r[0] !in chars && r[|r| - 1] !in chars
  {
    var i := LeadEnd(s, chars, 0);
    var j := TrailStart(s, chars, i, |s|);
    LeadEndCorrect(s, chars, 0);
    TrailStartCorrect(s, chars, i, |s|);
    s[i..j]
  }

  lemma {:induction false} LeadEndCorrect(s: string, chars: string, i: nat)
    requires i <= |s|
    ensures var e := LeadEnd(s, chars, i);
            (forall k :: i <= k < e ==> s[k] in chars) && (e < |s| ==> s[e] !in chars)
    decreases |s| - i
  {
    if i < |s| && s[i] in chars {
      LeadEndCorrect(s, chars, i + 1);
    }
  }

  lemma {:induction false} TrailStartCorrect(s: string, chars: string, lo: nat, j: nat)
    requires lo <= j <= |s|
    ensures var e := TrailStart(s, chars, lo, j);
            (forall k :: e <= k < j ==> s[k] in chars) && (lo < e ==> s[e - 1] !in chars)
    decreases j
  {
    if lo < j && s[j - 1] in chars {
      TrailStartCorrect(s, chars, lo, j - 1);
    }
  }

  /** `strip` keeps the longest middle part of `s` that neither starts nor
      ends with a character of `chars`: everything it removes is in `chars`. */
  lemma StripIsMiddle(s: string, chars: string)
    ensures exists i, j :: 0 <= i <= j <= |s| && Strip(s, chars) == s[i..j] &&
              (forall k :: 0 <= k < i ==> s[k] in chars) &&
              (forall k :: j <= k < |s| ==> s[k] in chars) &&
              (i < j ==> s[i] !in chars && s[j - 1] !in chars)
  {
    var i := LeadEnd(s, chars, 0);
    var j := TrailStart(s, chars, i, |s|);
    LeadEndCorrect(s, chars, 0);
    TrailStartCorrect(s, chars, i, |s|);
    assert Strip(s, chars) == s[i..j];
  }

  /** `posixpath.basename`: what follows the last '/'. */
  function Basename(p: string): (r: string)
    ensures '/' !in r && |r| <= |p|
  {
    if p == [] || p[|p| - 1] == '/' then [] else Basename(p[..|p| - 1]) + [p[|p| - 1]]
  }

  /** The basename is the last segment of the path: a suffix without '/',
      preceded by a '/' unless it is the whole path. */
  lemma {:induction false} BasenameIsLastSegment(p: string)
    ensures var r := Basename(p);
            '/' !in r && |r| <= |p| && r == p[|p| - |r|..] &&
            (|r| < |p| ==> p[|p| - |r| - 1] == '/')
  {
    if p != [] && p[|p| - 1] != '/' {
      var q, c := p[..|p| - 1], p[|p| - 1];
      BasenameIsLastSegment(q);
      var b := Basename(q);
      assert Basename(p) == b + [c];
      assert b + [c] == p[|p| - |b| - 1..] by {
        assert p == q + [c];
        assert b == q[|q| - |b|..];
      }
      assert |b| < |q| ==> p[|p| - |b| - 2] == '/' by {
        if |b| < |q| {
          assert p[|p| - |b| - 2] == q[|q| - |b| - 1];
        }
      }
    }
  }
}
