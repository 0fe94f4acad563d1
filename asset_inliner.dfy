/** The two substitutions that inline images into chapters and style sheets
    (converter.py:176-223): `re.sub` with the CSS pattern `url\(([^)]+)\)`
    and with the attribute pattern
    `(\b(?:src|href|xlink:href)\b)\s*=\s*(['"])([^'"]+)\2`, both under
    IGNORECASE, each match handed to the resolver.

    A substitution is modelled in two steps, as `re.sub` performs it: the
    text is cut into pieces, scanning from the left (a match where one
    starts, otherwise a single character), and then every piece is written
    out again, a match that resolves being replaced and everything else
    kept as it was. */
module AssetInliner {
  import opened Wrappers
  import opened Text
  import opened ImageIndex
  import opened ImageResolver

  datatype Piece =
    | Plain(c: char)
    | UrlRef(span: string, value: string)
    | AttrRef(span: string, name: string, quote: char, value: string)

  function Span(p: Piece): string {
    match p
    case Plain(c) => [c]
    case UrlRef(span, _) => span
    case AttrRef(span, _, _, _) => span
  }

  /** The text the pieces were cut from. */
  function Original(ps: seq<Piece>): string {
    if ps == [] then [] else Span(ps[0]) + Original(ps[1..])
  }

  lemma OriginalCons(x: Piece, rest: seq<Piece>)
    ensures Original([x] + rest) == Span(x) + Original(rest)
  {
    assert ([x] + rest)[1..] == rest;
  }

  lemma SplitAt(text: string, i: nat, end: nat)
    requires i <= end <= |text|
    ensures text[i..] == text[i..end] + text[end..]
  {
  }

  /** One piece after substitution: `url("<uri>")` for a CSS reference,
      `<name>=<quote><uri><quote>` for an attribute, the matched text when
      the resolver finds nothing. */
  function RewritePiece(p: Piece, idx: Index): (r: string)
    ensures p.Plain? || Resolve(p.value, idx).None? ==> r == Span(p)
  {
    match p
    case Plain(c) => [c]
    case UrlRef(span, value) =>
      (match Resolve(value, idx)
       case Some(uri) => "url(\"" + uri + "\")"
       case None => span)
    case AttrRef(span, name, quote, value) =>
      (match Resolve(value, idx)
       case Some(uri) => name + "=" + [quote] + uri + [quote]
       case None => span)
  }

  function Rewritten(ps: seq<Piece>, idx: Index): string {
    if ps == [] then [] else RewritePiece(ps[0], idx) + Rewritten(ps[1..], idx)
  }

  /** Pieces the resolver finds nothing for are written out unchanged. */
  lemma {:induction false} RewrittenUnresolved(ps: seq<Piece>, idx: Index)
    requires forall p :: p in ps && !p.Plain? ==> Resolve(p.value, idx).None?
    ensures Rewritten(ps, idx) == Original(ps)
  {
    if ps != [] {
      assert ps[0] in ps;
      assert forall p :: p in ps[1..] ==> p in ps;
      RewrittenUnresolved(ps[1..], idx);
    }
  }

  // ---------------------------------------------------------------------
  // CSS references: url\(([^)]+)\)

  /** Where `[^)]+` starting at `j` stops: the first ')' at or after `j`. */
  function CloseParen(text: string, j: nat): (e: nat)
    requires j <= |text|
    ensures j <= e <= |text|
    ensures forall k :: j <= k < e ==> text[k] != ')'
    ensures e < |text| ==> text[e] == ')'
    decreases |text| - j
  {
    if j == |text| || text[j] == ')' then j else CloseParen(text, j + 1)
  }

  /** `url\(([^)]+)\)` matches `text[i..end]`: "url(" in any case, at
      least one character other than ')', then ')'. */
  predicate IsUrlMatch(text: string, i: nat, end: nat) {
    FoldMatchAt(text, i, "url(") && i + 6 <= end <= |text| && text[end - 1] == ')' &&
    forall k :: i + 4 <= k < end - 1 ==> text[k] != ')'
  }

  /** The pattern matches in at most one way at a given position. */
  lemma UrlMatchUnique(text: string, i: nat, e1: nat, e2: nat)
    requires IsUrlMatch(text, i, e1) && IsUrlMatch(text, i, e2)
    ensures e1 == e2
  {
  }

  /** The end of the match of the CSS pattern at `i`, if it matches there. */
  function UrlMatchEnd(text: string, i: nat): (r: Option<nat>)
    requires i <= |text|
    ensures r.Some? ==> IsUrlMatch(text, i, r.value)
    ensures r.None? ==> forall end :: !IsUrlMatch(text, i, end)
  {
    if !FoldMatchAt(text, i, "url(") then None
    else
      var e := CloseParen(text, i + 4);
      if e == i + 4 || e == |text| then
        None
      else Some(e + 1)
  }

  /** The characters `.strip(' "\'')` removes from the captured value. */
  const UrlQuotes: string := " \"'"

  /** The piece for the match `text[i..end]`: the whole token, and the
      captured group with `.strip(' "\'')` applied. */
  function UrlPiece(text: string, i: nat, end: nat): (p: Piece)
    requires i + 6 <= end <= |text|
    ensures p.UrlRef? && p.span == text[i..end]
  {
    UrlRef(text[i..end], Strip(text[i + 4..end - 1], UrlQuotes))
  }

  /** `re.finditer` over the CSS pattern, from position `i`: the matches and
      the characters between them, in order. */
  function ScanCss(text: string, i: nat): (ps: seq<Piece>)
    requires i <= |text|
    decreases |text| - i
  {
    if i == |text| then []
    else
      match UrlMatchEnd(text, i)
      case Some(end) => [UrlPiece(text, i, end)] + ScanCss(text, end)
      case None => [Plain(text[i])] + ScanCss(text, i + 1)
  }

  /** One step of the CSS scan: a match at `i` is the first piece, and the
      scan goes on after it; otherwise the character at `i` is. */
  lemma ScanCssStep(text: string, i: nat)
    requires i < |text|
    ensures var ps := ScanCss(text, i);
            ps != [] &&
            match UrlMatchEnd(text, i)
            case Some(end) => ps[0] == UrlPiece(text, i, end) && ps[1..] == ScanCss(text, end)
            case None => ps[0] == Plain(text[i]) && ps[1..] == ScanCss(text, i + 1)
  {
  }

  /** The pieces of the CSS scan put back together give the text scanned. */
  lemma {:induction false} ScanCssOriginal(text: string, i: nat)
    requires i <= |text|
    ensures Original(ScanCss(text, i)) == text[i..]
    decreases |text| - i
  {
    if i < |text| {
      match UrlMatchEnd(text, i)
      case Some(end) =>
        ScanCssOriginal(text, end);
        SplitAt(text, i, end);
        OriginalCons(UrlPiece(text, i, end), ScanCss(text, end));
      case None =>
        ScanCssOriginal(text, i + 1);
        SplitAt(text, i, i + 1);
        OriginalCons(Plain(text[i]), ScanCss(text, i + 1));
    }
  }

  /** A CSS piece is a whole `url(...)` token, and its value is what lies
      between the parentheses with spaces and quotes stripped. */
  predicate WellFormedUrlRef(p: Piece)
    requires p.UrlRef?
  {
    IsUrlMatch(p.span, 0, |p.span|) && p.value == Strip(p.span[4..|p.span| - 1], UrlQuotes)
  }

  lemma UrlMatchShift(text: string, i: nat, end: nat)
    requires IsUrlMatch(text, i, end)
    ensures IsUrlMatch(text[i..end], 0, end - i)
  {
    var span := text[i..end];
    FoldMatchInSlice(text, i, end, "url(");
    assert span[|span| - 1] == text[end - 1];
    forall k | 4 <= k < |span| - 1 ensures span[k] != ')' {
      assert span[k] == text[i + k];
    }
  }

  lemma GroupInSlice(text: string, i: nat, end: nat)
    requires i + 6 <= end <= |text|
    ensures text[i..end][4..end - i - 1] == text[i + 4..end - 1]
  {
    var inner, group := text[i..end][4..end - i - 1], text[i + 4..end - 1];
    forall k | 0 <= k < |group| ensures inner[k] == group[k] {
      assert inner[k] == text[i + 4 + k];
    }
  }

  lemma UrlMatchInSlice(text: string, i: nat, end: nat)
    requires IsUrlMatch(text, i, end)
    ensures WellFormedUrlRef(UrlPiece(text, i, end))
  {
    UrlMatchShift(text, i, end);
    GroupInSlice(text, i, end);
  }

  lemma {:induction false} ScanCssPieces(text: string, i: nat)
    requires i <= |text|
    ensures forall p :: p in ScanCss(text, i) && p.UrlRef? ==> WellFormedUrlRef(p)
    ensures forall p :: p in ScanCss(text, i) ==> !p.AttrRef?
    decreases |text| - i
  {
    if i < |text| {
      var ps := ScanCss(text, i);
      match UrlMatchEnd(text, i)
      case Some(end) =>
        ScanCssPieces(text, end);
        UrlMatchInSlice(text, i, end);
        var rest := ScanCss(text, end);
        assert ps == [UrlPiece(text, i, end)] + rest;
        assert forall p :: p in ps ==> p == ps[0] || p in rest;
      case None =>
        ScanCssPieces(text, i + 1);
        var rest := ScanCss(text, i + 1);
        assert ps == [Plain(text[i])] + rest;
        assert forall p :: p in ps ==> p == ps[0] || p in rest;
    }
  }

  /** `ps` is what `re.finditer` over the CSS pattern yields from `i` on,
      described without the scanner: where the pattern matches, the piece
      is that whole match with its stripped group and the next piece starts
      after it; where it matches in no way, the piece is that one character;
      the pieces end exactly at the end of the text. */
  ghost predicate CssExact(text: string, i: nat, ps: seq<Piece>)
    requires i <= |text|
    decreases |ps|
  {
    if ps == [] then i == |text|
    else
      i < |text| &&
      match ps[0]
      case Plain(c) =>
        c == text[i] && (forall end :: !IsUrlMatch(text, i, end)) && CssExact(text, i + 1, ps[1..])
      case UrlRef(span, value) =>
        IsUrlMatch(text, i, i + |span|) && span == text[i..i + |span|] &&
        value == Strip(text[i + 4..i + |span| - 1], UrlQuotes) && CssExact(text, i + |span|, ps[1..])
      case AttrRef(_, _, _, _) => false
  }

  /** The CSS scan finds every match, leftmost first and without overlap. */
  lemma {:induction false} ScanCssExact(text: string, i: nat)
    requires i <= |text|
    ensures CssExact(text, i, ScanCss(text, i))
    decreases |text| - i
  {
    if i < |text| {
      match UrlMatchEnd(text, i)
      case Some(end) =>
        ScanCssExact(text, end);
        CssExactUrl(text, i, end, ScanCss(text, end));
      case None =>
        ScanCssExact(text, i + 1);
        CssExactPlain(text, i, ScanCss(text, i + 1));
    }
  }

  lemma {:induction false} CssExactUrl(text: string, i: nat, end: nat, rest: seq<Piece>)
    requires IsUrlMatch(text, i, end) && CssExact(text, end, rest)
    ensures CssExact(text, i, [UrlPiece(text, i, end)] + rest)
  {
    var ps := [UrlPiece(text, i, end)] + rest;
    assert ps[1..] == rest;
  }

  lemma {:induction false} CssExactPlain(text: string, i: nat, rest: seq<Piece>)
    requires i < |text| && (forall end :: !IsUrlMatch(text, i, end)) && CssExact(text, i + 1, rest)
    ensures CssExact(text, i, [Plain(text[i])] + rest)
  {
    var ps := [Plain(text[i])] + rest;
    assert ps[1..] == rest;
  }

  /** The description admits nothing but the scan: the matches `re.sub`
      replaces are exactly those of `ScanCss`. */
  lemma {:induction false} CssExactUnique(text: string, i: nat, ps: seq<Piece>)
    requires i <= |text| && CssExact(text, i, ps)
    ensures ps == ScanCss(text, i)
    decreases |ps|
  {
    if ps != [] {
      var qs := ScanCss(text, i);
      CssExactHead(text, i, ps);
      ScanCssStep(text, i);
      match UrlMatchEnd(text, i)
      case Some(end) =>
        CssExactUnique(text, end, ps[1..]);
      case None =>
        CssExactUnique(text, i + 1, ps[1..]);
      assert ps == [ps[0]] + ps[1..] && qs == [qs[0]] + qs[1..];
    }
  }

  /** The first piece a description admits is the match at `i` if there is
      one, and the character at `i` otherwise. */
  lemma {:induction false} CssExactHead(text: string, i: nat, ps: seq<Piece>)
    requires i <= |text| && CssExact(text, i, ps) && ps != []
    ensures i < |text|
    ensures match UrlMatchEnd(text, i)
            case Some(end) => ps[0] == UrlPiece(text, i, end) && CssExact(text, end, ps[1..])
            case None => ps[0] == Plain(text[i]) && CssExact(text, i + 1, ps[1..])
  {
    match ps[0]
    case Plain(c) =>
      assert UrlMatchEnd(text, i).None?;
    case UrlRef(span, value) =>
      var end := UrlMatchEnd(text, i).value;
      UrlMatchUnique(text, i, end, i + |span|);
  }

  /** Text in which "url(" occurs in no case is cut into single characters. */
  lemma {:induction false} ScanCssWithoutUrl(text: string, i: nat)
    requires i <= |text|
    requires forall k :: i <= k < |text| ==> !FoldMatchAt(text, k, "url(")
    ensures forall p :: p in ScanCss(text, i) ==> p.Plain?
    decreases |text| - i
  {
    if i < |text| {
      ScanCssWithoutUrl(text, i + 1);
    }
  }

  /** `re.sub(r'url\(([^)]+)\)', replace_css_url, text, flags=re.IGNORECASE)`. */
  function SubCssUrls(text: string, idx: Index): string {
    Rewritten(ScanCss(text, 0), idx)
  }

  /** With no images, the style sheet or chapter is left as it is. */
  lemma SubCssUrlsEmptyIndex(text: string)
    ensures SubCssUrls(text, []) == text
  {
    var ps := ScanCss(text, 0);
    forall p | p in ps && !p.Plain? ensures Resolve(p.value, []).None? {
      ResolveEmptyIndex(p.value);
    }
    RewrittenUnresolved(ps, []);
    ScanCssOriginal(text, 0);
  }

  /** Text without a "url(" in any case is left as it is, whatever the images. */
  lemma SubCssUrlsWithoutUrl(text: string, idx: Index)
    requires forall k :: 0 <= k < |text| ==> !FoldMatchAt(text, k, "url(")
    ensures SubCssUrls(text, idx) == text
  {
    ScanCssWithoutUrl(text, 0);
    RewrittenUnresolved(ScanCss(text, 0), idx);
    ScanCssOriginal(text, 0);
  }

  /** A single `url(<v>)` token: it becomes `url("<uri>")` when its stripped
      value resolves, and stays as it is otherwise. */
  lemma SubCssUrlsSingle(v: string, idx: Index)
    requires v != [] && ')' !in v
    ensures var text := "url(" + v + ")";
            SubCssUrls(text, idx) == match Resolve(Strip(v, UrlQuotes), idx)
                                     case Some(uri) => "url(\"" + uri + "\")"
                                     case None => text
  {
    var text := "url(" + v + ")";
    assert FoldMatchAt(text, 0, "url(");
    assert forall k :: 4 <= k < |text| - 1 ==> text[k] == v[k - 4];
    assert IsUrlMatch(text, 0, |text|);
    var r := UrlMatchEnd(text, 0);
    UrlMatchUnique(text, 0, r.value, |text|);
    assert text[0..|text|] == text;
    assert text[4..|text| - 1] == v;
    var x := UrlRef(text, Strip(v, UrlQuotes));
    assert UrlPiece(text, 0, |text|) == x;
    assert ScanCss(text, |text|) == [];
    assert ScanCss(text, 0) == [x];
    assert Rewritten([x], idx) == RewritePiece(x, idx) + Rewritten([x][1..], idx);
  }

  // ---------------------------------------------------------------------
  // Attributes: (\b(?:src|href|xlink:href)\b)\s*=\s*(['"])([^'"]+)\2

  const Quotes: string := "'\""

  /** `(?:src|href|xlink:href)` matches `text[i..end]`, in any case. */
  predicate NameMatches(text: string, i: nat, end: nat) {
    || (FoldMatchAt(text, i, "src") && end == i + 3)
    || (FoldMatchAt(text, i, "href") && end == i + 4)
    || (FoldMatchAt(text, i, "xlink:href") && end == i + 10)
  }

  /** The alternatives begin with different letters, so at most one of them
      matches at a position. */
  lemma NameMatchUnique(text: string, i: nat, e1: nat, e2: nat)
    requires NameMatches(text, i, e1) && NameMatches(text, i, e2)
    ensures e1 == e2
  {
    if FoldMatchAt(text, i, "src") {
      assert FoldEq(text[i + 0], "src"[0]);
    }
    if FoldMatchAt(text, i, "href") {
      assert FoldEq(text[i + 0], "href"[0]);
    }
    if FoldMatchAt(text, i, "xlink:href") {
      assert FoldEq(text[i + 0], "xlink:href"[0]);
    }
  }

  /** Where `(?:src|href|xlink:href)` ends when it matches at `i`. */
  function NameEnd(text: string, i: nat): (r: Option<nat>)
    ensures r.Some? ==> i + 3 <= r.value <= |text|
  {
    if FoldMatchAt(text, i, "src") then Some(i + 3)
    else if FoldMatchAt(text, i, "href") then Some(i + 4)
    else if FoldMatchAt(text, i, "xlink:href") then Some(i + 10)
    else None
  }

  lemma NameEndCorrect(text: string, i: nat)
    ensures var r := NameEnd(text, i);
            (r.Some? ==> NameMatches(text, i, r.value)) &&
            (r.None? ==> forall end :: !NameMatches(text, i, end))
  {
  }

  /** Where the greedy `\s*` starting at `j` stops. */
  function SpaceEnd(text: string, j: nat): (e: nat)
    requires j <= |text|
    ensures j <= e <= |text|
    decreases |text| - j
  {
    if j == |text| || !IsSpace(text[j]) then j else SpaceEnd(text, j + 1)
  }

  /** `\s*` takes every white-space character from `j` on and stops at the
      first other one. */
  lemma {:induction false} SpaceEndCorrect(text: string, j: nat)
    requires j <= |text|
    ensures var e := SpaceEnd(text, j);
            (forall k :: j <= k < e ==> IsSpace(text[k])) && (e < |text| ==> !IsSpace(text[e]))
    decreases |text| - j
  {
    if j < |text| && IsSpace(text[j]) {
      SpaceEndCorrect(text, j + 1);
    }
  }

  /** Where the greedy `[^'"]+` starting at `j` stops. */
  function QuoteEnd(text: string, j: nat): (e: nat)
    requires j <= |text|
    ensures j <= e <= |text|
    decreases |text| - j
  {
    if j == |text| || text[j] in Quotes then j else QuoteEnd(text, j + 1)
  }

  /** `[^'"]+` takes every character from `j` on up to the first quote. */
  lemma {:induction false} QuoteEndCorrect(text: string, j: nat)
    requires j <= |text|
    ensures var e := QuoteEnd(text, j);
            (forall k :: j <= k < e ==> text[k] !in Quotes) && (e < |text| ==> text[e] in Quotes)
    decreases |text| - j
  {
    if j < |text| && text[j] !in Quotes {
      QuoteEndCorrect(text, j + 1);
    }
  }

  /** Where the parts of an attribute match lie: the end of the name, the
      '=', the opening quote and the closing quote. */
  datatype AttrSpan = AttrSpan(nameEnd: nat, eqAt: nat, quoteAt: nat, valueEnd: nat)

  /** The leading `\b`: the name, which begins with a word character, is
      not preceded by one. */
  predicate WordStart(text: string, i: nat) {
    i == 0 || (i <= |text| && !IsWordChar(text[i - 1]))
  }

  /** The attribute pattern matches at `i` with its parts at `m`; the match
      is `text[i..m.valueEnd + 1]`. The `\b` after the name holds of itself,
      because what follows it is white space or '='. */
  predicate IsAttrMatch(text: string, i: nat, m: AttrSpan) {
    && WordStart(text, i)
    && NameMatches(text, i, m.nameEnd)
    && m.nameEnd <= m.eqAt < m.quoteAt < m.valueEnd < |text|
    && (forall k :: m.nameEnd <= k < m.eqAt ==> IsSpace(text[k]))
    && text[m.eqAt] == '='
    && (forall k :: m.eqAt < k < m.quoteAt ==> IsSpace(text[k]))
    && text[m.quoteAt] in Quotes
    && m.quoteAt + 1 < m.valueEnd
    && (forall k :: m.quoteAt < k < m.valueEnd ==> text[k] !in Quotes)
    && text[m.valueEnd] == text[m.quoteAt]
  }

  /** Two runs of white space from the same place, each ended by the same
      non-space character, end at the same place. */
  lemma SpaceRunUnique(text: string, j: nat, e1: nat, e2: nat)
    requires j <= e1 < |text| && j <= e2 < |text|
    requires forall k :: j <= k < e1 ==> IsSpace(text[k])
    requires forall k :: j <= k < e2 ==> IsSpace(text[k])
    requires !IsSpace(text[e1]) && !IsSpace(text[e2])
    ensures e1 == e2
  {
  }

  /** The pattern matches in at most one way at a given position. */
  lemma AttrMatchUnique(text: string, i: nat, m1: AttrSpan, m2: AttrSpan)
    requires IsAttrMatch(text, i, m1) && IsAttrMatch(text, i, m2)
    ensures m1 == m2
  {
    NameMatchUnique(text, i, m1.nameEnd, m2.nameEnd);
    assert !IsSpace('=');
    SpaceRunUnique(text, m1.nameEnd, m1.eqAt, m2.eqAt);
    assert !IsSpace('\'') && !IsSpace('"');
    SpaceRunUnique(text, m1.eqAt + 1, m1.quoteAt, m2.quoteAt);
  }

  /** The match of the attribute pattern at `i`, if it matches there;
      `AttrMatchAtCorrect` states that it is the match. */
  function AttrMatchAt(text: string, i: nat): (r: Option<AttrSpan>)
    requires i <= |text|
    ensures r.Some? ==> i + 3 <= r.value.nameEnd <= r.value.eqAt < r.value.quoteAt < r.value.valueEnd < |text|
  {
    if !WordStart(text, i) then None
    else
      match NameEnd(text, i)
      case None => None
      case Some(nameEnd) =>
        var eqAt := SpaceEnd(text, nameEnd);
        if eqAt == |text| || text[eqAt] != '=' then None
        else
          var quoteAt := SpaceEnd(text, eqAt + 1);
          if quoteAt == |text| || text[quoteAt] !in Quotes then None
          else
            var valueEnd := QuoteEnd(text, quoteAt + 1);
            if valueEnd == quoteAt + 1 || valueEnd == |text| || text[valueEnd] != text[quoteAt] then None
            else Some(AttrSpan(nameEnd, eqAt, quoteAt, valueEnd))
  }

  /** `AttrMatchAt` finds the match of the attribute pattern exactly when
      there is one. */
  lemma AttrMatchAtCorrect(text: string, i: nat)
    requires i <= |text|
    ensures var r := AttrMatchAt(text, i);
            (r.Some? ==> IsAttrMatch(text, i, r.value)) &&
            (r.None? ==> forall m :: !IsAttrMatch(text, i, m))
  {
    if AttrMatchAt(text, i).Some? {
      AttrMatchAtSome(text, i);
    } else {
      AttrMatchAtNone(text, i);
    }
  }

  lemma AttrMatchAtSome(text: string, i: nat)
    requires i <= |text| && AttrMatchAt(text, i).Some?
    ensures IsAttrMatch(text, i, AttrMatchAt(text, i).value)
  {
    var m := AttrMatchAt(text, i).value;
    NameEndCorrect(text, i);
    SpaceEndCorrect(text, m.nameEnd);
    SpaceEndCorrect(text, m.eqAt + 1);
    QuoteEndCorrect(text, m.quoteAt + 1);
  }

  lemma AttrMatchAtNone(text: string, i: nat)
    requires i <= |text| && AttrMatchAt(text, i).None?
    ensures forall m :: !IsAttrMatch(text, i, m)
  {
    NameEndCorrect(text, i);
    if WordStart(text, i) && NameEnd(text, i).Some? {
      var nameEnd := NameEnd(text, i).value;
      var eqAt := SpaceEnd(text, nameEnd);
      SpaceEndCorrect(text, nameEnd);
      if eqAt == |text| || text[eqAt] != '=' {
        AttrNoEquals(text, i, nameEnd, eqAt);
      } else {
        var quoteAt := SpaceEnd(text, eqAt + 1);
        SpaceEndCorrect(text, eqAt + 1);
        if quoteAt == |text| || text[quoteAt] !in Quotes {
          AttrNoQuote(text, i, nameEnd, eqAt, quoteAt);
        } else {
          var valueEnd := QuoteEnd(text, quoteAt + 1);
          QuoteEndCorrect(text, quoteAt + 1);
          AttrNoValue(text, i, nameEnd, eqAt, quoteAt, valueEnd);
        }
      }
    }
  }

  lemma AttrNoEquals(text: string, i: nat, nameEnd: nat, eqAt: nat)
    requires NameMatches(text, i, nameEnd) && nameEnd <= eqAt <= |text|
    requires forall k :: nameEnd <= k < eqAt ==> IsSpace(text[k])
    requires eqAt < |text| ==> !IsSpace(text[eqAt])
    requires eqAt == |text| || text[eqAt] != '='
    ensures forall m :: !IsAttrMatch(text, i, m)
  {
    forall m | IsAttrMatch(text, i, m) ensures false {
      NameMatchUnique(text, i, nameEnd, m.nameEnd);
      assert !IsSpace('=');
      if eqAt < |text| {
        SpaceRunUnique(text, nameEnd, eqAt, m.eqAt);
      }
    }
  }

  lemma AttrNoQuote(text: string, i: nat, nameEnd: nat, eqAt: nat, quoteAt: nat)
    requires NameMatches(text, i, nameEnd) && nameEnd <= eqAt < quoteAt <= |text|
    requires forall k :: nameEnd <= k < eqAt ==> IsSpace(text[k])
    requires !IsSpace(text[eqAt]) && text[eqAt] == '='
    requires forall k :: eqAt < k < quoteAt ==> IsSpace(text[k])
    requires quoteAt < |text| ==> !IsSpace(text[quoteAt])
    requires quoteAt == |text| || text[quoteAt] !in Quotes
    ensures forall m :: !IsAttrMatch(text, i, m)
  {
    forall m | IsAttrMatch(text, i, m) ensures false {
      NameMatchUnique(text, i, nameEnd, m.nameEnd);
      SpaceRunUnique(text, nameEnd, eqAt, m.eqAt);
      assert !IsSpace('\'') && !IsSpace('"');
      assert !IsSpace(text[m.quoteAt]);
      if quoteAt < |text| {
        SpaceRunUnique(text, eqAt + 1, quoteAt, m.quoteAt);
      }
    }
  }

  lemma AttrNoValue(text: string, i: nat, nameEnd: nat, eqAt: nat, quoteAt: nat, valueEnd: nat)
    requires NameMatches(text, i, nameEnd) && nameEnd <= eqAt < quoteAt < valueEnd <= |text|
    requires forall k :: nameEnd <= k < eqAt ==> IsSpace(text[k])
    requires !IsSpace(text[eqAt]) && text[eqAt] == '='
    requires forall k :: eqAt < k < quoteAt ==> IsSpace(text[k])
    requires !IsSpace(text[quoteAt]) && text[quoteAt] in Quotes
    requires forall k :: quoteAt < k < valueEnd ==> text[k] !in Quotes
    requires valueEnd < |text| ==> text[valueEnd] in Quotes
    requires valueEnd == quoteAt + 1 || valueEnd == |text| || text[valueEnd] != text[quoteAt]
    ensures forall m :: !IsAttrMatch(text, i, m)
  {
    forall m | IsAttrMatch(text, i, m) ensures false {
      NameMatchUnique(text, i, nameEnd, m.nameEnd);
      SpaceRunUnique(text, nameEnd, eqAt, m.eqAt);
      assert !IsSpace('\'') && !IsSpace('"');
      SpaceRunUnique(text, eqAt + 1, quoteAt, m.quoteAt);
    }
  }

  /** The piece for an attribute match: the whole match, the name as
      written (group 1), the quote (group 2) and the value (group 3). */
  function AttrPiece(text: string, i: nat, m: AttrSpan): (p: Piece)
    requires i <= m.nameEnd <= m.quoteAt < m.valueEnd < |text|
    ensures p.AttrRef? && p.span == text[i..m.valueEnd + 1]
  {
    AttrRef(text[i..m.valueEnd + 1], text[i..m.nameEnd], text[m.quoteAt], text[m.quoteAt + 1..m.valueEnd])
  }

  /** `re.finditer` over the attribute pattern, from position `i`. */
  function ScanAttrs(text: string, i: nat): (ps: seq<Piece>)
    requires i <= |text|
    decreases |text| - i
  {
    if i == |text| then []
    else
      match AttrMatchAt(text, i)
      case Some(m) => [AttrPiece(text, i, m)] + ScanAttrs(text, m.valueEnd + 1)
      case None => [Plain(text[i])] + ScanAttrs(text, i + 1)
  }

  /** Where the first piece of the attribute scan from `i` ends. */
  function AttrScanEnd(text: string, i: nat): (end: nat)
    requires i < |text|
    ensures i < end <= |text|
  {
    match AttrMatchAt(text, i)
    case Some(m) => m.valueEnd + 1
    case None => i + 1
  }

  /** One step of the attribute scan: its first piece spans the text up to
      `AttrScanEnd`, and the scan goes on from there. */
  lemma ScanAttrsStep(text: string, i: nat)
    requires i < |text|
    ensures var ps, end := ScanAttrs(text, i), AttrScanEnd(text, i);
            ps != [] && Span(ps[0]) == text[i..end] && ps[1..] == ScanAttrs(text, end)
  {
  }

  /** The pieces of the attribute scan put back together give the text scanned. */
  lemma {:induction false} ScanAttrsOriginal(text: string, i: nat)
    requires i <= |text|
    ensures Original(ScanAttrs(text, i)) == text[i..]
    decreases |text| - i
  {
    if i < |text| {
      var end := AttrScanEnd(text, i);
      ScanAttrsStep(text, i);
      ScanAttrsOriginal(text, end);
      SplitAt(text, i, end);
    }
  }

  /** An attribute piece is a name the pattern accepts, white space around
      one '=', and a non-empty quoted value free of quotes. */
  predicate WellFormedAttrRef(p: Piece)
    requires p.AttrRef?
  {
    var n, v := |p.name|, |p.value|;
    n + v + 3 <= |p.span| &&
    p.span[..n] == p.name && NameMatches(p.name, 0, n) &&
    p.quote in Quotes && p.span[|p.span| - v - 2..] == [p.quote] + p.value + [p.quote] &&
    v > 0 && (forall k :: 0 <= k < v ==> p.value[k] !in Quotes) &&
    IsAssignment(p.span[n..|p.span| - v - 2])
  }

  /** White space around exactly one '='. */
  predicate IsAssignment(s: string) {
    exists e :: 0 <= e < |s| && s[e] == '=' && forall k :: 0 <= k < |s| && k != e ==> IsSpace(s[k])
  }

  lemma NameInSlice(text: string, i: nat, e: nat)
    requires NameMatches(text, i, e)
    ensures NameMatches(text[i..e], 0, e - i)
  {
    if FoldMatchAt(text, i, "src") && e == i + 3 {
      FoldMatchInSlice(text, i, e, "src");
    } else if FoldMatchAt(text, i, "href") && e == i + 4 {
      FoldMatchInSlice(text, i, e, "href");
    } else {
      FoldMatchInSlice(text, i, e, "xlink:href");
    }
  }

  lemma AssignmentInSlice(text: string, m: AttrSpan)
    requires m.nameEnd <= m.eqAt < m.quoteAt <= |text|
    requires forall k :: m.nameEnd <= k < m.eqAt ==> IsSpace(text[k])
    requires text[m.eqAt] == '='
    requires forall k :: m.eqAt < k < m.quoteAt ==> IsSpace(text[k])
    ensures IsAssignment(text[m.nameEnd..m.quoteAt])
  {
    var mid := text[m.nameEnd..m.quoteAt];
    var e := m.eqAt - m.nameEnd;
    assert mid[e] == '=';
    forall k | 0 <= k < |mid| && k != e ensures IsSpace(mid[k]) {
      assert mid[k] == text[m.nameEnd + k];
    }
  }

  lemma ValueInSlice(text: string, m: AttrSpan)
    requires m.quoteAt < m.valueEnd <= |text|
    requires forall k :: m.quoteAt < k < m.valueEnd ==> text[k] !in Quotes
    ensures var value := text[m.quoteAt + 1..m.valueEnd];
            forall k :: 0 <= k < |value| ==> value[k] !in Quotes
  {
    var value := text[m.quoteAt + 1..m.valueEnd];
    forall k | 0 <= k < |value| ensures value[k] !in Quotes {
      assert value[k] == text[m.quoteAt + 1 + k];
    }
  }

  /** How the parts of an attribute piece lie inside its span. */
  lemma AttrPieceParts(text: string, i: nat, m: AttrSpan)
    requires i <= m.nameEnd <= m.quoteAt < m.valueEnd < |text| && text[m.valueEnd] == text[m.quoteAt]
    ensures var p := AttrPiece(text, i, m);
            var n, v := |p.name|, |p.value|;
            n + v + 2 <= |p.span| &&
            p.span[..n] == p.name &&
            p.span[|p.span| - v - 2..] == [p.quote] + p.value + [p.quote] &&
            p.span[n..|p.span| - v - 2] == text[m.nameEnd..m.quoteAt]
  {
    var p := AttrPiece(text, i, m);
    var n, v := |p.name|, |p.value|;
    var tail := p.span[|p.span| - v - 2..];
    assert tail == [p.quote] + p.value + [p.quote] by {
      forall k | 0 <= k < |tail| ensures tail[k] == ([p.quote] + p.value + [p.quote])[k] {
        assert tail[k] == text[m.quoteAt + k];
      }
    }
    var mid := p.span[n..|p.span| - v - 2];
    assert mid == text[m.nameEnd..m.quoteAt] by {
      forall k | 0 <= k < |mid| ensures mid[k] == text[m.nameEnd + k] {
        assert mid[k] == text[i + n + k];
      }
    }
  }

  lemma AttrMatchInSlice(text: string, i: nat, m: AttrSpan)
    requires IsAttrMatch(text, i, m)
    ensures WellFormedAttrRef(AttrPiece(text, i, m))
  {
    NameInSlice(text, i, m.nameEnd);
    AssignmentInSlice(text, m);
    ValueInSlice(text, m);
    AttrPieceParts(text, i, m);
  }

  /** Every piece of an attribute scan is a character or a well-formed
      attribute match. */
  predicate AttrPieces(ps: seq<Piece>) {
    ps == [] || ((ps[0].Plain? || (ps[0].AttrRef? && WellFormedAttrRef(ps[0]))) && AttrPieces(ps[1..]))
  }

  lemma {:induction false} ScanAttrsPieces(text: string, i: nat)
    requires i <= |text|
    ensures AttrPieces(ScanAttrs(text, i))
    decreases |text| - i
  {
    if i < |text| {
      var ps := ScanAttrs(text, i);
      match AttrMatchAt(text, i)
      case Some(m) =>
        var end := m.valueEnd + 1;
        ScanAttrsPieces(text, end);
        AttrPieceWellFormed(text, i);
        assert ps[1..] == ScanAttrs(text, end);
      case None =>
        ScanAttrsPieces(text, i + 1);
        assert ps[1..] == ScanAttrs(text, i + 1);
    }
  }

  /** `ps` is what `re.finditer` over the attribute pattern yields from `i`
      on, described without the scanner: where the pattern matches, the
      piece is that match with its groups and the next piece starts after
      it; where it matches in no way, the piece is that one character; the
      pieces end exactly at the end of the text. */
  ghost predicate AttrExact(text: string, i: nat, ps: seq<Piece>)
    requires i <= |text|
    decreases |ps|
  {
    if ps == [] then i == |text|
    else
      i < |text| &&
      match ps[0]
      case Plain(c) =>
        c == text[i] && (forall m :: !IsAttrMatch(text, i, m)) && AttrExact(text, i + 1, ps[1..])
      case AttrRef(_, _, _, _) =>
        exists m :: IsAttrMatch(text, i, m) && ps[0] == AttrPiece(text, i, m) && AttrExact(text, m.valueEnd + 1, ps[1..])
      case UrlRef(_, _) => false
  }

  /** The attribute scan finds every match, leftmost first and without
      overlap. */
  lemma {:induction false} ScanAttrsExact(text: string, i: nat)
    requires i <= |text|
    ensures AttrExact(text, i, ScanAttrs(text, i))
    decreases |text| - i
  {
    if i < |text| {
      ScanAttrsExact(text, AttrScanEnd(text, i));
      AttrExactScanStep(text, i);
    }
  }

  /** The description of the scan from the end of its first piece extends
      to the description of the scan from `i`. */
  lemma {:induction false} AttrExactScanStep(text: string, i: nat)
    requires i < |text|
    requires AttrExact(text, AttrScanEnd(text, i), ScanAttrs(text, AttrScanEnd(text, i)))
    ensures AttrExact(text, i, ScanAttrs(text, i))
  {
    match AttrMatchAt(text, i)
    case Some(m) =>
      AttrExactMatch(text, i, m, ScanAttrs(text, m.valueEnd + 1));
      ScanAttrsMatch(text, i, m);
    case None =>
      AttrExactPlain(text, i, ScanAttrs(text, i + 1));
      ScanAttrsNone(text, i);
  }

  lemma ScanAttrsMatch(text: string, i: nat, m: AttrSpan)
    requires i < |text| && AttrMatchAt(text, i) == Some(m)
    ensures ScanAttrs(text, i) == [AttrPiece(text, i, m)] + ScanAttrs(text, m.valueEnd + 1)
  {
  }

  lemma ScanAttrsNone(text: string, i: nat)
    requires i < |text| && AttrMatchAt(text, i).None?
    ensures ScanAttrs(text, i) == [Plain(text[i])] + ScanAttrs(text, i + 1)
  {
  }

  lemma {:induction false} AttrExactMatch(text: string, i: nat, m: AttrSpan, rest: seq<Piece>)
    requires i <= |text| && AttrMatchAt(text, i) == Some(m) && AttrExact(text, m.valueEnd + 1, rest)
    ensures AttrExact(text, i, [AttrPiece(text, i, m)] + rest)
  {
    var ps := [AttrPiece(text, i, m)] + rest;
    assert ps[0] == AttrPiece(text, i, m) && ps[1..] == rest;
    AttrMatchAtSome(text, i);
  }

  lemma {:induction false} AttrExactPlain(text: string, i: nat, rest: seq<Piece>)
    requires i < |text| && AttrMatchAt(text, i).None? && AttrExact(text, i + 1, rest)
    ensures AttrExact(text, i, [Plain(text[i])] + rest)
  {
    var ps := [Plain(text[i])] + rest;
    assert ps[0] == Plain(text[i]) && ps[1..] == rest;
    AttrMatchAtNone(text, i);
  }

  /** The description admits nothing but the scan: the matches `re.sub`
      replaces are exactly those of `ScanAttrs`. */
  lemma {:induction false} AttrExactUnique(text: string, i: nat, ps: seq<Piece>)
    requires i <= |text| && AttrExact(text, i, ps)
    ensures ps == ScanAttrs(text, i)
    decreases |ps|
  {
    if ps != [] {
      var end := AttrScanEnd(text, i);
      AttrExactStep(text, i, ps);
      AttrExactUnique(text, end, ps[1..]);
      ScanAttrsStep(text, i);
      var qs := ScanAttrs(text, i);
      assert ps == [ps[0]] + ps[1..] && qs == [qs[0]] + qs[1..];
    }
  }

  /** The first piece a description admits is the scan's first piece. */
  lemma {:induction false} AttrExactStep(text: string, i: nat, ps: seq<Piece>)
    requires i <= |text| && AttrExact(text, i, ps) && ps != []
    ensures i < |text| && ps[0] == ScanAttrs(text, i)[0] && AttrExact(text, AttrScanEnd(text, i), ps[1..])
  {
    if ps[0].Plain? {
      NoAttrMatch(text, i);
    } else {
      var m :| IsAttrMatch(text, i, m) && ps[0] == AttrPiece(text, i, m) && AttrExact(text, m.valueEnd + 1, ps[1..]);
      OneAttrMatch(text, i, m);
      AttrScanMatch(text, i, m);
    }
  }

  /** Where the pattern matches at `i`, the scan's first piece is that match. */
  lemma {:induction false} AttrScanMatch(text: string, i: nat, m: AttrSpan)
    requires i < |text| && AttrMatchAt(text, i) == Some(m)
    ensures ScanAttrs(text, i)[0] == AttrPiece(text, i, m) && AttrScanEnd(text, i) == m.valueEnd + 1
  {
  }

  lemma NoAttrMatch(text: string, i: nat)
    requires i <= |text| && forall m :: !IsAttrMatch(text, i, m)
    ensures AttrMatchAt(text, i).None?
  {
    AttrMatchAtCorrect(text, i);
  }

  lemma OneAttrMatch(text: string, i: nat, m: AttrSpan)
    requires i <= |text| && IsAttrMatch(text, i, m)
    ensures AttrMatchAt(text, i) == Some(m)
  {
    AttrMatchAtCorrect(text, i);
    AttrMatchUnique(text, i, AttrMatchAt(text, i).value, m);
  }

  lemma AttrPieceWellFormed(text: string, i: nat)
    requires i <= |text| && AttrMatchAt(text, i).Some?
    ensures WellFormedAttrRef(AttrPiece(text, i, AttrMatchAt(text, i).value))
  {
    AttrMatchAtCorrect(text, i);
    AttrMatchInSlice(text, i, AttrMatchAt(text, i).value);
  }

  /** `re.sub(<attribute pattern>, replace_attr, text, flags=re.IGNORECASE)`. */
  function SubAttrs(text: string, idx: Index): string {
    Rewritten(ScanAttrs(text, 0), idx)
  }

  /** With no images, a chapter's attributes are left as they are. */
  lemma SubAttrsEmptyIndex(text: string)
    ensures SubAttrs(text, []) == text
  {
    var ps := ScanAttrs(text, 0);
    forall p | p in ps && !p.Plain? ensures Resolve(p.value, []).None? {
      ResolveEmptyIndex(p.value);
    }
    RewrittenUnresolved(ps, []);
    ScanAttrsOriginal(text, 0);
  }

  /** The shape of a lone attribute: a name the pattern accepts, white space,
      '=', white space and a quoted non-empty value free of quotes. */
  predicate LoneAttr(name: string, ws1: string, ws2: string, q: char, v: string) {
    NameMatches(name, 0, |name|) && q in Quotes && v != [] &&
    (forall k :: 0 <= k < |v| ==> v[k] !in Quotes) &&
    (forall k :: 0 <= k < |ws1| ==> IsSpace(ws1[k])) &&
    (forall k :: 0 <= k < |ws2| ==> IsSpace(ws2[k]))
  }

  lemma LoneAttrMatch(name: string, ws1: string, ws2: string, q: char, v: string)
    requires LoneAttr(name, ws1, ws2, q, v)
    ensures var text := name + ws1 + "=" + ws2 + [q] + v + [q];
            var eqAt := |name| + |ws1|;
            IsAttrMatch(text, 0, AttrSpan(|name|, eqAt, eqAt + 1 + |ws2|, |text| - 1))
  {
    var text := name + ws1 + "=" + ws2 + [q] + v + [q];
    var n := |name|;
    var eqAt := n + |ws1|;
    var quoteAt := eqAt + 1 + |ws2|;
    var valueEnd := quoteAt + 1 + |v|;
    assert NameMatches(text, 0, n) by {
      assert text == name + text[n..];
      NameInPrefix(name, text[n..]);
    }
    assert forall k :: n <= k < eqAt ==> text[k] == ws1[k - n];
    assert forall k :: eqAt < k < quoteAt ==> text[k] == ws2[k - eqAt - 1];
    assert forall k :: quoteAt < k < valueEnd ==> text[k] == v[k - quoteAt - 1];
    assert text[eqAt] == '=' && text[quoteAt] == q && text[valueEnd] == q;
  }

  /** A name the pattern accepts is still accepted with text after it. */
  lemma NameInPrefix(name: string, rest: string)
    requires NameMatches(name, 0, |name|)
    ensures NameMatches(name + rest, 0, |name|)
  {
    if FoldMatchAt(name, 0, "src") && |name| == 3 {
      FoldMatchPrefix(name, rest, "src");
    } else if FoldMatchAt(name, 0, "href") && |name| == 4 {
      FoldMatchPrefix(name, rest, "href");
    } else {
      FoldMatchPrefix(name, rest, "xlink:href");
    }
  }

  /** A lone attribute is scanned as one attribute piece. */
  lemma LoneAttrScan(name: string, ws1: string, ws2: string, q: char, v: string)
    requires LoneAttr(name, ws1, ws2, q, v)
    ensures var text := name + ws1 + "=" + ws2 + [q] + v + [q];
            ScanAttrs(text, 0) == [AttrRef(text, name, q, v)]
  {
    var text := name + ws1 + "=" + ws2 + [q] + v + [q];
    var eqAt := |name| + |ws1|;
    var quoteAt := eqAt + 1 + |ws2|;
    var m := AttrSpan(|name|, eqAt, quoteAt, |text| - 1);
    assert AttrMatchAt(text, 0) == Some(m) by {
      var r := AttrMatchAt(text, 0);
      LoneAttrMatch(name, ws1, ws2, q, v);
      AttrMatchAtCorrect(text, 0);
      AttrMatchUnique(text, 0, r.value, m);
    }
    assert AttrPiece(text, 0, m) == AttrRef(text, name, q, v) by {
      assert text[0..|text|] == text;
      assert text[0..|name|] == name;
      assert text[quoteAt + 1..|text| - 1] == v;
    }
    ScanAttrsWhole(text, m);
  }

  /** A text that is one whole attribute match is scanned as one piece. */
  lemma ScanAttrsWhole(text: string, m: AttrSpan)
    requires 0 < |text| && AttrMatchAt(text, 0) == Some(m) && m.valueEnd + 1 == |text|
    ensures ScanAttrs(text, 0) == [AttrPiece(text, 0, m)]
  {
    assert ScanAttrs(text, |text|) == [];
  }

  lemma RewrittenSingle(x: Piece, idx: Index)
    ensures Rewritten([x], idx) == RewritePiece(x, idx)
  {
    assert [x][1..] == [];
  }

  /** A single attribute `<name><ws>=<ws><q><v><q>`: when `v` resolves it
      becomes `<name>=<q><uri><q>`, the white space around '=' dropped and
      the name and quote kept; otherwise it stays as it is. */
  lemma SubAttrsSingle(name: string, ws1: string, ws2: string, q: char, v: string, idx: Index)
    requires LoneAttr(name, ws1, ws2, q, v)
    ensures var text := name + ws1 + "=" + ws2 + [q] + v + [q];
            SubAttrs(text, idx) == match Resolve(v, idx)
                                   case Some(uri) => name + "=" + [q] + uri + [q]
                                   case None => text
  {
    var text := name + ws1 + "=" + ws2 + [q] + v + [q];
    assert SubAttrs(text, idx) == RewritePiece(AttrRef(text, name, q, v), idx) by {
      LoneAttrScan(name, ws1, ws2, q, v);
      RewrittenSingle(AttrRef(text, name, q, v), idx);
    }
  }
}
