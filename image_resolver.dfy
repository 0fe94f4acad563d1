/** The resolver `_data_uri_for_src` (converter.py:154-174): one `src`,
    `href` or CSS `url()` value becomes the data URI of an image of the
    index, or nothing. */
module ImageResolver {
  import opened Wrappers
  import opened Text
  import opened Epub
  import opened ImageIndex
  import Percent
  import Base64
  import Utf8

  /** The reference as the lookup sees it: percent-decoded, backslashes
      turned into slashes, a leading `file:///` removed. It is never longer
      than the reference and holds no backslash. */
  function Normalize(src: string): (r: string)
    ensures |r| <= |src| && '\\' !in r
  {
    var s := ReplaceChar(Percent.Unquote(src), '\\', '/');
    if StartsWith(s, "file:///") then s[8..] else s
  }

  /** The pattern `(images/[^?#]+)` can match at `i`: "images/" in any case
      followed by at least one character other than '?' and '#'. */
  predicate KeyStartsAt(raw: string, i: nat) {
    FoldMatchAt(raw, i, "images/") && i + 7 < |raw| && raw[i + 7] != '?' && raw[i + 7] != '#'
  }

  /** Where the greedy `[^?#]+` starting at `j` stops. */
  function RunEnd(raw: string, j: nat): (e: nat)
    requires j <= |raw|
    ensures j <= e <= |raw|
    ensures forall k :: j <= k < e ==> raw[k] != '?' && raw[k] != '#'
    ensures e < |raw| ==> raw[e] == '?' || raw[e] == '#'
    decreases |raw| - j
  {
    if j == |raw| || raw[j] == '?' || raw[j] == '#' then j else RunEnd(raw, j + 1)
  }

  /** Where the leftmost match of `(images/[^?#]+)` at or after `from` starts. */
  function FirstKeyStart(raw: string, from: nat): (r: Option<nat>)
    requires from <= |raw|
    ensures r.Some? ==> from <= r.value && r.value + 7 < |raw|
    decreases |raw| - from
  {
    if from == |raw| then None
    else if KeyStartsAt(raw, from) then Some(from)
    else FirstKeyStart(raw, from + 1)
  }

  /** The search finds nothing exactly when no match starts at or after
      `from`, and otherwise the first place one does. */
  lemma {:induction false} FirstKeyStartCorrect(raw: string, from: nat)
    requires from <= |raw|
    ensures var r := FirstKeyStart(raw, from);
            (r.None? <==> forall i :: from <= i < |raw| ==> !KeyStartsAt(raw, i)) &&
            (r.Some? ==> KeyStartsAt(raw, r.value) && forall j :: from <= j < r.value ==> !KeyStartsAt(raw, j))
    decreases |raw| - from
  {
    if from < |raw| && !KeyStartsAt(raw, from) {
      FirstKeyStartCorrect(raw, from + 1);
    }
  }

  /** `re.search(r"(images/[^?#]+)", raw, flags=re.IGNORECASE)`, group 1:
      the key starts with "images/" in some case, has something after it,
      and stops before any '?' or '#'. */
  function ImageKey(raw: string): (r: Option<string>)
    ensures r.None? <==> forall i :: 0 <= i < |raw| ==> !KeyStartsAt(raw, i)
    ensures r.Some? ==> FoldMatchAt(r.value, 0, "images/") && |r.value| > 7
    ensures r.Some? ==> '?' !in r.value && '#' !in r.value
  {
    FirstKeyStartCorrect(raw, 0);
    match FirstKeyStart(raw, 0)
    case None => None
    case Some(i) =>
      var e := RunEnd(raw, i + 7);
      FoldMatchInSlice(raw, i, e, "images/");
      assert forall k :: i <= k < e ==> raw[k] != '?' && raw[k] != '#' by {
        forall k | i <= k < i + 7 ensures raw[k] != '?' && raw[k] != '#' {
          assert FoldEq(raw[i + (k - i)], "images/"[k - i]);
        }
      }
      Some(raw[i..e])
  }

  /** `f"data:{item.media_type};base64,{b64}"`: a `data:` URI, which the
      resolver declines when it meets one as a reference. */
  function DataUri(item: Item): (r: string)
    ensures StartsWith(r, "data:") && !Candidate(r)
  {
    "data:" + item.mediaType + ";base64," + Base64.Encode(item.content)
  }

  /** The filename fallback: the first entry, in index order, whose path
      has the given basename. */
  function FirstWithBasename(idx: Index, name: string): (r: Option<Item>)
    ensures r.None? <==> forall k :: 0 <= k < |idx| ==> Basename(idx[k].path) != name
    ensures r.Some? ==> exists k :: 0 <= k < |idx| && idx[k].item == r.value && Basename(idx[k].path) == name &&
                                    forall j :: 0 <= j < k ==> Basename(idx[j].path) != name
  {
    if idx == [] then None
    else if Basename(idx[0].path) == name then Some(idx[0].item)
    else
      var r := FirstWithBasename(idx[1..], name);
      assert r.Some? ==> exists k :: 1 <= k < |idx| && idx[k].item == r.value && Basename(idx[k].path) == name &&
                                     forall j :: 1 <= j < k ==> Basename(idx[j].path) != name;
      r
  }

  /** `_data_uri_for_src(src)`: empty values and data URIs are skipped; any
      result is the data URI of an image of the index. */
  function Resolve(src: string, idx: Index): (r: Option<string>)
    ensures src == [] || StartsWith(src, "data:") ==> r.None?
    ensures r.Some? ==> exists k :: 0 <= k < |idx| && r.value == DataUri(idx[k].item)
  {
    if src == [] || StartsWith(src, "data:") then None
    else
      match ImageKey(Normalize(src))
      case None => None
      case Some(key) =>
        match Get(idx, key)
        case Some(item) => Some(DataUri(item))
        case None =>
          match FirstWithBasename(idx, Basename(key))
          case Some(item) => Some(DataUri(item))
          case None => None
  }

  /** A reference the resolver considers at all: not empty, not a data URI. */
  predicate Candidate(src: string) {
    src != [] && !StartsWith(src, "data:")
  }

  /** Exact lookup comes first: when the key is a path of the index, the
      result is that entry's data URI, whatever the fallback would find. */
  lemma ResolveExact(src: string, idx: Index, key: string)
    requires Candidate(src) && ImageKey(Normalize(src)) == Some(key) && key in Paths(idx)
    ensures Resolve(src, idx) == Some(DataUri(Get(idx, key).value))
  {
  }

  /** Only when the key is not a path of the index does the filename
      fallback decide, and it yields nothing when no entry has the key's
      basename. */
  lemma ResolveFallback(src: string, idx: Index, key: string)
    requires Candidate(src) && ImageKey(Normalize(src)) == Some(key) && key !in Paths(idx)
    ensures Resolve(src, idx) == match FirstWithBasename(idx, Basename(key))
                                 case Some(item) => Some(DataUri(item))
                                 case None => None
    ensures Resolve(src, idx).None? <==> forall k :: 0 <= k < |idx| ==> Basename(idx[k].path) != Basename(key)
  {
  }

  /** A reference without an "images/" segment (in any case) followed by
      something other than '?' or '#' never resolves. */
  lemma ResolveNeedsImagesSegment(src: string, idx: Index)
    requires forall i :: 0 <= i < |Normalize(src)| ==> !KeyStartsAt(Normalize(src), i)
    ensures Resolve(src, idx) == None
  {
  }

  /** With no images in the manifest nothing resolves. */
  lemma ResolveEmptyIndex(src: string)
    ensures Resolve(src, []) == None
  {
  }

  /** A data URI the resolver produces carries the entry's media type and a
      payload that decodes to the entry's bytes. */
  lemma ResolvedPayload(src: string, idx: Index, uri: string)
    requires Resolve(src, idx) == Some(uri)
    ensures exists k :: 0 <= k < |idx| &&
              var item := idx[k].item;
              var head := "data:" + item.mediaType + ";base64,";
              StartsWith(uri, head) && Base64.Decode(uri[|head|..]) == Some(item.content)
  {
    var k :| 0 <= k < |idx| && uri == DataUri(idx[k].item);
    var item := idx[k].item;
    var head := "data:" + item.mediaType + ";base64,";
    assert uri == head + Base64.Encode(item.content);
    assert uri[..|head|] == head;
    assert uri[|head|..] == Base64.Encode(item.content);
    Base64.RoundTrip(item.content);
  }

  /** Two references the resolver considers whose normalised forms yield
      the same key resolve alike. */
  lemma ResolveOfKey(a: string, b: string, idx: Index)
    requires Candidate(a) && Candidate(b) && ImageKey(Normalize(a)) == ImageKey(Normalize(b))
    ensures Resolve(a, idx) == Resolve(b, idx)
  {
  }

  /** Percent-encoding any choice of the characters of a reference without
      '%' changes nothing: the encoded form resolves as the plain one. */
  lemma ResolvePercentEncoded(s: string, chosen: seq<bool>, idx: Index)
    requires Candidate(s) && '%' !in s && |chosen| == |s|
    ensures Resolve(Percent.EncodeSelected(s, chosen), idx) == Resolve(s, idx)
  {
    var e := Percent.EncodeSelected(s, chosen);
    Percent.UnquoteOfSelected(s, chosen);
    Percent.UnquoteWithoutPercent(s);
    assert !StartsWith(e, "data:") by {
      if StartsWith(e, "data:") { Percent.SelectedPrefix(s, chosen, "data:"); }
    }
    ResolveOfKey(e, s, idx);
  }

  /** Any two spellings of the same text, each escaping at least its '%'
      characters, resolve alike when the resolver considers both. */
  lemma ResolveSpellings(u: string, c1: seq<bool>, c2: seq<bool>, idx: Index)
    requires Percent.EscapesPercent(u, c1) && Percent.EscapesPercent(u, c2)
    requires Candidate(Percent.EncodeSelected(u, c1)) && Candidate(Percent.EncodeSelected(u, c2))
    ensures Resolve(Percent.EncodeSelected(u, c1), idx) == Resolve(Percent.EncodeSelected(u, c2), idx)
  {
    Percent.UnquoteOfSelected(u, c1);
    Percent.UnquoteOfSelected(u, c2);
    ResolveOfKey(Percent.EncodeSelected(u, c1), Percent.EncodeSelected(u, c2), idx);
  }

  /** A `file:///` in front of any reference the resolver considers changes
      nothing. */
  lemma ResolveFileScheme(s: string, idx: Index)
    requires Candidate(s)
    ensures Resolve("file:///" + s, idx) == Resolve(s, idx)
  {
    FileSchemeKey(s);
    ResolveOfKey("file:///" + s, s, idx);
  }

  /** The key found after a `file:///` prefix is the one found without it:
      the prefix is decoded as itself and stripped, and a second prefix left
      in the decoded text cannot hold a key. */
  lemma FileSchemeKey(s: string)
    ensures Candidate("file:///" + s) && ImageKey(Normalize("file:///" + s)) == ImageKey(Normalize(s))
  {
    var r := ReplaceChar(Percent.Unquote(s), '\\', '/');
    FileSchemeNormalize(s);
    SchemeStripKey(r);
    assert Normalize(s) == (if StartsWith(r, "file:///") then r[8..] else r);
    assert ("file:///" + s)[0] != "data:"[0];
  }

  /** A written `file:///` prefix is what normalisation removes. */
  lemma FileSchemeNormalize(s: string)
    ensures Normalize("file:///" + s) == ReplaceChar(Percent.Unquote(s), '\\', '/')
  {
    Percent.UnquoteAsciiPrefix("file:///", s);
    FileSchemeReplaced(Percent.Unquote(s));
  }

  /** Removing a leading `file:///` does not change the key. */
  lemma SchemeStripKey(r: string)
    ensures ImageKey(r) == ImageKey(if StartsWith(r, "file:///") then r[8..] else r)
  {
    if StartsWith(r, "file:///") {
      assert r == "file:///" + r[8..];
      FileSchemeHasNoKey(r[8..]);
      ImageKeyShift("file:///", r[8..]);
    }
  }

  lemma FileSchemeReplaced(s: string)
    ensures var r := ReplaceChar("file:///" + s, '\\', '/');
            StartsWith(r, "file:///") && r[8..] == ReplaceChar(s, '\\', '/')
  {
    var r := ReplaceChar("file:///" + s, '\\', '/');
    assert r[..8] == "file:///";
  }

  /** "images/" cannot be matched at any position of the prefix `file:///`. */
  lemma FileSchemeHasNoKey(t: string)
    ensures forall i :: 0 <= i < 8 ==> !KeyStartsAt("file:///" + t, i)
  {
    var r := "file:///" + t;
    forall i | 0 <= i < 8 ensures !KeyStartsAt(r, i) {
      if i == 1 {
        assert r[i + 1] == 'l' && !FoldEq(r[i + 1], "images/"[1]);
      } else {
        assert r[i + 0] == "file:///"[i] && !FoldEq(r[i + 0], "images/"[0]);
      }
    }
  }

  /** A prefix in which no key starts does not change the key. */
  lemma ImageKeyShift(q: string, t: string)
    requires forall i :: 0 <= i < |q| ==> !KeyStartsAt(q + t, i)
    ensures ImageKey(q + t) == ImageKey(t)
  {
    var r, off := q + t, |q|;
    var f := FirstKeyStart(t, 0);
    assert FirstKeyStart(r, 0) == if f.Some? then Some(off + f.value) else None by {
      EndsOfConcat(q, t);
      StartAfterPrefix(r, off, t);
    }
    if f.Some? {
      ShiftedKey(q, t, f.value);
    } else {
      ImageKeyOfStart(r);
      ImageKeyOfStart(t);
    }
  }

  lemma ShiftedKey(q: string, t: string, v: nat)
    requires FirstKeyStart(t, 0) == Some(v) && FirstKeyStart(q + t, 0) == Some(|q| + v)
    ensures ImageKey(q + t) == ImageKey(t)
  {
    KeyTextShift(q, t, v);
    SameKey(q + t, |q| + v, t, v);
  }

  lemma KeyTextShift(q: string, t: string, v: nat)
    requires v + 7 <= |t|
    ensures (q + t)[|q| + v..RunEnd(q + t, |q| + v + 7)] == t[v..RunEnd(t, v + 7)]
  {
    var r, off, j := q + t, |q|, v + 7;
    var e := RunEnd(t, j);
    EndsOfConcat(q, t);
    RunEndShift(r, off, t, j);
    assert off + v + 7 == off + j;
    SliceShift(r, off, t, v, e);
  }

  lemma EndsOfConcat(q: string, t: string)
    ensures Ends(q + t, |q|, t)
  {
  }

  /** Where no match starts before `off`, the leftmost match of `r` is that
      of its tail `t`, moved by `off`. */
  lemma StartAfterPrefix(r: string, off: nat, t: string)
    requires Ends(r, off, t) && forall i :: 0 <= i < off ==> !KeyStartsAt(r, i)
    ensures FirstKeyStart(t, 0).None? ==> FirstKeyStart(r, 0).None?
    ensures FirstKeyStart(t, 0).Some? ==> FirstKeyStart(r, 0) == Some(off + FirstKeyStart(t, 0).value)
  {
    assert FirstKeyStart(r, 0) == FirstKeyStart(r, off) by {
      FirstKeyStartSkip(r, 0, off);
    }
    assert off + 0 == off;
    FirstKeyStartShift(r, off, t, 0);
  }

  /** `r` ends with `t`, which starts at `off`. */
  predicate Ends(r: string, off: nat, t: string) {
    |r| == off + |t| && forall k :: 0 <= k < |t| ==> r[off + k] == t[k]
  }

  /** Texts whose leftmost matches start where the same key follows have
      that key. */
  lemma SameKey(r: string, i: nat, t: string, v: nat)
    requires FirstKeyStart(r, 0) == Some(i) && FirstKeyStart(t, 0) == Some(v)
    requires r[i..RunEnd(r, i + 7)] == t[v..RunEnd(t, v + 7)]
    ensures ImageKey(r) == ImageKey(t)
  {
    ImageKeyAt(r, i);
    ImageKeyAt(t, v);
  }

  lemma ImageKeyAt(raw: string, i: nat)
    requires FirstKeyStart(raw, 0) == Some(i)
    ensures i + 7 <= |raw| && ImageKey(raw) == Some(raw[i..RunEnd(raw, i + 7)])
  {
    ImageKeyOfStart(raw);
  }

  /** The key is what follows the leftmost place a match starts. */
  lemma ImageKeyOfStart(raw: string)
    ensures ImageKey(raw) == match FirstKeyStart(raw, 0)
                             case None => None
                             case Some(i) => Some(raw[i..RunEnd(raw, i + 7)])
  {
  }

  lemma SliceShift(r: string, off: nat, t: string, i: nat, j: nat)
    requires Ends(r, off, t) && i <= j <= |t|
    ensures r[off + i..off + j] == t[i..j]
  {
    forall k | 0 <= k < j - i ensures r[off + i..off + j][k] == t[i..j][k] {
      assert r[off + (i + k)] == t[i + k];
    }
  }

  lemma {:induction false} FirstKeyStartSkip(r: string, i: nat, e: nat)
    requires i <= e <= |r| && forall k :: i <= k < e ==> !KeyStartsAt(r, k)
    ensures FirstKeyStart(r, i) == FirstKeyStart(r, e)
    decreases e - i
  {
    if i < e {
      FirstKeyStartSkip(r, i + 1, e);
    }
  }

  lemma KeyStartsShift(r: string, off: nat, t: string, i: nat)
    requires Ends(r, off, t)
    ensures KeyStartsAt(r, off + i) <==> KeyStartsAt(t, i)
  {
    if i + 7 <= |t| {
      forall k | 0 <= k < 7 ensures FoldEq(r[off + i + k], "images/"[k]) <==> FoldEq(t[i + k], "images/"[k]) {
        assert r[off + (i + k)] == t[i + k];
      }
    }
    if i + 7 < |t| {
      assert r[off + i + 7] == t[i + 7];
    }
  }

  lemma {:induction false} FirstKeyStartShift(r: string, off: nat, t: string, j: nat)
    requires Ends(r, off, t) && j <= |t|
    ensures FirstKeyStart(t, j).None? ==> FirstKeyStart(r, off + j).None?
    ensures FirstKeyStart(t, j).Some? ==> FirstKeyStart(r, off + j) == Some(off + FirstKeyStart(t, j).value)
    decreases |t| - j
  {
    if j < |t| {
      KeyStartsShift(r, off, t, j);
      if KeyStartsAt(t, j) {
        assert FirstKeyStart(r, off + j) == Some(off + j);
      } else {
        FirstKeyStartShift(r, off, t, j + 1);
        assert FirstKeyStart(t, j) == FirstKeyStart(t, j + 1);
        assert FirstKeyStart(r, off + j) == FirstKeyStart(r, off + j + 1);
      }
    } else {
      assert off + j == |r|;
    }
  }

  lemma {:induction false} RunEndShift(r: string, off: nat, t: string, j: nat)
    requires Ends(r, off, t) && j <= |t|
    ensures RunEnd(r, off + j) == off + RunEnd(t, j)
    decreases |t| - j
  {
    if j < |t| {
      assert r[off + j] == t[j];
      RunEndShift(r, off, t, j + 1);
    }
  }

  /** References that differ only in the direction of their separators
      resolve alike, whatever escapes they hold. */
  lemma ResolveSlashDirection(a: string, b: string, idx: Index)
    requires Candidate(a) && SameUpToSlashes(a, b)
    ensures Resolve(a, idx) == Resolve(b, idx)
  {
    Percent.UnquoteSlashes(a, b);
    ReplaceBackslashesAgree(Percent.Unquote(a), Percent.Unquote(b));
    assert Normalize(a) == Normalize(b);
    SameUpToSlashesSymmetric(a, b);
    SlashFreePrefix(b, a, "data:");
    ResolveOfKey(a, b, idx);
  }

  /** A file name that needs no escaping and holds no separator, query or
      fragment character. */
  predicate PlainFileName(file: string) {
    file != [] && forall k :: 0 <= k < |file| ==> file[k] !in "/\\%?#"
  }

  /** `Images/<file>`, with the directory in another case than the
      manifest's, is its own key. */
  lemma CapitalisedKey(file: string)
    requires PlainFileName(file)
    ensures ImageKey(Normalize("Images/" + file)) == Some("Images/" + file)
  {
    var src := "Images/" + file;
    PlainPathNormal(file);
    assert FoldMatchAt(src, 0, "images/");
    assert forall k :: 0 <= k < |src| ==> src[k] != '?' && src[k] != '#' by {
      forall k | 7 <= k < |src| ensures src[k] != '?' && src[k] != '#' {
        assert src[k] == file[k - 7];
      }
    }
    WholeKey(src);
  }

  /** A text that starts with "images/" in some case, goes on after it and
      holds neither '?' nor '#' is its own key. */
  lemma WholeKey(raw: string)
    requires FoldMatchAt(raw, 0, "images/") && |raw| > 7
    requires forall k :: 0 <= k < |raw| ==> raw[k] != '?' && raw[k] != '#'
    ensures ImageKey(raw) == Some(raw)
  {
    assert KeyStartsAt(raw, 0);
    RunEndToEnd(raw, 7);
    assert raw[0..|raw|] == raw;
  }

  /** A run with neither '?' nor '#' goes to the end of the text. */
  lemma {:induction false} RunEndToEnd(raw: string, j: nat)
    requires j <= |raw| && forall k :: j <= k < |raw| ==> raw[k] != '?' && raw[k] != '#'
    ensures RunEnd(raw, j) == |raw|
    decreases |raw| - j
  {
    if j < |raw| {
      RunEndToEnd(raw, j + 1);
    }
  }

  /** `Images/<file>` is left as it is by the normalisation. */
  lemma PlainPathNormal(file: string)
    requires PlainFileName(file)
    ensures Normalize("Images/" + file) == "Images/" + file
  {
    var src := "Images/" + file;
    assert forall k :: 0 <= k < |src| ==> src[k] !in "%?#\\" by {
      forall k | 0 <= k < |src| ensures src[k] !in "%?#\\" {
        if k >= 7 { assert src[k] == file[k - 7]; }
      }
    }
    Percent.UnquoteWithoutPercent(src);
    assert ReplaceChar(src, '\\', '/') == src;
    assert src[0] != "file:///"[0];
  }

  /** The basename of a directory path ending in '/' followed by a plain
      file name is that file name. */
  lemma BasenameOfPlain(dir: string, file: string)
    requires dir != [] && dir[|dir| - 1] == '/' && PlainFileName(file)
    ensures Basename(dir + file) == file
  {
    var p := dir + file;
    BasenameIsLastSegment(p);
    var r := Basename(p);
    assert p[|dir| - 1] == '/';
    assert forall k :: |dir| <= k < |p| ==> p[k] == file[k - |dir|];
    assert |r| == |file|;
    assert p[|p| - |file|..] == file;
  }

  /** A chapter that writes `Images/<file>` for the manifest's
      `images/<file>`: the exact lookup misses because of the case, and
      the filename fallback finds the image. */
  lemma CaseMismatchFallsBackToFilename(file: string, cover: Item)
    requires PlainFileName(file) && cover.name == "images/" + file
    ensures Resolve("Images/" + file, Build([cover])) == Some(DataUri(cover))
  {
    CapitalisedKey(file);
    CaseMismatchMissesExact(file, cover);
    CaseMismatchSameBasename(file, cover);
    ResolveByBasename("Images/" + file, Build([cover]), "Images/" + file, cover);
  }

  lemma CaseMismatchMissesExact(file: string, cover: Item)
    requires PlainFileName(file) && cover.name == "images/" + file
    ensures Candidate("Images/" + file) && "Images/" + file !in Paths(Build([cover]))
  {
    var src := "Images/" + file;
    assert src[0] != "data:"[0];
    SingleImageIndex(file, cover);
    assert Paths(Build([cover])) == [cover.name];
    assert src[0] != cover.name[0];
  }

  lemma CaseMismatchSameBasename(file: string, cover: Item)
    requires PlainFileName(file) && cover.name == "images/" + file
    ensures FirstWithBasename(Build([cover]), Basename("Images/" + file)) == Some(cover)
  {
    SingleImageIndex(file, cover);
    BasenameOfPlain("Images/", file);
    BasenameOfPlain("images/", file);
  }

  /** The fallback's find is the result when the exact lookup misses. */
  lemma ResolveByBasename(src: string, idx: Index, key: string, item: Item)
    requires Candidate(src) && ImageKey(Normalize(src)) == Some(key) && key !in Paths(idx)
    requires FirstWithBasename(idx, Basename(key)) == Some(item)
    ensures Resolve(src, idx) == Some(DataUri(item))
  {
  }

  /** The index of a manifest with the one image `images/<file>`. */
  lemma SingleImageIndex(file: string, cover: Item)
    requires PlainFileName(file) && cover.name == "images/" + file
    ensures Build([cover]) == [Entry(cover.name, cover)]
  {
    assert NormalizeName(cover.name) == cover.name by {
      forall k | 0 <= k < |cover.name| ensures cover.name[k] != '\\' {
        if k >= 7 { assert cover.name[k] == file[k - 7]; }
      }
    }
    assert [cover][..0] == [];
    assert Build([cover][..0]) == [];
  }
}
