/** The EPUB branch of the converter (converter.py:138-239): the image
    index is built, the chapters are put in reading order, the style sheets
    are joined and their images inlined, every chapter has its images
    inlined, is wrapped with the styles into one HTML document and rendered,
    and the pages of all rendered chapters are merged into one PDF.

    The renderer is a parameter `render(html, baseUrl)` that gives the pages
    of one rendered document; `P` is whatever a page is. */
module Converter {
  import opened Wrappers
  import opened Text
  import opened Epub
  import Utf8
  import opened ImageIndex
  import opened AssetInliner

  // ---------------------------------------------------------------------
  // Reading order (converter.py:148-152)

  /** `[book.get_item_with_id(item_id) for item_id, _ in book.spine]`: a
      spine identifier no manifest item has gives `None`. */
  function SpineItems(book: Book): (r: seq<Option<Item>>)
    ensures |r| == |book.spine|
    ensures forall k :: 0 <= k < |r| ==>
              (r[k].None? <==> forall j :: 0 <= j < |book.items| ==> book.items[j].id != book.spine[k])
    ensures forall k :: 0 <= k < |r| && r[k].Some? ==> r[k].value in book.items && r[k].value.id == book.spine[k]
  {
    seq(|book.spine|, k requires 0 <= k < |book.spine| => ItemWithId(book.items, book.spine[k]))
  }

  /** `spine_hrefs`: the names of the spine items that exist. */
  function SpineNames(book: Book): set<string> {
    set k | 0 <= k < |book.spine| && ItemWithId(book.items, book.spine[k]).Some? ::
      ItemWithId(book.items, book.spine[k]).value.name
  }

  /** The documents whose name is not among `names`, in their own order. */
  function Unlisted(docs: seq<Item>, names: set<string>): (r: seq<Item>)
    ensures forall x :: x in r <==> x in docs && x.name !in names
    ensures multiset(r) <= multiset(docs)
  {
    if docs == [] then []
    else
      var n := |docs| - 1;
      var r := Unlisted(docs[..n], names);
      assert docs == docs[..n] + [docs[n]];
      if docs[n].name !in names then r + [docs[n]] else r
  }

  /** The filter keeps the documents' order: filtering two lists one after
      the other gives the two filtered lists one after the other. */
  lemma {:induction false} UnlistedAppend(a: seq<Item>, b: seq<Item>, names: set<string>)
    ensures Unlisted(a + b, names) == Unlisted(a, names) + Unlisted(b, names)
    decreases |b|
  {
    if b == [] {
      assert a + b == a;
    } else {
      var n := |b| - 1;
      var ab := a + b;
      assert ab[..|ab| - 1] == a + b[..n] && ab[|ab| - 1] == b[n];
      var last: seq<Item> := if b[n].name !in names then [b[n]] else [];
      UnlistedLast(ab, names);
      UnlistedLast(b, names);
      UnlistedAppend(a, b[..n], names);
      ConcatAssoc(Unlisted(a, names), Unlisted(b[..n], names), last);
    }
  }

  /** The filter's last step: the last document is kept or dropped. */
  lemma UnlistedLast(docs: seq<Item>, names: set<string>)
    requires docs != []
    ensures var n := |docs| - 1;
            Unlisted(docs, names) ==
            Unlisted(docs[..n], names) + if docs[n].name !in names then [docs[n]] else []
  {
  }

  /** A single document is kept exactly when its name is not among `names`. */
  lemma UnlistedSingle(x: Item, names: set<string>)
    ensures Unlisted([x], names) == if x.name !in names then [x] else []
  {
    assert [x][..0] == [];
  }

  function Wrap(xs: seq<Item>): (r: seq<Option<Item>>)
    ensures |r| == |xs| && forall k :: 0 <= k < |xs| ==> r[k] == Some(xs[k])
  {
    seq(|xs|, k requires 0 <= k < |xs| => Some(xs[k]))
  }

  lemma WrapContains(xs: seq<Item>, x: Item)
    ensures Some(x) in Wrap(xs) <==> x in xs
  {
    if Some(x) in Wrap(xs) {
      var k :| 0 <= k < |xs| && Wrap(xs)[k] == Some(x);
    }
    if x in xs {
      var k :| 0 <= k < |xs| && xs[k] == x;
      assert Wrap(xs)[k] == Some(x);
    }
  }

  /** One turn of the loop over the documents: the document is appended
      when its name is not among `names`. */
  lemma UnlistedStep(front: seq<Option<Item>>, docs: seq<Item>, i: nat, names: set<string>)
    requires i < |docs|
    ensures (if docs[i].name !in names then front + Wrap(Unlisted(docs[..i], names)) + [Some(docs[i])]
             else front + Wrap(Unlisted(docs[..i], names))) ==
            front + Wrap(Unlisted(docs[..i + 1], names))
  {
    assert docs[..i + 1][..i] == docs[..i];
    var r := Unlisted(docs[..i], names);
    if docs[i].name !in names {
      assert Wrap(r + [docs[i]]) == Wrap(r) + [Some(docs[i])];
    }
  }

  /** The documents appended after the spine. */
  function Appended(book: Book): seq<Item> {
    Unlisted(ItemsOfKind(book.items, Document), SpineNames(book))
  }

  /** `items_to_process` once the loop is done. */
  function ProcessingOrder(book: Book): seq<Option<Item>> {
    SpineItems(book) + Wrap(Appended(book))
  }

  /** Builds `items_to_process`: the spine items, then every document of the
      manifest whose name is not that of a spine item. */
  method ItemsToProcess(book: Book) returns (items: seq<Option<Item>>)
    ensures items == ProcessingOrder(book)
  {
    items := SpineItems(book);
    var spineHrefs := SpineNames(book);
    var docs := ItemsOfKind(book.items, Document);
    for i := 0 to |docs|
      invariant items == SpineItems(book) + Wrap(Unlisted(docs[..i], spineHrefs))
    {
      UnlistedStep(SpineItems(book), docs, i, spineHrefs);
      if docs[i].name !in spineHrefs {
        items := items + [Some(docs[i])];
      }
    }
    assert docs[..|docs|] == docs;
  }

  /** The spine comes first, in spine order, one entry per identifier; after
      it come only documents of the manifest that no spine item names. */
  lemma ProcessingOrderShape(book: Book)
    ensures var order, n := ProcessingOrder(book), |book.spine|;
            n <= |order| &&
            (forall k :: 0 <= k < n ==> order[k] == ItemWithId(book.items, book.spine[k])) &&
            (forall k :: n <= k < |order| ==>
               order[k].Some? && order[k].value in book.items &&
               order[k].value.kind == Document && order[k].value.name !in SpineNames(book))
  {
    var order, n := ProcessingOrder(book), |book.spine|;
    var appended := Appended(book);
    forall k | n <= k < |order|
      ensures order[k].Some? && order[k].value in book.items
      ensures order[k].value.kind == Document && order[k].value.name !in SpineNames(book)
    {
      assert order[k] == Some(appended[k - n]);
      assert appended[k - n] in appended;
    }
  }

  /** A name is a spine name exactly when some spine entry is an item with
      that name. */
  lemma SpineNamesMeaning(book: Book, name: string)
    ensures name in SpineNames(book) <==> exists k :: 0 <= k < |book.spine| && SpineItems(book)[k].Some? &&
                                                     SpineItems(book)[k].value.name == name
  {
    if name in SpineNames(book) {
      var k :| 0 <= k < |book.spine| && ItemWithId(book.items, book.spine[k]).Some? &&
               ItemWithId(book.items, book.spine[k]).value.name == name;
      assert SpineItems(book)[k] == ItemWithId(book.items, book.spine[k]);
    }
  }

  /** A document of the manifest is appended exactly when no spine item
      has its name. */
  lemma DocumentAppendedIff(book: Book, x: Item)
    requires x in book.items && x.kind == Document
    ensures Some(x) in ProcessingOrder(book)[|book.spine|..] <==> x.name !in SpineNames(book)
  {
    var n := |book.spine|;
    assert ProcessingOrder(book)[n..] == Wrap(Appended(book));
    WrapContains(Appended(book), x);
  }

  /** Every document of the manifest is processed: itself, or a spine
      item with its name. */
  lemma DocumentsAllProcessed(book: Book, x: Item)
    requires x in book.items && x.kind == Document
    ensures exists k :: 0 <= k < |ProcessingOrder(book)| && ProcessingOrder(book)[k].Some? &&
                        ProcessingOrder(book)[k].value.name == x.name
  {
    var order, n := ProcessingOrder(book), |book.spine|;
    if x.name in SpineNames(book) {
      var k :| 0 <= k < n && ItemWithId(book.items, book.spine[k]).Some? &&
               ItemWithId(book.items, book.spine[k]).value.name == x.name;
      assert order[k] == ItemWithId(book.items, book.spine[k]);
    } else {
      var appended := Appended(book);
      assert x in appended;
      var j :| 0 <= j < |appended| && appended[j] == x;
      assert order[n + j] == Some(x);
    }
  }

  predicate Distinct<T(==)>(s: seq<T>) {
    forall i, j :: 0 <= i < j < |s| ==> s[i] != s[j]
  }

  lemma {:induction false} ItemsOfKindDistinct(items: seq<Item>, kind: ItemKind)
    requires Distinct(items)
    ensures Distinct(ItemsOfKind(items, kind))
  {
    if items != [] {
      ItemsOfKindDistinct(items[1..], kind);
      assert items[0] !in items[1..];
    }
  }

  lemma {:induction false} UnlistedDistinct(docs: seq<Item>, names: set<string>)
    requires Distinct(docs)
    ensures Distinct(Unlisted(docs, names))
  {
    if docs != [] {
      var n := |docs| - 1;
      UnlistedDistinct(docs[..n], names);
      assert docs[n] !in docs[..n];
    }
  }

  /** When the manifest lists every item once, every document is appended
      at most once. */
  lemma AppendedAtMostOnce(book: Book)
    requires Distinct(book.items)
    ensures Distinct(ProcessingOrder(book)[|book.spine|..])
  {
    ItemsOfKindDistinct(book.items, Document);
    UnlistedDistinct(ItemsOfKind(book.items, Document), SpineNames(book));
    assert ProcessingOrder(book)[|book.spine|..] == Wrap(Appended(book));
  }

  // ---------------------------------------------------------------------
  // Skipping missing spine entries (converter.py:191-193)

  /** The items of `order` that exist, in order. */
  function Present(order: seq<Option<Item>>): (r: seq<Item>)
    ensures |r| <= |order|
    ensures forall x :: x in r <==> Some(x) in order
  {
    if order == [] then []
    else
      var n := |order| - 1;
      var r := Present(order[..n]);
      assert order == order[..n] + [order[n]];
      match order[n]
      case None => r
      case Some(x) => r + [x]
  }

  lemma {:induction false} PresentAppend(a: seq<Option<Item>>, b: seq<Option<Item>>)
    ensures Present(a + b) == Present(a) + Present(b)
    decreases |b|
  {
    if b != [] {
      var n := |b| - 1;
      assert (a + b)[..|a| + n] == a + b[..n];
      assert (a + b)[|a| + n] == b[n];
      PresentAppend(a, b[..n]);
      match b[n]
      case None =>
      case Some(x) =>
        assert Present(a + b) == (Present(a) + Present(b[..n])) + [x];
    } else {
      assert a + b == a;
    }
  }

  lemma {:induction false} PresentOfMissing(order: seq<Option<Item>>)
    requires forall k :: 0 <= k < |order| ==> order[k].None?
    ensures Present(order) == []
  {
    if order != [] {
      PresentOfMissing(order[..|order| - 1]);
    }
  }

  lemma {:induction false} PresentWrap(xs: seq<Item>)
    ensures Present(Wrap(xs)) == xs
  {
    if xs != [] {
      var n := |xs| - 1;
      assert Wrap(xs)[..n] == Wrap(xs[..n]);
      PresentWrap(xs[..n]);
    }
  }

  /** The chapters rendered are the spine items that exist, followed by
      every appended document. */
  lemma RenderedItems(book: Book)
    ensures Present(ProcessingOrder(book)) == Present(SpineItems(book)) + Appended(book)
  {
    PresentAppend(SpineItems(book), Wrap(Appended(book)));
    PresentWrap(Appended(book));
  }

  // ---------------------------------------------------------------------
  // The shared style sheet (converter.py:176-188)

  /** `"".join(item.get_content().decode('utf-8', 'ignore') for item in items)`. */
  function JoinStyles(items: seq<Item>): string {
    if items == [] then []
    else
      var n := |items| - 1;
      JoinStyles(items[..n]) + Utf8.Decode(items[n].content, Utf8.Ignore)
  }

  /** Accumulates `styles` over the style items, as the loop does. */
  method CollectStyles(items: seq<Item>) returns (styles: string)
    ensures styles == JoinStyles(items)
  {
    styles := "";
    for i := 0 to |items|
      invariant styles == JoinStyles(items[..i])
    {
      assert items[..i + 1][..i] == items[..i];
      styles := styles + Utf8.Decode(items[i].content, Utf8.Ignore);
    }
    assert items[..|items|] == items;
  }

  function Concat(texts: seq<string>): string {
    if texts == [] then [] else Concat(texts[..|texts| - 1]) + texts[|texts| - 1]
  }

  /** Style sheets stored as UTF-8 are joined to their texts, in manifest
      order. */
  lemma {:induction false} JoinStylesOfEncoded(items: seq<Item>, texts: seq<string>)
    requires |items| == |texts|
    requires forall k :: 0 <= k < |items| ==> items[k].content == Utf8.Encode(texts[k])
    ensures JoinStyles(items) == Concat(texts)
  {
    if items != [] {
      var n := |items| - 1;
      JoinStylesOfEncoded(items[..n], texts[..n]);
      Utf8.RoundTrip(texts[n], Utf8.Ignore);
    }
  }

  /** `styles` once its `url(...)` references are inlined. */
  function SharedStyles(book: Book, idx: Index): string {
    SubCssUrls(JoinStyles(ItemsOfKind(book.items, Style)), idx)
  }

  /** With no images, the shared styles are the joined style sheets as
      they are. */
  lemma SharedStylesEmptyIndex(book: Book)
    ensures SharedStyles(book, []) == JoinStyles(ItemsOfKind(book.items, Style))
  {
    SubCssUrlsEmptyIndex(JoinStyles(ItemsOfKind(book.items, Style)));
  }

  // ---------------------------------------------------------------------
  // One chapter (converter.py:195-226)

  /** The chapter text after both substitutions: attributes first, then
      `url(...)` references. */
  function ChapterContent(item: Item, idx: Index): string {
    SubCssUrls(SubAttrs(Utf8.Decode(item.content, Utf8.Ignore), idx), idx)
  }

  /** With no images, a chapter is its decoded text, unchanged. */
  lemma ChapterContentEmptyIndex(item: Item)
    ensures ChapterContent(item, []) == Utf8.Decode(item.content, Utf8.Ignore)
  {
    var text := Utf8.Decode(item.content, Utf8.Ignore);
    SubAttrsEmptyIndex(text);
    SubCssUrlsEmptyIndex(text);
  }

  const HtmlOpen := "<html><head><style>"
  const HtmlMiddle := "</style></head><body>"
  const HtmlClose := "</body></html>"

  /** `chapter_html`: the styles in the head, the chapter in the body. */
  function ChapterHtml(styles: string, content: string): (html: string)
    ensures |html| == |HtmlOpen| + |styles| + |HtmlMiddle| + |content| + |HtmlClose|
  {
    HtmlOpen + styles + HtmlMiddle + content + HtmlClose
  }

  /** The styles and the chapter can be read back from the wrapped
      document, at fixed offsets from its two ends. */
  lemma ChapterHtmlParts(styles: string, content: string)
    ensures var html, s := ChapterHtml(styles, content), |HtmlOpen| + |styles|;
            html[..|HtmlOpen|] == HtmlOpen &&
            html[|HtmlOpen|..s] == styles &&
            html[s..s + |HtmlMiddle|] == HtmlMiddle &&
            html[s + |HtmlMiddle|..|html| - |HtmlClose|] == content &&
            html[|html| - |HtmlClose|..] == HtmlClose
  {
    var html := ChapterHtml(styles, content);
    var s := |HtmlOpen| + |styles|;
    var t := s + |HtmlMiddle|;
    assert html == ((HtmlOpen + styles) + HtmlMiddle) + (content + HtmlClose);
    assert html[..t] == (HtmlOpen + styles) + HtmlMiddle;
    assert html[..s] == HtmlOpen + styles;
    assert html[t..] == content + HtmlClose;
  }

  // ---------------------------------------------------------------------
  // The chapter loop and the merge (converter.py:191-237)

  /** The pages `render` gives for one chapter. */
  function RenderChapter<P>(item: Item, styles: string, idx: Index, baseUrl: string,
                            render: (string, string) -> seq<P>): seq<P> {
    render(ChapterHtml(styles, ChapterContent(item, idx)), baseUrl)
  }

  /** One rendered document per item, in order. */
  function RenderAll<P>(items: seq<Item>, styles: string, idx: Index, baseUrl: string,
                        render: (string, string) -> seq<P>): (docs: seq<seq<P>>)
    ensures |docs| == |items|
    ensures forall k :: 0 <= k < |items| ==> docs[k] == RenderChapter(items[k], styles, idx, baseUrl, render)
  {
    seq(|items|, k requires 0 <= k < |items| => RenderChapter(items[k], styles, idx, baseUrl, render))
  }

  /** The chapter loop: a missing item is skipped, every other one has its
      images inlined, is wrapped with the styles and rendered, and its
      document is appended to `documents`. */
  method RenderChapters<P>(order: seq<Option<Item>>, styles: string, idx: Index, baseUrl: string,
                           render: (string, string) -> seq<P>) returns (documents: seq<seq<P>>)
    ensures documents == RenderAll(Present(order), styles, idx, baseUrl, render)
  {
    documents := [];
    for i := 0 to |order|
      invariant documents == RenderAll(Present(order[..i]), styles, idx, baseUrl, render)
    {
      assert order[..i + 1] == order[..i] + [order[i]];
      PresentAppend(order[..i], [order[i]]);
      if order[i].None? {
        assert Present([order[i]]) == [];
        continue;
      }
      var docItem := order[i].value;
      assert Present([order[i]]) == [docItem] by {
        assert [order[i]][..0] == [];
      }
      var content := Utf8.Decode(docItem.content, Utf8.Ignore);
      content := SubAttrs(content, idx);
      content := SubCssUrls(content, idx);
      var chapterHtml := ChapterHtml(styles, content);
      var doc := render(chapterHtml, baseUrl);
      documents := documents + [doc];
    }
    assert order[..|order|] == order;
  }

  /** `[page for doc in documents for page in doc.pages]`. */
  function Flatten<P>(docs: seq<seq<P>>): seq<P> {
    if docs == [] then [] else docs[0] + Flatten(docs[1..])
  }

  /** The number of pages of all documents together. */
  function TotalPages<P>(docs: seq<seq<P>>): nat {
    if docs == [] then 0 else TotalPages(docs[..|docs| - 1]) + |docs[|docs| - 1]|
  }

  lemma {:induction false} FlattenAppend<P>(a: seq<seq<P>>, b: seq<seq<P>>)
    ensures Flatten(a + b) == Flatten(a) + Flatten(b)
  {
    if a != [] {
      assert (a + b)[0] == a[0];
      assert (a + b)[1..] == a[1..] + b;
      FlattenAppend(a[1..], b);
      assert Flatten(a + b) == a[0] + (Flatten(a[1..]) + Flatten(b));
    } else {
      assert a + b == b;
    }
  }

  /** The merged document has as many pages as all chapters together. */
  lemma {:induction false} FlattenLength<P>(docs: seq<seq<P>>)
    ensures |Flatten(docs)| == TotalPages(docs)
  {
    if docs != [] {
      var n := |docs| - 1;
      assert docs == docs[..n] + [docs[n]];
      FlattenAppend(docs[..n], [docs[n]]);
      assert Flatten([docs[n]]) == docs[n] + Flatten([docs[n]][1..]);
      FlattenLength(docs[..n]);
    }
  }

  /** Page `i` of chapter `k` is page `TotalPages(docs[..k]) + i` of the
      merged document: the chapters follow each other in order. */
  lemma FlattenAt<P>(docs: seq<seq<P>>, k: nat, i: nat)
    requires k < |docs| && i < |docs[k]|
    ensures TotalPages(docs[..k]) + i < |Flatten(docs)|
    ensures Flatten(docs)[TotalPages(docs[..k]) + i] == docs[k][i]
  {
    assert docs == docs[..k] + docs[k..];
    FlattenAppend(docs[..k], docs[k..]);
    FlattenLength(docs[..k]);
    assert Flatten(docs[k..]) == docs[k] + Flatten(docs[k + 1..]) by {
      assert docs[k..][1..] == docs[k + 1..];
    }
  }

  /** What the merge gives: all pages, or the `IndexError` of
      `documents[0]` when nothing was rendered. */
  datatype Outcome<P> = Merged(pages: seq<P>) | IndexError

  /** `documents[0].copy(all_pages)`. */
  function MergePages<P>(docs: seq<seq<P>>): (r: Outcome<P>)
    ensures r.IndexError? <==> docs == []
    ensures r.Merged? ==> |r.pages| == TotalPages(docs)
  {
    FlattenLength(docs);
    if docs == [] then IndexError else Merged(Flatten(docs))
  }

  // ---------------------------------------------------------------------
  // The whole conversion

  function ImagesByPath(book: Book): Index {
    Build(ItemsOfKind(book.items, Image))
  }

  /** The outcome of converting `book`, given the renderer. */
  function Convert<P>(book: Book, baseUrl: string, render: (string, string) -> seq<P>): Outcome<P> {
    var idx := ImagesByPath(book);
    MergePages(RenderAll(Present(ProcessingOrder(book)), SharedStyles(book, idx), idx, baseUrl, render))
  }

  /** `convert_epub_to_pdf`, with the book already read and the writing of
      the PDF left to the caller. */
  method ConvertEpubToPdf<P>(book: Book, baseUrl: string, render: (string, string) -> seq<P>)
    returns (r: Outcome<P>)
    ensures r == Convert(book, baseUrl, render)
  {
    var imagesByPath := Build(ItemsOfKind(book.items, Image));
    var itemsToProcess := ItemsToProcess(book);
    var styles := CollectStyles(ItemsOfKind(book.items, Style));
    styles := SubCssUrls(styles, imagesByPath);
    var documents := RenderChapters(itemsToProcess, styles, imagesByPath, baseUrl, render);
    r := MergePages(documents);
  }

  lemma PresentEmpty(order: seq<Option<Item>>)
    ensures Present(order) == [] <==> forall k :: 0 <= k < |order| ==> order[k].None?
  {
    if forall k :: 0 <= k < |order| ==> order[k].None? {
      PresentOfMissing(order);
    } else {
      var k :| 0 <= k < |order| && order[k].Some?;
      assert order[k] == Some(order[k].value);
      assert order[k].value in Present(order);
    }
  }

  lemma SpineNamesOfMissing(book: Book)
    requires forall k :: 0 <= k < |book.spine| ==> ItemWithId(book.items, book.spine[k]).None?
    ensures SpineNames(book) == {}
  {
  }

  /** No spine item exists exactly when no spine identifier names an item. */
  lemma SpineItemsMissing(book: Book)
    ensures Present(SpineItems(book)) == [] <==>
            forall k :: 0 <= k < |book.spine| ==> ItemWithId(book.items, book.spine[k]).None?
  {
    var spine := SpineItems(book);
    PresentEmpty(spine);
    assert forall k :: 0 <= k < |book.spine| ==> spine[k] == ItemWithId(book.items, book.spine[k]);
  }

  /** With no spine item, every document is appended. */
  lemma AppendedWithoutSpine(book: Book)
    requires forall k :: 0 <= k < |book.spine| ==> ItemWithId(book.items, book.spine[k]).None?
    ensures Appended(book) == [] <==> ItemsOfKind(book.items, Document) == []
  {
    SpineNamesOfMissing(book);
    var docs := ItemsOfKind(book.items, Document);
    if docs != [] {
      assert docs[0] in Appended(book);
    }
  }

  /** Nothing is rendered exactly when no spine identifier names an item
      and the manifest has no document. */
  lemma NothingToRender(book: Book)
    ensures Present(ProcessingOrder(book)) == [] <==>
            (forall k :: 0 <= k < |book.spine| ==> ItemWithId(book.items, book.spine[k]).None?) &&
            ItemsOfKind(book.items, Document) == []
  {
    RenderedItems(book);
    SpineItemsMissing(book);
    if forall k :: 0 <= k < |book.spine| ==> ItemWithId(book.items, book.spine[k]).None? {
      AppendedWithoutSpine(book);
    }
  }

  /** The conversion fails, with the `IndexError` of `documents[0]`,
      exactly when no spine identifier names an item and the manifest has
      no document. */
  lemma ConvertFailsIffNothingToRender<P>(book: Book, baseUrl: string, render: (string, string) -> seq<P>)
    ensures Convert(book, baseUrl, render).IndexError? <==>
            (forall k :: 0 <= k < |book.spine| ==> ItemWithId(book.items, book.spine[k]).None?) &&
            ItemsOfKind(book.items, Document) == []
  {
    NothingToRender(book);
  }

  /** The merged PDF has the pages of every rendered chapter, chapter after
      chapter in processing order, and no other page. */
  lemma ConvertPages<P>(book: Book, baseUrl: string, render: (string, string) -> seq<P>, k: nat, i: nat)
    requires k < |Present(ProcessingOrder(book))|
    ensures var idx, items := ImagesByPath(book), Present(ProcessingOrder(book));
            var docs := RenderAll(items, SharedStyles(book, idx), idx, baseUrl, render);
            var r := Convert(book, baseUrl, render);
            r.Merged? && |r.pages| == TotalPages(docs) &&
            (i < |docs[k]| ==> TotalPages(docs[..k]) + i < |r.pages| &&
                               r.pages[TotalPages(docs[..k]) + i] == docs[k][i])
  {
    var idx, items := ImagesByPath(book), Present(ProcessingOrder(book));
    var docs := RenderAll(items, SharedStyles(book, idx), idx, baseUrl, render);
    assert Convert(book, baseUrl, render) == MergePages(docs);
    if i < |docs[k]| {
      FlattenAt(docs, k, i);
    }
  }
}
