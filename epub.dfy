/** The book as the EPUB reader hands it to the converter: manifest items
    in manifest order, each with its identifier, its path inside the
    container, its declared media type, the reader's classification and its
    bytes, and the spine as a list of item identifiers in reading order. */
module Epub {
  import opened Wrappers
  import opened Text

  datatype ItemKind = Image | Style | Document | OtherKind

  datatype Item = Item(id: string, name: string, mediaType: string, kind: ItemKind, content: seq<byte>)

  datatype Book = Book(items: seq<Item>, spine: seq<string>)

  /** `book.get_items_of_type(kind)`: the items of that kind, in manifest order. */
  function ItemsOfKind(items: seq<Item>, kind: ItemKind): (r: seq<Item>)
    ensures forall x :: x in r <==> x in items && x.kind == kind
    ensures multiset(r) <= multiset(items)
  {
    if items == [] then []
    else
      var rest := ItemsOfKind(items[1..], kind);
      assert items == [items[0]] + items[1..];
      if items[0].kind == kind then [items[0]] + rest else rest
  }

  /** Selecting by kind goes through the manifest in order: the selection
      from two lists one after the other is the two selections one after
      the other. */
  lemma {:induction false} ItemsOfKindAppend(a: seq<Item>, b: seq<Item>, kind: ItemKind)
    ensures ItemsOfKind(a + b, kind) == ItemsOfKind(a, kind) + ItemsOfKind(b, kind)
  {
    if a == [] {
      assert a + b == b;
    } else {
      assert (a + b)[1..] == a[1..] + b;
      ItemsOfKindAppend(a[1..], b, kind);
    }
  }

  /** A single item is selected exactly when it has the kind. */
  lemma ItemsOfKindSingle(x: Item, kind: ItemKind)
    ensures ItemsOfKind([x], kind) == if x.kind == kind then [x] else []
  {
    assert [x][1..] == [];
  }

  /** `book.get_item_with_id(id)`: the first item with that identifier. */
  function ItemWithId(items: seq<Item>, id: string): (r: Option<Item>)
    ensures r.None? <==> forall k :: 0 <= k < |items| ==> items[k].id != id
    ensures r.Some? ==> exists k :: 0 <= k < |items| && items[k] == r.value && r.value.id == id &&
                                    forall j :: 0 <= j < k ==> items[j].id != id
  {
    if items == [] then None
    else if items[0].id == id then Some(items[0])
    else
      var r := ItemWithId(items[1..], id);
      assert r.Some? ==> exists k :: 1 <= k < |items| && items[k] == r.value && r.value.id == id &&
                                     forall j :: 1 <= j < k ==> items[j].id != id;
      r
  }
}
