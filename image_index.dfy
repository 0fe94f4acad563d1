/** The image index: a dictionary from each image item's path, with
    backslashes turned into slashes, to the item. It is kept as a list of
    entries in the dictionary's iteration order, because the filename
    fallback of the resolver walks the entries in that order. As for any
    dictionary built by assignment, a path keeps the position where it was
    first inserted and the value assigned last. */
module ImageIndex {
  import opened Wrappers
  import opened Text
  import opened Epub

  datatype Entry = Entry(path: string, item: Item)

  type Index = seq<Entry>

  function NormalizeName(name: string): string {
    ReplaceChar(name, '\\', '/')
  }

  function Paths(idx: Index): (ps: seq<string>)
    ensures |ps| == |idx| && forall k :: 0 <= k < |idx| ==> ps[k] == idx[k].path
  {
    seq(|idx|, k requires 0 <= k < |idx| => idx[k].path)
  }

  predicate UniquePaths(idx: Index) {
    forall i, j :: 0 <= i < j < |idx| ==> idx[i].path != idx[j].path
  }

  /** `idx.get(key)`. */
  function Get(idx: Index, key: string): (r: Option<Item>)
    ensures r.None? <==> key !in Paths(idx)
    ensures r.Some? ==> exists k :: 0 <= k < |idx| && idx[k] == Entry(key, r.value)
  {
    if idx == [] then None
    else if idx[0].path == key then Some(idx[0].item)
    else
      var r := Get(idx[1..], key);
      assert Paths(idx) == [idx[0].path] + Paths(idx[1..]);
      assert r.Some? ==> exists k :: 1 <= k < |idx| && idx[k] == Entry(key, r.value);
      r
  }

  /** `idx[key] = item`: the value of an existing path is replaced in place,
      a new path is added at the end. */
  function Put(idx: Index, key: string, item: Item): (r: Index)
    ensures Paths(r) == if key in Paths(idx) then Paths(idx) else Paths(idx) + [key]
    ensures forall k :: 0 <= k < |idx| && idx[k].path != key ==> r[k] == idx[k]
    ensures UniquePaths(idx) ==> UniquePaths(r)
    ensures key in Paths(r)
  {
    if key in Paths(idx) then
      seq(|idx|, k requires 0 <= k < |idx| => if idx[k].path == key then Entry(key, item) else idx[k])
    else idx + [Entry(key, item)]
  }

  lemma GetAfterPut(idx: Index, key: string, item: Item, other: string)
    requires UniquePaths(idx)
    ensures Get(Put(idx, key, item), key) == Some(item)
    ensures other != key ==> Get(Put(idx, key, item), other) == Get(idx, other)
  {
    var r := Put(idx, key, item);
    assert UniquePaths(r);
    GetUnique(r, key);
    if other != key {
      GetUnique(r, other);
      GetUnique(idx, other);
    }
  }

  /** With unique paths, `Get` finds the one entry that has the path. */
  lemma GetUnique(idx: Index, key: string)
    requires UniquePaths(idx)
    ensures forall k :: 0 <= k < |idx| && idx[k].path == key ==> Get(idx, key) == Some(idx[k].item)
  {
    forall k | 0 <= k < |idx| && idx[k].path == key
      ensures Get(idx, key) == Some(idx[k].item)
    {
      var r := Get(idx, key);
      assert key in Paths(idx);
      var j :| 0 <= j < |idx| && idx[j] == Entry(key, r.value);
      assert j == k;
    }
  }

  /** `{name.replace('\\', '/'): item for item in images}`. */
  function Build(images: seq<Item>): (idx: Index)
    ensures UniquePaths(idx)
  {
    if images == [] then []
    else
      var last := images[|images| - 1];
      Put(Build(images[..|images| - 1]), NormalizeName(last.name), last)
  }

  /** Reference definition of the value the dictionary ends up with for a
      path: the last image whose normalised name is that path. */
  function LastNamed(images: seq<Item>, key: string): (r: Option<Item>)
    ensures r.Some? ==> r.value in images && NormalizeName(r.value.name) == key
    ensures r.None? <==> forall x :: x in images ==> NormalizeName(x.name) != key
  {
    if images == [] then None
    else if NormalizeName(images[|images| - 1].name) == key then Some(images[|images| - 1])
    else
      var r := LastNamed(images[..|images| - 1], key);
      assert forall x :: x in images ==> x in images[..|images| - 1] || x == images[|images| - 1];
      r
  }

  /** Looking a path up in the built index gives the last image with that
      path; a path no image has is not in the index. */
  lemma {:induction false} BuildGet(images: seq<Item>, key: string)
    ensures Get(Build(images), key) == LastNamed(images, key)
  {
    if images != [] {
      var init := images[..|images| - 1];
      var last := images[|images| - 1];
      BuildGet(init, key);
      GetAfterPut(Build(init), NormalizeName(last.name), last, key);
    }
  }

  /** Reference definition of the position where a path is first inserted:
      the first image whose normalised name is that path. */
  function FirstPosition(images: seq<Item>, key: string): (p: nat)
    ensures p <= |images|
    ensures p < |images| ==> NormalizeName(images[p].name) == key
    ensures forall j :: 0 <= j < p ==> NormalizeName(images[j].name) != key
  {
    if images == [] then 0
    else if NormalizeName(images[0].name) == key then 0
    else 1 + FirstPosition(images[1..], key)
  }

  lemma FirstPositionOfPrefix(images: seq<Item>, n: nat, key: string)
    requires n <= |images| && FirstPosition(images[..n], key) < n
    ensures FirstPosition(images, key) == FirstPosition(images[..n], key)
  {
    var p := FirstPosition(images[..n], key);
    assert images[..n][p] == images[p];
    assert forall j :: 0 <= j < p ==> images[..n][j] == images[j];
  }

  /** A path some image has is first inserted at a position inside the manifest. */
  lemma FirstPositionInside(images: seq<Item>, key: string)
    requires exists x :: x in images && NormalizeName(x.name) == key
    ensures FirstPosition(images, key) < |images|
  {
    var x :| x in images && NormalizeName(x.name) == key;
    var k :| 0 <= k < |images| && images[k] == x;
  }

  /** The paths of the built index are exactly the normalised image names. */
  lemma {:induction false} BuildPaths(images: seq<Item>)
    ensures forall p :: p in Paths(Build(images)) <==> exists x :: x in images && NormalizeName(x.name) == p
  {
    if images != [] {
      var n := |images| - 1;
      BuildPaths(images[..n]);
      assert forall x :: x in images <==> x in images[..n] || x == images[n];
    }
  }

  /** Adding the last image keeps the positions of the paths already there
      and puts a new path after all of them. */
  lemma BuildOrderStep(images: seq<Item>)
    requires images != []
    ensures var n := |images| - 1;
            var before, after := Build(images[..n]), Build(images);
            |before| <= |after| &&
            (forall k :: 0 <= k < |before| ==>
               after[k].path == before[k].path &&
               FirstPosition(images, before[k].path) == FirstPosition(images[..n], before[k].path) < n) &&
            (forall k :: |before| <= k < |after| ==> FirstPosition(images, after[k].path) == n)
  {
    var n := |images| - 1;
    var init := images[..n];
    var key := NormalizeName(images[n].name);
    var before, after := Build(init), Build(images);
    BuildPaths(init);
    assert Paths(after) == if key in Paths(before) then Paths(before) else Paths(before) + [key];
    forall k | 0 <= k < |before|
      ensures after[k].path == before[k].path
      ensures FirstPosition(images, before[k].path) == FirstPosition(init, before[k].path) < n
    {
      assert Paths(after)[k] == Paths(before)[k];
      assert before[k].path in Paths(before);
      FirstPositionInside(init, before[k].path);
      FirstPositionOfPrefix(images, n, before[k].path);
    }
    forall k | |before| <= k < |after|
      ensures FirstPosition(images, after[k].path) == n
    {
      assert Paths(after)[k] == key;
      assert forall j :: 0 <= j < n ==> images[j] == init[j];
    }
  }

  /** The entries of the built index are in the order in which their paths
      first occur among the manifest's images. */
  lemma {:induction false} BuildOrder(images: seq<Item>)
    ensures forall i, j :: 0 <= i < j < |Build(images)| ==>
              FirstPosition(images, Build(images)[i].path) < FirstPosition(images, Build(images)[j].path)
  {
    if images != [] {
      var n := |images| - 1;
      BuildOrder(images[..n]);
      BuildOrderStep(images);
    }
  }
}
