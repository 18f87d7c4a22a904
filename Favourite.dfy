/**
 * Favourite: the images the user marked as favourites. ImageFile keeps
 * java.io.File.equals, so membership and removal go by the path an image
 * was created with, not by object identity.
 */
module Favourites {
  import opened Paths
  import opened Lists
  import opened Images

  /** listOfFavourites.contains(imgFile): some favourite has the image's path. */
  predicate HasKey(list: seq<ImageFile>, key: FilePath) {
    exists k :: 0 <= k < |list| && list[k].key == key
  }

  /** No two favourites share a path. */
  predicate DistinctKeys(list: seq<ImageFile>) {
    forall i, j :: 0 <= i < j < |list| ==> list[i].key != list[j].key
  }

  /** addFavourite: appends the image unless an equal one is already a favourite. */
  function Added(list: seq<ImageFile>, img: ImageFile): seq<ImageFile> {
    if HasKey(list, img.key) then list else list + [img]
  }

  /** imgFile.equals(f), inherited from java.io.File: the paths are equal. */
  function SameFile(img: ImageFile): ImageFile -> bool {
    (f: ImageFile) => f.key == img.key
  }

  /** removeFavourite: when an equal favourite exists, the first one is removed. */
  function Removed(list: seq<ImageFile>, img: ImageFile): seq<ImageFile> {
    if HasKey(list, img.key) then RemoveFirstWhere(list, SameFile(img)) else list
  }

  /** After addFavourite the image is a favourite, the list has no repeated path, and only the image was appended. */
  lemma AddedEffect(list: seq<ImageFile>, img: ImageFile)
    requires DistinctKeys(list)
    ensures HasKey(Added(list, img), img.key)
    ensures DistinctKeys(Added(list, img))
    ensures HasKey(list, img.key) <==> Added(list, img) == list
    ensures !HasKey(list, img.key) ==> Added(list, img) == list + [img]
  {
    if !HasKey(list, img.key) {
      var r := list + [img];
      assert r[|list|] == img;
      forall i, j | 0 <= i < j < |r| ensures r[i].key != r[j].key {
        assert r[i] == list[i];
        if j < |list| {
          assert r[j] == list[j];
        }
      }
      assert |r| != |list|;
    }
  }

  /**
   * After removeFavourite no favourite has the image's path, the list stays
   * free of repeated paths, and exactly the favourites with other paths
   * remain, in order.
   */
  lemma RemovedEffect(list: seq<ImageFile>, img: ImageFile)
    requires DistinctKeys(list)
    ensures !HasKey(Removed(list, img), img.key)
    ensures DistinctKeys(Removed(list, img))
    ensures Keys(Removed(list, img)) == FilterOut(Keys(list), [img.key])
  {
    var r := Removed(list, img);
    assert NoDuplicates(Keys(list));
    if HasKey(list, img.key) {
      RemoveKeyEffect(list, img);
    } else {
      FilterOutNone(Keys(list), [img.key]);
    }
    FilterOutNoDuplicates(Keys(list), [img.key]);
    assert NoDuplicates(Keys(r));
    assert forall k :: 0 <= k < |r| ==> Keys(r)[k] !in [img.key];
  }

  lemma {:induction false} RemoveKeyEffect(list: seq<ImageFile>, img: ImageFile)
    requires DistinctKeys(list)
    ensures Keys(RemoveFirstWhere(list, SameFile(img))) == FilterOut(Keys(list), [img.key])
  {
    if list != [] {
      var rest := list[1..];
      assert DistinctKeys(rest) by {
        forall i, j | 0 <= i < j < |rest| ensures rest[i].key != rest[j].key {
          assert rest[i] == list[i + 1] && rest[j] == list[j + 1];
        }
      }
      assert list == [list[0]] + rest;
      if list[0].key == img.key {
        RemoveKeyAtHead(list[0], rest, img);
      } else {
        RemoveKeyEffect(rest, img);
        RemoveKeyAfterHead(list[0], rest, img);
      }
    }
  }

  /** The first favourite has the path: it alone goes, and no later one has that path. */
  lemma RemoveKeyAtHead(x: ImageFile, rest: seq<ImageFile>, img: ImageFile)
    requires x.key == img.key && forall k :: 0 <= k < |rest| ==> rest[k].key != img.key
    ensures Keys(RemoveFirstWhere([x] + rest, SameFile(img))) == FilterOut(Keys([x] + rest), [img.key])
  {
    RemoveFirstWherePrepend(x, rest, SameFile(img));
    KeysPrepend(x, rest);
    FilterOutPrepend(x.key, Keys(rest), [img.key]);
    FilterOutNone(Keys(rest), [img.key]);
  }

  /** The first favourite has another path: it stays, and removal goes on in the rest. */
  lemma RemoveKeyAfterHead(x: ImageFile, rest: seq<ImageFile>, img: ImageFile)
    requires x.key != img.key
    requires Keys(RemoveFirstWhere(rest, SameFile(img))) == FilterOut(Keys(rest), [img.key])
    ensures Keys(RemoveFirstWhere([x] + rest, SameFile(img))) == FilterOut(Keys([x] + rest), [img.key])
  {
    RemoveFirstWherePrepend(x, rest, SameFile(img));
    KeysPrepend(x, RemoveFirstWhere(rest, SameFile(img)));
    KeysPrepend(x, rest);
    FilterOutPrepend(x.key, Keys(rest), [img.key]);
  }

  /** The favourites' paths, in order. */
  function Keys(list: seq<ImageFile>): (ks: seq<FilePath>)
    ensures |ks| == |list| && forall k :: 0 <= k < |list| ==> ks[k] == list[k].key
  {
    if list == [] then [] else [list[0].key] + Keys(list[1..])
  }

  lemma KeysPrepend(x: ImageFile, rest: seq<ImageFile>)
    ensures Keys([x] + rest) == [x.key] + Keys(rest)
  {
    assert ([x] + rest)[1..] == rest;
  }

  /** Marking an image that is not a favourite and then unmarking it restores the list. */
  lemma AddThenRemoveRestores(list: seq<ImageFile>, img: ImageFile)
    requires !HasKey(list, img.key)
    ensures Removed(Added(list, img), img) == list
  {
    AppendThenRemove(list, img, SameFile(img));
    var r := list + [img];
    assert r[|list|] == img;
    assert HasKey(r, img.key);
  }

  class Favourite {
    var listOfFavourites: seq<ImageFile>

    ghost predicate Valid()
      reads this
    {
      DistinctKeys(listOfFavourites)
    }

    constructor ()
      ensures listOfFavourites == [] && Valid()
    {
      listOfFavourites := [];
    }

    method AddFavourite(imgFile: ImageFile)
      requires Valid()
      modifies this
      ensures listOfFavourites == Added(old(listOfFavourites), imgFile)
      ensures Valid()
    {
      var present := Contains(imgFile);
      if !present {
        listOfFavourites := listOfFavourites + [imgFile];
      }
      AddedEffect(old(listOfFavourites), imgFile);
    }

    method RemoveFavourite(imgFile: ImageFile)
      requires Valid()
      modifies this
      ensures listOfFavourites == Removed(old(listOfFavourites), imgFile)
      ensures Valid()
    {
      var present := Contains(imgFile);
      if present {
        listOfFavourites := RemoveFirstWhere(listOfFavourites, SameFile(imgFile));
      }
      RemovedEffect(old(listOfFavourites), imgFile);
    }

    /** ArrayList.contains: a scan comparing paths. */
    method Contains(imgFile: ImageFile) returns (found: bool)
      ensures found <==> HasKey(listOfFavourites, imgFile.key)
    {
      var i := 0;
      while i < |listOfFavourites|
        invariant 0 <= i <= |listOfFavourites|
        invariant forall k :: 0 <= k < i ==> listOfFavourites[k].key != imgFile.key
      {
        if listOfFavourites[i].key == imgFile.key {
          return true;
        }
        i := i + 1;
      }
      return false;
    }
  }
}
