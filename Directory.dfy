/**
 * Directory: a folder the user loaded, holding the images and sub-folders
 * found in it, in one list of java.io.File values.
 */
module Directories {
  import opened Paths
  import opened Lists
  import opened Images

  /** An element of a directory's file list: an image or a sub-directory. */
  datatype Entry = ImageEntry(image: ImageFile) | SubDirectory(dir: Directory)

  /** The path the element was constructed with (File.getPath()). */
  function PathOf(e: Entry): FilePath {
    match e
    case ImageEntry(img) => img.key
    case SubDirectory(d) => d.path
  }

  /**
   * a.equals(b): an ImageFile keeps File.equals, which accepts any File with
   * the same path; a Directory overrides it and accepts only a Directory with
   * the same path.
   */
  predicate FileEquals(a: Entry, b: Entry) {
    match a
    case ImageEntry(_) => PathOf(b) == PathOf(a)
    case SubDirectory(d) => b.SubDirectory? && b.dir.path == d.path
  }

  /** files.remove(file): drops the first element that file's equals accepts. */
  function Removal(files: seq<Entry>, file: Entry): seq<Entry> {
    RemoveFirstWhere(files, e => FileEquals(file, e))
  }

  /** No two elements share a path. */
  predicate DistinctPaths(s: seq<Entry>) {
    forall i, j :: 0 <= i < j < |s| ==> PathOf(s[i]) != PathOf(s[j])
  }

  /**
   * The two equals methods disagree: an image equals a directory with its
   * path, but that directory does not equal the image.
   */
  lemma FileEqualsAsymmetric(img: ImageFile, d: Directory)
    requires img.key == d.path
    ensures FileEquals(ImageEntry(img), SubDirectory(d))
    ensures !FileEquals(SubDirectory(d), ImageEntry(img))
    ensures FileEquals(SubDirectory(d), SubDirectory(d)) && FileEquals(ImageEntry(img), ImageEntry(img))
  {
  }

  /** The element paths, in order. */
  function PathList(s: seq<Entry>): (ps: seq<FilePath>)
    ensures |ps| == |s| && forall k :: 0 <= k < |s| ==> ps[k] == PathOf(s[k])
  {
    if s == [] then [] else [PathOf(s[0])] + PathList(s[1..])
  }

  /**
   * Removing an image from a list with distinct paths drops the one element
   * with its path, if there is one, and keeps every other element in order.
   */
  lemma RemoveImageEntry(s: seq<Entry>, img: ImageFile)
    requires DistinctPaths(s)
    ensures PathList(Removal(s, ImageEntry(img))) == FilterOut(PathList(s), [img.key])
    ensures DistinctPaths(Removal(s, ImageEntry(img)))
  {
    RemoveImagePaths(s, img);
    DistinctPathList(s);
    FilterOutNoDuplicates(PathList(s), [img.key]);
    DistinctPathList(Removal(s, ImageEntry(img)));
  }

  /** Distinct paths means the path list has no duplicates. */
  lemma DistinctPathList(s: seq<Entry>)
    ensures DistinctPaths(s) <==> NoDuplicates(PathList(s))
  {
  }

  lemma {:induction false} RemoveImagePaths(s: seq<Entry>, img: ImageFile)
    requires DistinctPaths(s)
    ensures PathList(Removal(s, ImageEntry(img))) == FilterOut(PathList(s), [img.key])
  {
    if s != [] {
      assert DistinctPaths(s[1..]) by {
        forall i, j | 0 <= i < j < |s| - 1 ensures PathOf(s[1..][i]) != PathOf(s[1..][j]) {
          assert s[1..][i] == s[i + 1] && s[1..][j] == s[j + 1];
        }
      }
      if PathOf(s[0]) == img.key {
        RemoveAtHead(s, img);
      } else {
        RemoveImagePaths(s[1..], img);
        RemoveAfterHead(s, img);
      }
    }
  }

  /** The first element has the image's path: it alone goes, and no later one has that path. */
  lemma RemoveAtHead(s: seq<Entry>, img: ImageFile)
    requires s != [] && PathOf(s[0]) == img.key && DistinctPaths(s)
    ensures PathList(Removal(s, ImageEntry(img))) == FilterOut(PathList(s), [img.key])
  {
    assert PathList(s)[1..] == PathList(s[1..]);
    assert forall t :: t in PathList(s[1..]) ==> t !in [img.key];
    FilterOutNone(PathList(s[1..]), [img.key]);
    assert Removal(s, ImageEntry(img)) == s[1..];
  }

  /** The first element has another path: it stays, and removal goes on in the rest. */
  lemma RemoveAfterHead(s: seq<Entry>, img: ImageFile)
    requires s != [] && PathOf(s[0]) != img.key
    requires PathList(Removal(s[1..], ImageEntry(img))) == FilterOut(PathList(s[1..]), [img.key])
    ensures PathList(Removal(s, ImageEntry(img))) == FilterOut(PathList(s), [img.key])
  {
    var r := Removal(s[1..], ImageEntry(img));
    assert PathList(s)[1..] == PathList(s[1..]);
    assert Removal(s, ImageEntry(img)) == [s[0]] + r;
    assert PathList([s[0]] + r) == [PathOf(s[0])] + PathList(r);
  }

  class Directory {
    const path: FilePath
    var files: seq<Entry>

    constructor (path: FilePath)
      ensures this.path == path && files == []
    {
      this.path := path;
      files := [];
    }

    method SetFiles(files: seq<Entry>)
      modifies this
      ensures this.files == files
    {
      this.files := files;
    }

    method AddFile(file: Entry)
      modifies this
      ensures files == old(files) + [file]
    {
      files := files + [file];
    }

    method RemoveFile(file: Entry)
      modifies this
      ensures files == Removal(old(files), file)
    {
      files := Removal(files, file);
    }
  }
}
