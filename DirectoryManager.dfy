/**
 * DirectoryManager: the registry of loaded directories, looked up by path,
 * and the move of an image from one directory to another.
 */
module DirectoryIndex {
  import opened Options
  import opened Paths
  import opened Images
  import opened Directories
  import opened Lists

  /** Some directory in the list has path p. */
  predicate HasPath(dirs: seq<Directory>, p: FilePath) {
    exists k :: 0 <= k < |dirs| && dirs[k].path == p
  }

  /** No two registered directories share a path. */
  predicate DistinctDirectories(dirs: seq<Directory>) {
    forall i, j :: 0 <= i < j < |dirs| ==> dirs[i].path != dirs[j].path
  }

  /** The first directory in list order whose path is p. */
  function FirstWithPath(dirs: seq<Directory>, p: FilePath): (r: Option<Directory>)
    ensures r.None? <==> !HasPath(dirs, p)
    ensures r.Some? ==> r.value in dirs && r.value.path == p
    ensures r.Some? ==> exists k :: 0 <= k < |dirs| && dirs[k] == r.value && !HasPath(dirs[..k], p)
  {
    if dirs == [] then None
    else if dirs[0].path == p then
      assert dirs[..0] == [];
      Some(dirs[0])
    else
      var r := FirstWithPath(dirs[1..], p);
      assert HasPath(dirs[1..], p) ==> HasPath(dirs, p);
      assert HasPath(dirs, p) ==> dirs[0].path == p || HasPath(dirs[1..], p);
      if r.Some? then
        var k :| 0 <= k < |dirs| - 1 && dirs[1..][k] == r.value && !HasPath(dirs[1..][..k], p);
        assert dirs[..k + 1] == [dirs[0]] + dirs[1..][..k];
        r
      else r
  }

  /** addDirectory: appends unless a directory with the same path is registered. */
  function WithDirectory(dirs: seq<Directory>, d: Directory): seq<Directory> {
    if HasPath(dirs, d.path) then dirs else dirs + [d]
  }

  /** Each registered directory is the one every lookup of its path returns. */
  lemma {:induction false} LookupFindsRegistered(dirs: seq<Directory>, k: nat)
    requires DistinctDirectories(dirs) && k < |dirs|
    ensures FirstWithPath(dirs, dirs[k].path) == Some(dirs[k])
  {
    if k > 0 {
      assert dirs[0].path != dirs[k].path;
      assert DistinctDirectories(dirs[1..]) by {
        forall i, j | 0 <= i < j < |dirs| - 1 ensures dirs[1..][i].path != dirs[1..][j].path {
          assert dirs[1..][i] == dirs[i + 1] && dirs[1..][j] == dirs[j + 1];
        }
      }
      LookupFindsRegistered(dirs[1..], k - 1);
    }
  }

  /**
   * addDirectory keeps the paths distinct and every registered directory;
   * afterwards a lookup of the added path finds the added directory when its
   * path was new, and nothing changes when it was not.
   */
  lemma WithDirectoryEffect(dirs: seq<Directory>, d: Directory)
    requires DistinctDirectories(dirs)
    ensures DistinctDirectories(WithDirectory(dirs, d))
    ensures WithDirectory(dirs, d)[..|dirs|] == dirs
    ensures HasPath(dirs, d.path) ==> WithDirectory(dirs, d) == dirs
    ensures !HasPath(dirs, d.path) ==> FirstWithPath(WithDirectory(dirs, d), d.path) == Some(d)
  {
    if !HasPath(dirs, d.path) {
      var r := dirs + [d];
      assert r[..|dirs|] == dirs;
      assert DistinctDirectories(r) by {
        forall i, j | 0 <= i < j < |r| ensures r[i].path != r[j].path {
          if j == |dirs| {
            assert r[i] == dirs[i];
          } else {
            assert r[i] == dirs[i] && r[j] == dirs[j];
          }
        }
      }
      assert r[|dirs|] == d;
      LookupFindsRegistered(r, |dirs|);
    }
  }

  class DirectoryManager {
    var listOfDirectories: seq<Directory>

    ghost predicate Valid()
      reads this
    {
      DistinctDirectories(listOfDirectories)
    }

    constructor ()
      ensures listOfDirectories == [] && Valid()
    {
      listOfDirectories := [];
    }

    /** contains(directory) compares paths through Directory.equals. */
    method AddDirectory(directory: Directory)
      requires Valid()
      modifies this
      ensures listOfDirectories == WithDirectory(old(listOfDirectories), directory)
      ensures Valid()
    {
      var present := Contains(directory.path);
      if !present {
        listOfDirectories := listOfDirectories + [directory];
      }
      WithDirectoryEffect(old(listOfDirectories), directory);
    }

    /** directoryManagerContains: a scan for the path. */
    method Contains(path: FilePath) returns (found: bool)
      ensures found <==> HasPath(listOfDirectories, path)
      ensures found <==> FirstWithPath(listOfDirectories, path).Some?
    {
      var i := 0;
      while i < |listOfDirectories|
        invariant 0 <= i <= |listOfDirectories|
        invariant forall k :: 0 <= k < i ==> listOfDirectories[k].path != path
      {
        if listOfDirectories[i].path == path {
          return true;
        }
        i := i + 1;
      }
      return false;
    }

    /** getDirectory: the first directory with the path, None where the source returns null. */
    method GetDirectory(path: FilePath) returns (r: Option<Directory>)
      ensures r == FirstWithPath(listOfDirectories, path)
      ensures r.Some? ==> r.value in listOfDirectories && r.value.path == path
    {
      var i := 0;
      while i < |listOfDirectories|
        invariant 0 <= i <= |listOfDirectories|
        invariant FirstWithPath(listOfDirectories, path) == FirstWithPath(listOfDirectories[i..], path)
      {
        if listOfDirectories[i].path == path {
          return Some(listOfDirectories[i]);
        }
        assert listOfDirectories[i..][1..] == listOfDirectories[i + 1..];
        i := i + 1;
      }
      return None;
    }

    /**
     * moveImageFile: only when the physical rename to dest succeeds is the
     * image appended to the target, removed (first equal entry) from the
     * current directory, and pointed at dest. The two directories may be
     * the same object.
     */
    method MoveImageFile(imageFile: ImageFile, currentDirectory: Directory, targetDirectory: Directory,
                         dest: FilePath, renameSucceeds: bool)
      modifies imageFile, currentDirectory, targetDirectory
      ensures !renameSucceeds ==>
        && imageFile.State() == old(imageFile.State())
        && currentDirectory.files == old(currentDirectory.files)
        && targetDirectory.files == old(targetDirectory.files)
      ensures renameSucceeds ==> imageFile.State() == old(imageFile.State()).(file := dest)
      ensures renameSucceeds && currentDirectory != targetDirectory ==>
        && targetDirectory.files == old(targetDirectory.files) + [ImageEntry(imageFile)]
        && currentDirectory.files == Removal(old(currentDirectory.files), ImageEntry(imageFile))
      ensures renameSucceeds && currentDirectory == targetDirectory ==>
        currentDirectory.files == Removal(old(currentDirectory.files) + [ImageEntry(imageFile)], ImageEntry(imageFile))
    {
      if renameSucceeds {
        targetDirectory.AddFile(ImageEntry(imageFile));
        currentDirectory.RemoveFile(ImageEntry(imageFile));
        imageFile.SetImageFile(dest);
      }
    }
  }

  /**
   * Moving an image to the directory it is already in: when the directory
   * lists an element equal to the image, that element is removed and the
   * image reappears at the end; otherwise the list is unchanged.
   */
  lemma MoveWithinDirectory(files: seq<Entry>, img: ImageFile)
    ensures var e := ImageEntry(img);
      && (HasEqual(files, e) ==> Removal(files + [e], e) == Removal(files, e) + [e])
      && (!HasEqual(files, e) ==> Removal(files + [e], e) == files)
  {
    var e := ImageEntry(img);
    AppendThenRemove(files, e, x => FileEquals(e, x));
  }

  /** Some element of files equals e by e's equals. */
  predicate HasEqual(files: seq<Entry>, e: Entry) {
    exists k :: 0 <= k < |files| && FileEquals(e, files[k])
  }
}
