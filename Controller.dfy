/**
 * The part of the GUI controller that carries program logic: getFiles, which
 * turns a directory listing into images and sub-directories, auto-tagging
 * the images, and buildDirectory, which loads a selected folder.
 */
module Controllers {
  import opened Options
  import opened Paths
  import opened JavaText
  import opened Tags
  import opened TagRegistry
  import opened Lists
  import opened Images
  import opened Directories
  import opened DirectoryIndex
  import opened FileFilter
  import opened TaggedFormat
  import opened AutoTagging

  /** An element of a directory listing: its path and whether it is a directory. */
  datatype Listed = Listed(path: FilePath, isDirectory: bool)

  /** listFiles(filter): the elements the filter accepts, in listing order. */
  function Accepted(listing: seq<Listed>): (acc: seq<Listed>)
    ensures forall k :: 0 <= k < |acc| ==> acc[k] in listing && Accept(acc[k].path.name, acc[k].isDirectory)
    ensures forall k :: 0 <= k < |listing| && Accept(listing[k].path.name, listing[k].isDirectory) ==> listing[k] in acc
  {
    if listing == [] then []
    else (if Accept(listing[0].path.name, listing[0].isDirectory) then [listing[0]] else []) + Accepted(listing[1..])
  }

  /** An image as getFiles builds it, and the registry afterwards. */
  datatype Imported = Imported(state: ImageState, registry: seq<Tag>)

  /**
   * new ImageFile(path), auto-tagged when its lower-cased name matches
   * regex_format; None when the constructor or autoTag throws.
   */
  function ImportImage(registry: seq<Tag>, path: FilePath): Option<Imported> {
    var dot := LastIndexOf(path.name, '.');
    if dot < 0 then None
    else
      var s := ImageState(path, path.name[..dot], [], []);
      if !MatchesTaggedFormat(LowerAscii(path.name)) then Some(Imported(s, registry))
      else match AutoTagOutcome(registry, path.name, [])
        case None => None
        case Some(o) => Some(Imported(s.(baseName := o.baseName, tags := o.tags), o.registry))
  }

  /** The registry after the listed element l is imported into registry r; None when that throws. */
  function NextRegistry(r: seq<Tag>, l: Listed): Option<seq<Tag>> {
    if l.isDirectory then Some(r)
    else match ImportImage(r, l.path)
      case None => None
      case Some(im) => Some(im.registry)
  }

  /** The registry after importing the images among acc in order; None once one of them throws. */
  function ListingRegistry(registry: seq<Tag>, acc: seq<Listed>): Option<seq<Tag>>
    decreases |acc|
  {
    if acc == [] then Some(registry)
    else match ListingRegistry(registry, acc[..|acc| - 1])
      case None => None
      case Some(r) => NextRegistry(r, acc[|acc| - 1])
  }

  /** Importing one more element of the listing continues from the registry the prefix left. */
  lemma ListingRegistryStep(registry: seq<Tag>, acc: seq<Listed>, i: nat, r: seq<Tag>)
    requires i < |acc| && ListingRegistry(registry, acc[..i]) == Some(r)
    ensures ListingRegistry(registry, acc[..i + 1]) == NextRegistry(r, acc[i])
  {
    assert acc[..i + 1][..i] == acc[..i];
  }

  /**
   * A tagged image reloaded from disk gets its base name and tags back: the
   * file getFiles imports under the name generateNewName gave it carries the
   * same base name and tags, with an empty log.
   */
  lemma ReloadRestoresImage(registry: seq<Tag>, parent: string, b: string, tags: seq<Tag>, ext: string)
    requires b != [] && Trim(b) == b && MarkerFree(b)
    requires tags != [] && forall k :: 0 <= k < |tags| ==> Reloadable(tags[k].name)
    requires var last := tags[|tags| - 1].name; last != [] && '.' !in last[..|last| - 1]
    requires LowerAscii(ext) in ImageExtensions && ext[0] == '.' && '.' !in ext[1..]
    ensures var path := FilePath(parent, EncodedName(b, tags, ext));
      && ImportImage(registry, path).Some?
      && ImportImage(registry, path).value.state == ImageState(path, b, tags, [])
      && forall k :: 0 <= k < |tags| ==> tags[k] in ImportImage(registry, path).value.registry
  {
    var path := FilePath(parent, EncodedName(b, tags, ext));
    GeneratedNameMatches(b, tags, ext);
    AutoTagRecoversName(registry, b, tags, ext, []);
    LastDotOfSuffix(b + TagSuffix(tags), ext);
    var o := AutoTagOutcome(registry, path.name, []).value;
    ImportTagged(registry, path, o);
  }

  /** An image whose name matches regex_format takes the base name and tags autoTag finds in it. */
  lemma ImportTagged(registry: seq<Tag>, path: FilePath, o: AutoTagged)
    requires LastIndexOf(path.name, '.') >= 0 && MatchesTaggedFormat(LowerAscii(path.name))
    requires AutoTagOutcome(registry, path.name, []) == Some(o)
    ensures ImportImage(registry, path) == Some(Imported(ImageState(path, o.baseName, o.tags, []), o.registry))
  {
  }

  /** Once importing a prefix of the listing throws, so does importing the whole listing. */
  lemma {:induction false} ListingRegistryThrows(registry: seq<Tag>, acc: seq<Listed>, i: nat)
    requires i <= |acc| && ListingRegistry(registry, acc[..i]).None?
    ensures ListingRegistry(registry, acc).None?
    decreases |acc| - i
  {
    if i < |acc| {
      assert acc[..i + 1][..i] == acc[..i];
      ListingRegistryThrows(registry, acc, i + 1);
    } else {
      assert acc[..i] == acc;
    }
  }

  /** The state of an image element; a sub-directory has none. */
  ghost function StateOf(e: Entry): Option<ImageState>
    reads if e.ImageEntry? then {e.image} else {}
  {
    if e.ImageEntry? then Some(e.image.State()) else None
  }

  /**
   * The element getFiles puts in its result for a listed entry: a
   * sub-directory is the registered one with that path when there is one,
   * and an image is a new ImageFile whose state s is the one ImportImage
   * describes for the registry as it stood when that image was reached.
   */
  ghost predicate EntryFor(e: Entry, s: Option<ImageState>, l: Listed, registry: Option<seq<Tag>>, dirs: seq<Directory>) {
    if l.isDirectory then
      && e.SubDirectory? && e.dir.path == l.path
      && (HasPath(dirs, l.path) ==> Some(e.dir) == FirstWithPath(dirs, l.path))
    else
      && e.ImageEntry? && e.image.key == l.path && registry.Some?
      && ImportImage(registry.value, l.path).Some?
      && s == Some(ImportImage(registry.value, l.path).value.state)
  }

  /** files, whose images are in the given states, is what getFiles builds from the listing acc. */
  ghost predicate ListedAs(files: seq<Entry>, states: seq<Option<ImageState>>, acc: seq<Listed>, registry: seq<Tag>, dirs: seq<Directory>) {
    && |files| == |acc| == |states|
    && forall k :: 0 <= k < |acc| ==> EntryFor(files[k], states[k], acc[k], ListingRegistry(registry, acc[..k]), dirs)
  }

  /** Building one more element the way getFiles does extends a list built that way. */
  lemma ListedAsSnoc(files: seq<Entry>, states: seq<Option<ImageState>>, acc: seq<Listed>,
                     e: Entry, s: Option<ImageState>, l: Listed, registry: seq<Tag>, dirs: seq<Directory>)
    requires ListedAs(files, states, acc, registry, dirs)
    requires EntryFor(e, s, l, ListingRegistry(registry, acc), dirs)
    ensures ListedAs(files + [e], states + [s], acc + [l], registry, dirs)
  {
    var files', states', acc' := files + [e], states + [s], acc + [l];
    forall k | 0 <= k < |acc'|
      ensures EntryFor(files'[k], states'[k], acc'[k], ListingRegistry(registry, acc'[..k]), dirs)
    {
      if k < |acc| {
        assert files'[k] == files[k] && states'[k] == states[k] && acc'[k] == acc[k] && acc'[..k] == acc[..k];
      } else {
        assert acc'[..k] == acc;
      }
    }
  }

  /** ListedAsSnoc for the next element of a listing. */
  lemma ListedAsNext(files: seq<Entry>, states: seq<Option<ImageState>>, acc: seq<Listed>, i: nat,
                     e: Entry, s: Option<ImageState>, registry: seq<Tag>, dirs: seq<Directory>)
    requires i < |acc| && ListedAs(files, states, acc[..i], registry, dirs)
    requires EntryFor(e, s, acc[i], ListingRegistry(registry, acc[..i]), dirs)
    ensures ListedAs(files + [e], states + [s], acc[..i + 1], registry, dirs)
  {
    ListedAsSnoc(files, states, acc[..i], e, s, acc[i], registry, dirs);
    assert acc[..i] + [acc[i]] == acc[..i + 1];
  }

  /**
   * Where autoTag's loop stands before piece i: the registry and the tags
   * collected are what registering the pieces before i gives, and the
   * image's tags are the collected ones once a piece has been handled.
   */
  ghost predicate TagsProgress(registry: seq<Tag>, pieces: seq<string>, i: nat, list: seq<Tag>,
                               collected: seq<Tag>, current: seq<Tag>, before: seq<Tag>) {
    && 1 <= i <= |pieces|
    && RegisterAll(registry, pieces[1..i]) == Harvest(list, collected)
    && (i == 1 ==> current == before)
    && (i > 1 ==> current == collected)
  }

  class GuiController {
    const tagManager: TagManager
    const directoryManager: DirectoryManager

    ghost predicate Valid()
      reads tagManager, directoryManager
    {
      tagManager.Valid() && directoryManager.Valid()
    }

    constructor (tagManager: TagManager, directoryManager: DirectoryManager)
      ensures this.tagManager == tagManager && this.directoryManager == directoryManager
    {
      this.tagManager := tagManager;
      this.directoryManager := directoryManager;
    }

    /**
     * autoTag: splits the stem of the image's physical name at " @", takes
     * the trimmed first piece as the new base name, registers a tag for each
     * further piece and sets the image's tags to the collected ones after
     * every piece. ok is false where the source throws, and then nothing has
     * changed.
     */
    method AutoTag(imgFil: ImageFile, tagManager: TagManager) returns (ok: bool)
      requires tagManager.Valid()
      modifies imgFil, tagManager
      ensures tagManager.Valid()
      ensures ok <==> AutoTagOutcome(old(tagManager.listOfTags), old(imgFil.imageFile.name), old(imgFil.currentTags)).Some?
      ensures ok ==>
        var o := AutoTagOutcome(old(tagManager.listOfTags), old(imgFil.imageFile.name), old(imgFil.currentTags)).value;
        && tagManager.listOfTags == o.registry
        && imgFil.State() == old(imgFil.State()).(baseName := o.baseName, tags := o.tags)
      ensures !ok ==> tagManager.listOfTags == old(tagManager.listOfTags) && imgFil.State() == old(imgFil.State())
    {
      var name := imgFil.imageFile.name;
      var indexOfPeriod := LastIndexOf(name, '.');
      if indexOfPeriod < 0 {
        return false;
      }
      var extractedTags := SplitOnMarker(name[..indexOfPeriod]);
      if |extractedTags| == 0 {
        return false;
      }
      imgFil.SetBaseName(Trim(extractedTags[0]));
      TagPieces(imgFil, tagManager, extractedTags);
      return true;
    }

    /**
     * autoTag's loop over the pieces after the first: each becomes a tag
     * offered to the registry, collected when listed afterwards, and the
     * image's tags are set to the collection after every piece.
     */
    method TagPieces(imgFil: ImageFile, tagManager: TagManager, extractedTags: seq<string>)
      requires tagManager.Valid() && |extractedTags| >= 1
      modifies imgFil`currentTags, tagManager
      ensures tagManager.Valid()
      ensures tagManager.listOfTags == RegisterAll(old(tagManager.listOfTags), extractedTags[1..]).registry
      ensures imgFil.State() == old(imgFil.State()).(tags :=
        if |extractedTags| == 1 then old(imgFil.currentTags) else RegisterAll(old(tagManager.listOfTags), extractedTags[1..]).attached)
    {
      ghost var registry := tagManager.listOfTags;
      var i := 1;
      var tagToAdd: seq<Tag> := [];
      assert extractedTags[1..1] == [];
      while i < |extractedTags|
        invariant tagManager.Valid()
        invariant TagsProgress(registry, extractedTags, i, tagManager.listOfTags, tagToAdd, imgFil.currentTags, old(imgFil.currentTags))
      {
        tagToAdd := TagNextPiece(imgFil, tagManager, registry, extractedTags, i, tagToAdd, old(imgFil.currentTags));
        i := i + 1;
      }
      assert extractedTags[1..i] == extractedTags[1..];
    }

    /**
     * One pass of autoTag's loop, stated against the pieces before piece i:
     * if the registry and the collected tags are what registering those
     * pieces gives, afterwards they are what registering one more gives.
     */
    method TagNextPiece(imgFil: ImageFile, tagManager: TagManager, ghost registry: seq<Tag>,
                        extractedTags: seq<string>, i: nat, tagToAdd: seq<Tag>, ghost before: seq<Tag>) returns (collected: seq<Tag>)
      requires tagManager.Valid() && i < |extractedTags|
      requires TagsProgress(registry, extractedTags, i, tagManager.listOfTags, tagToAdd, imgFil.currentTags, before)
      modifies imgFil`currentTags, tagManager
      ensures tagManager.Valid()
      ensures TagsProgress(registry, extractedTags, i + 1, tagManager.listOfTags, collected, imgFil.currentTags, before)
    {
      RegisterAllStep(registry, extractedTags, i);
      collected := OfferPiece(imgFil, tagManager, extractedTags[i], tagToAdd);
    }

    /**
     * The body of autoTag's loop: the trimmed piece becomes a tag offered to
     * the registry, it is appended to the collection when the registry lists
     * it afterwards, and the image's tags are set to the collection.
     */
    method OfferPiece(imgFil: ImageFile, tagManager: TagManager, piece: string, tagToAdd: seq<Tag>) returns (collected: seq<Tag>)
      requires tagManager.Valid()
      modifies imgFil`currentTags, tagManager
      ensures tagManager.Valid()
      ensures Harvest(tagManager.listOfTags, collected) == Offer(Harvest(old(tagManager.listOfTags), tagToAdd), piece)
      ensures imgFil.currentTags == collected
      ensures imgFil.imageFile == old(imgFil.imageFile) && imgFil.imageLog == old(imgFil.imageLog)
      ensures imgFil.baseName == old(imgFil.baseName)
    {
      var newTag := NewTag(Trim(piece));
      var _ := tagManager.AddTag(newTag);
      collected := tagToAdd;
      if newTag in tagManager.listOfTags {
        collected := collected + [newTag];
      }
      imgFil.SetCurrentTags(collected);
    }

    /**
     * getFiles: builds the directory's elements from the accepted part of its
     * listing, in order. An image becomes a new ImageFile, auto-tagged when
     * its name matches regex_format; a sub-directory is the registered one
     * with its path, or a new unregistered Directory. None where autoTag
     * throws.
     */
    method GetFiles(listing: seq<Listed>) returns (files: Option<seq<Entry>>, ghost states: seq<Option<ImageState>>)
      requires tagManager.Valid()
      modifies tagManager
      ensures tagManager.Valid()
      ensures files.Some? <==> ListingRegistry(old(tagManager.listOfTags), Accepted(listing)).Some?
      ensures files.Some? ==> Some(tagManager.listOfTags) == ListingRegistry(old(tagManager.listOfTags), Accepted(listing))
      ensures files.Some? ==> ListedAs(files.value, states, Accepted(listing), old(tagManager.listOfTags), directoryManager.listOfDirectories)
      ensures files.Some? ==> forall k :: 0 <= k < |files.value| ==> StateOf(files.value[k]) == states[k]
      ensures files.Some? ==> forall k :: 0 <= k < |files.value| && files.value[k].ImageEntry? ==> fresh(files.value[k].image)
      ensures files.Some? ==> forall k :: 0 <= k < |files.value| && files.value[k].SubDirectory? ==>
        files.value[k].dir in directoryManager.listOfDirectories || fresh(files.value[k].dir)
    {
      var allFiles := Accepted(listing);
      ghost var r0 := tagManager.listOfTags;
      var result: seq<Entry> := [];
      states := [];
      var i := 0;
      while i < |allFiles|
        invariant 0 <= i <= |allFiles| && |result| == i
        invariant tagManager.Valid()
        invariant ListingRegistry(r0, allFiles[..i]) == Some(tagManager.listOfTags)
        invariant ListedAs(result, states, allFiles[..i], r0, directoryManager.listOfDirectories)
        invariant forall k :: 0 <= k < i ==>
          && StateOf(result[k]) == states[k]
          && (result[k].ImageEntry? ==> fresh(result[k].image))
          && (result[k].SubDirectory? ==> result[k].dir in directoryManager.listOfDirectories || fresh(result[k].dir))
      {
        var entry := ImportNext(r0, allFiles, i, result, states);
        if entry.None? {
          return None, states;
        }
        states := states + [StateOf(entry.value)];
        result := result + [entry.value];
        i := i + 1;
      }
      assert allFiles[..i] == allFiles;
      return Some(result), states;
    }

    /**
     * One pass of getFiles' loop, stated against the elements before
     * element i: if the registry and the result so far are what importing
     * those elements gives, afterwards they are what importing one more
     * gives, or None when importing it throws.
     */
    method ImportNext(ghost r0: seq<Tag>, allFiles: seq<Listed>, i: nat, result: seq<Entry>, ghost states: seq<Option<ImageState>>)
      returns (entry: Option<Entry>)
      requires tagManager.Valid() && i < |allFiles| && Accept(allFiles[i].path.name, allFiles[i].isDirectory)
      requires ListingRegistry(r0, allFiles[..i]) == Some(tagManager.listOfTags)
      requires ListedAs(result, states, allFiles[..i], r0, directoryManager.listOfDirectories)
      requires forall k :: 0 <= k < |result| ==> StateOf(result[k]) == states[k]
      modifies tagManager
      ensures tagManager.Valid()
      ensures entry.None? ==> ListingRegistry(r0, allFiles).None?
      ensures entry.Some? ==>
        && ListingRegistry(r0, allFiles[..i + 1]) == Some(tagManager.listOfTags)
        && ListedAs(result + [entry.value], states + [StateOf(entry.value)], allFiles[..i + 1], r0, directoryManager.listOfDirectories)
        && forall k :: 0 <= k < |result| + 1 ==> StateOf((result + [entry.value])[k]) == (states + [StateOf(entry.value)])[k]
      ensures entry.Some? && entry.value.ImageEntry? ==> fresh(entry.value.image)
      ensures entry.Some? && entry.value.SubDirectory? ==>
        entry.value.dir in directoryManager.listOfDirectories || fresh(entry.value.dir)
    {
      var file := allFiles[i];
      ListingRegistryStep(r0, allFiles, i, tagManager.listOfTags);
      entry := ImportListed(file);
      if entry.None? {
        ListingRegistryThrows(r0, allFiles, i + 1);
        return;
      }
      ListedAsNext(result, states, allFiles, i, entry.value, StateOf(entry.value), r0, directoryManager.listOfDirectories);
    }

    /**
     * The body of getFiles' loop: an accepted element of the listing becomes
     * the image or sub-directory EntryFor describes, and the registry moves
     * on as NextRegistry says; None where autoTag throws.
     */
    method ImportListed(file: Listed) returns (entry: Option<Entry>)
      requires tagManager.Valid() && Accept(file.path.name, file.isDirectory)
      modifies tagManager
      ensures tagManager.Valid()
      ensures entry.Some? <==> NextRegistry(old(tagManager.listOfTags), file).Some?
      ensures entry.Some? ==>
        && Some(tagManager.listOfTags) == NextRegistry(old(tagManager.listOfTags), file)
        && EntryFor(entry.value, StateOf(entry.value), file, Some(old(tagManager.listOfTags)), directoryManager.listOfDirectories)
      ensures entry.Some? && entry.value.ImageEntry? ==> fresh(entry.value.image)
      ensures entry.Some? && entry.value.SubDirectory? ==>
        entry.value.dir in directoryManager.listOfDirectories || fresh(entry.value.dir)
    {
      if !file.isDirectory {
        entry := ImportImageFile(file.path);
      } else {
        var d := ImportSubDirectory(file.path);
        entry := Some(d);
      }
    }

    /**
     * getFiles on a listed image: a new ImageFile for the path, auto-tagged
     * when its lower-cased name matches regex_format. The new image and the
     * registry are as ImportImage describes; None where autoTag throws.
     */
    method ImportImageFile(path: FilePath) returns (entry: Option<Entry>)
      requires tagManager.Valid() && Accept(path.name, false)
      modifies tagManager
      ensures tagManager.Valid()
      ensures entry.Some? <==> ImportImage(old(tagManager.listOfTags), path).Some?
      ensures entry.Some? ==>
        && entry.value.ImageEntry? && fresh(entry.value.image) && entry.value.image.key == path
        && entry.value.image.State() == ImportImage(old(tagManager.listOfTags), path).value.state
        && tagManager.listOfTags == ImportImage(old(tagManager.listOfTags), path).value.registry
    {
      AcceptedImageName(path.name);
      ghost var expected := ImportImage(tagManager.listOfTags, path);
      var imgFile := new ImageFile(path);
      assert imgFile.State() == ImageState(path, path.name[..LastIndexOf(path.name, '.')], [], []);
      if MatchesTaggedFormat(LowerAscii(imgFile.imageFile.name)) {
        ghost var outcome := AutoTagOutcome(tagManager.listOfTags, path.name, []);
        assert expected == if outcome.None? then None else
          Some(Imported(imgFile.State().(baseName := outcome.value.baseName, tags := outcome.value.tags), outcome.value.registry));
        var ok := AutoTag(imgFile, tagManager);
        if !ok {
          return None;
        }
      } else {
        assert expected == Some(Imported(imgFile.State(), tagManager.listOfTags));
      }
      return Some(ImageEntry(imgFile));
    }

    /**
     * getFiles on a listed sub-directory: the registered directory with the
     * path when there is one, otherwise a new unregistered Directory.
     */
    method ImportSubDirectory(path: FilePath) returns (entry: Entry)
      ensures entry.SubDirectory? && entry.dir.path == path
      ensures HasPath(directoryManager.listOfDirectories, path) ==>
        Some(entry.dir) == FirstWithPath(directoryManager.listOfDirectories, path)
      ensures !HasPath(directoryManager.listOfDirectories, path) ==> fresh(entry.dir)
    {
      var found := directoryManager.Contains(path);
      var directory: Directory;
      if found {
        var d := directoryManager.GetDirectory(path);
        directory := d.value;
      } else {
        directory := new Directory(path);
      }
      return SubDirectory(directory);
    }

    /**
     * buildDirectory: the registered directory with the path when there is
     * one, with nothing changed; otherwise a new Directory holding getFiles'
     * result, registered with the directory manager. None where getFiles
     * throws, and then no directory is registered.
     */
    method BuildDirectory(selectedPath: FilePath, listing: seq<Listed>) returns (directory: Option<Directory>, ghost states: seq<Option<ImageState>>)
      requires Valid()
      modifies tagManager, directoryManager
      ensures Valid()
      ensures HasPath(old(directoryManager.listOfDirectories), selectedPath) ==>
        && directory == FirstWithPath(old(directoryManager.listOfDirectories), selectedPath)
        && directoryManager.listOfDirectories == old(directoryManager.listOfDirectories)
        && tagManager.listOfTags == old(tagManager.listOfTags)
      ensures !HasPath(old(directoryManager.listOfDirectories), selectedPath) ==>
        && (directory.Some? <==> ListingRegistry(old(tagManager.listOfTags), Accepted(listing)).Some?)
        && (directory.None? ==> directoryManager.listOfDirectories == old(directoryManager.listOfDirectories))
      ensures !HasPath(old(directoryManager.listOfDirectories), selectedPath) && directory.Some? ==>
        && fresh(directory.value) && directory.value.path == selectedPath
        && directoryManager.listOfDirectories == old(directoryManager.listOfDirectories) + [directory.value]
        && Some(tagManager.listOfTags) == ListingRegistry(old(tagManager.listOfTags), Accepted(listing))
        && ListedAs(directory.value.files, states, Accepted(listing), old(tagManager.listOfTags), old(directoryManager.listOfDirectories))
        && forall k :: 0 <= k < |directory.value.files| ==> StateOf(directory.value.files[k]) == states[k]
      ensures directory.Some? ==> FirstWithPath(directoryManager.listOfDirectories, selectedPath) == directory
    {
      var found := directoryManager.Contains(selectedPath);
      if found {
        directory := directoryManager.GetDirectory(selectedPath);
        states := [];
      } else {
        ghost var before := directoryManager.listOfDirectories;
        directory, states := LoadDirectory(selectedPath, listing);
        if directory.Some? {
          LookupFindsRegistered(directoryManager.listOfDirectories, |before|);
        }
      }
    }

    /**
     * buildDirectory for a path not yet registered: a new Directory whose
     * files are getFiles' result, registered after them.
     */
    method LoadDirectory(selectedPath: FilePath, listing: seq<Listed>) returns (directory: Option<Directory>, ghost states: seq<Option<ImageState>>)
      requires Valid() && !HasPath(directoryManager.listOfDirectories, selectedPath)
      modifies tagManager, directoryManager
      ensures Valid()
      ensures directory.Some? <==> ListingRegistry(old(tagManager.listOfTags), Accepted(listing)).Some?
      ensures directory.None? ==> directoryManager.listOfDirectories == old(directoryManager.listOfDirectories)
      ensures directory.Some? ==>
        && fresh(directory.value) && directory.value.path == selectedPath
        && directoryManager.listOfDirectories == old(directoryManager.listOfDirectories) + [directory.value]
        && Some(tagManager.listOfTags) == ListingRegistry(old(tagManager.listOfTags), Accepted(listing))
        && ListedAs(directory.value.files, states, Accepted(listing), old(tagManager.listOfTags), old(directoryManager.listOfDirectories))
        && forall k :: 0 <= k < |directory.value.files| ==> StateOf(directory.value.files[k]) == states[k]
    {
      var d := new Directory(selectedPath);
      var files;
      files, states := GetFiles(listing);
      if files.None? {
        return None, states;
      }
      d.SetFiles(files.value);
      directoryManager.AddDirectory(d);
      return Some(d), states;
    }
  }
}
