/**
 * ImageFile: one image under tag management. Its tags are encoded in its
 * file name; every tag change goes through the rename protocol, which logs
 * the change before it knows whether the physical rename succeeded.
 */
module Images {
  import opened Tags
  import opened Logs
  import opened Lists
  import opened Paths
  import opened JavaText

  /** " @t1 @t2 ...": a space and the tag's string form for each tag, in list order. */
  function TagSuffix(tags: seq<Tag>): string {
    if tags == [] then "" else " " + tags[0].ToString() + TagSuffix(tags[1..])
  }

  /** The name generateNewName builds for a tag list. */
  function EncodedName(baseName: string, tags: seq<Tag>, extension: string): string {
    baseName + TagSuffix(tags) + extension
  }

  lemma {:induction false} TagSuffixSnoc(tags: seq<Tag>, t: Tag)
    ensures TagSuffix(tags + [t]) == TagSuffix(tags) + " " + t.ToString()
  {
    if tags == [] {
      assert tags + [t] == [t];
    } else {
      assert (tags + [t])[1..] == tags[1..] + [t];
      TagSuffixSnoc(tags[1..], t);
    }
  }

  /** The part of an ImageFile that tag operations change (the extension never changes). */
  datatype ImageState = ImageState(file: FilePath, baseName: string, tags: seq<Tag>, log: seq<Log>)

  /**
   * renameFile(updated): commit the new tags, append the log entry, then
   * rename in the same directory; only a successful rename moves the file.
   */
  function Renamed(s: ImageState, extension: string, updated: seq<Tag>, renameSucceeds: bool): ImageState {
    var newName := EncodedName(s.baseName, updated, extension);
    ImageState(
      if renameSucceeds then FilePath(s.file.parent, newName) else s.file,
      s.baseName,
      updated,
      s.log + [Log(s.file.name, newName, s.tags, updated)])
  }

  /** The physical name is the encoding of the current tags. */
  predicate Consistent(s: ImageState, extension: string) {
    s.file.name == EncodedName(s.baseName, s.tags, extension)
  }

  /**
   * One step of addTag's first loop: an incoming tag is skipped only when
   * every tag kept so far has its name.
   */
  function KeepStep(kept: seq<Tag>, x: Tag): seq<Tag> {
    if kept == [] then [x]
    else if forall k :: 0 <= k < |kept| ==> kept[k].name == x.name then kept
    else kept + [x]
  }

  /** nonRepeatingInputs after addTag's first loop. */
  function NonRepeating(xs: seq<Tag>): seq<Tag> {
    if xs == [] then [] else KeepStep(NonRepeating(xs[..|xs| - 1]), xs[|xs| - 1])
  }

  /** End of the leading run of tags equal to the first one. */
  function LeadRunEnd(xs: seq<Tag>): (e: nat)
    requires xs != []
    ensures 1 <= e <= |xs|
    ensures forall k :: 0 <= k < e ==> xs[k] == xs[0]
    ensures e < |xs| ==> xs[e] != xs[0]
  {
    if |xs| == 1 || xs[1] != xs[0] then 1 else LeadRunEnd(xs[1..]) + 1
  }

  /** The tags addTag appends: the non-repeating inputs not already on the image. */
  function TagsToAppend(current: seq<Tag>, additional: seq<Tag>): seq<Tag> {
    FilterOut(NonRepeating(additional), current)
  }

  /** addTag: renames with the appended tags, or does nothing when none is new. */
  function AfterAddTag(s: ImageState, extension: string, additional: seq<Tag>, renameSucceeds: bool): ImageState {
    var appended := TagsToAppend(s.tags, additional);
    if appended == [] then s else Renamed(s, extension, s.tags + appended, renameSucceeds)
  }

  /** deleteTag: always renames, to the current tags without the deleted ones. */
  function AfterDeleteTag(s: ImageState, extension: string, deleted: seq<Tag>, renameSucceeds: bool): ImageState {
    Renamed(s, extension, FilterOut(s.tags, deleted), renameSucceeds)
  }

  /** revert: renames to the entry's old tags unless they already are the current list. */
  function AfterRevert(s: ImageState, extension: string, entry: Log, renameSucceeds: bool): ImageState {
    if entry.oldTags == s.tags then s else Renamed(s, extension, entry.oldTags, renameSucceeds)
  }

  // ---------------------------------------------------------------------------
  // Properties of the rename protocol and the tag operations

  /**
   * Every rename appends exactly one entry recording the physical name before
   * the call, the generated name and both tag lists; the tags are committed
   * whatever happens, and the file is renamed only on success.
   */
  lemma RenameLogsIntent(s: ImageState, extension: string, updated: seq<Tag>, renameSucceeds: bool)
    ensures var r := Renamed(s, extension, updated, renameSucceeds);
      && |r.log| == |s.log| + 1 && r.log[..|s.log|] == s.log
      && r.log[|s.log|] == Log(s.file.name, EncodedName(s.baseName, updated, extension), s.tags, updated)
      && r.log[|s.log|].ToString() == s.file.name
      && r.tags == updated && r.baseName == s.baseName
      && (renameSucceeds ==> Consistent(r, extension)) && (!renameSucceeds ==> r.file == s.file)
  {
  }

  /** A failed rename leaves the physical name behind the committed tags. */
  lemma FailedRenameDiverges(s: ImageState, extension: string, updated: seq<Tag>)
    requires s.file.name != EncodedName(s.baseName, updated, extension)
    ensures !Consistent(Renamed(s, extension, updated, false), extension)
    ensures Renamed(s, extension, updated, false).tags == updated
  {
  }

  /**
   * addTag's first loop collapses the leading run of equal tags to one and
   * keeps everything after it, repeats and all.
   */
  lemma {:induction false} NonRepeatingShape(xs: seq<Tag>)
    ensures NonRepeating(xs) == if xs == [] then [] else [xs[0]] + xs[LeadRunEnd(xs)..]
    decreases |xs|
  {
    if xs != [] {
      var ys, x := xs[..|xs| - 1], xs[|xs| - 1];
      assert xs == ys + [x];
      NonRepeatingShape(ys);
      if ys == [] {
        assert NonRepeating(xs) == [x];
      } else if LeadRunEnd(ys) == |ys| {
        ShapeSnocInRun(ys, x);
      } else {
        ShapeSnocAfterRun(ys, x);
      }
    }
  }

  /** The shape after one more tag, while the input so far is a single run. */
  lemma ShapeSnocInRun(ys: seq<Tag>, x: Tag)
    requires ys != [] && LeadRunEnd(ys) == |ys|
    requires NonRepeating(ys) == [ys[0]] + ys[LeadRunEnd(ys)..]
    ensures NonRepeating(ys + [x]) == [ys[0]] + (ys + [x])[LeadRunEnd(ys + [x])..]
  {
    var xs := ys + [x];
    assert xs[..|xs| - 1] == ys && xs[0] == ys[0];
    assert NonRepeating(ys) == [ys[0]];
    KeepStepSingle(ys[0], x);
    LeadRunEndSnoc(ys, x);
    if x == ys[0] {
      assert xs[|xs|..] == [];
    } else {
      assert xs[|ys|..] == [x];
    }
  }

  /** The shape after one more tag, once the leading run has ended. */
  lemma ShapeSnocAfterRun(ys: seq<Tag>, x: Tag)
    requires ys != [] && LeadRunEnd(ys) < |ys|
    requires NonRepeating(ys) == [ys[0]] + ys[LeadRunEnd(ys)..]
    ensures NonRepeating(ys + [x]) == [ys[0]] + (ys + [x])[LeadRunEnd(ys + [x])..]
  {
    var xs := ys + [x];
    var ly := LeadRunEnd(ys);
    assert xs[..|xs| - 1] == ys && xs[0] == ys[0] && xs[|xs| - 1] == x;
    var kept := [ys[0]] + ys[ly..];
    assert NonRepeating(xs) == KeepStep(kept, x);
    assert kept[1] == ys[ly] != ys[0];
    KeepStepMixed(kept, x);
    LeadRunEndSnoc(ys, x);
    assert LeadRunEnd(xs) == ly;
    DropAppend(ys, [x], ly);
    AppendAssoc([ys[0]], ys[ly..], [x]);
  }

  /** After a single kept tag, an equal tag is skipped and any other one appended. */
  lemma KeepStepSingle(a: Tag, x: Tag)
    ensures KeepStep([a], x) == if x == a then [a] else [a, x]
  {
    assert x == a <==> [a][0].name == x.name;
  }

  /** Once the kept tags differ among themselves, every tag is appended. */
  lemma KeepStepMixed(kept: seq<Tag>, x: Tag)
    requires |kept| >= 2 && kept[0] != kept[1]
    ensures KeepStep(kept, x) == kept + [x]
  {
    assert kept[0].name != x.name || kept[1].name != x.name;
  }

  lemma LeadRunEndSnoc(ys: seq<Tag>, x: Tag)
    requires ys != []
    ensures LeadRunEnd(ys) < |ys| ==> LeadRunEnd(ys + [x]) == LeadRunEnd(ys)
    ensures LeadRunEnd(ys) == |ys| ==> LeadRunEnd(ys + [x]) == if x == ys[0] then |ys| + 1 else |ys|
  {
    var xs := ys + [x];
    var e, f := LeadRunEnd(ys), LeadRunEnd(xs);
    assert forall k :: 0 <= k < |ys| ==> xs[k] == ys[k];
    LeadRunEndUnique(xs, f, if e < |ys| || x != ys[0] then e else |ys| + 1);
  }

  lemma LeadRunEndUnique(xs: seq<Tag>, e: nat, e': nat)
    requires xs != [] && e == LeadRunEnd(xs)
    requires 1 <= e' <= |xs| && (forall k :: 0 <= k < e' ==> xs[k] == xs[0]) && (e' < |xs| ==> xs[e'] != xs[0])
    ensures e == e'
  {
  }

  /** [a, a] collapses to [a], but [a, b, a] keeps both copies of a. */
  lemma NonRepeatingExamples(a: Tag, b: Tag)
    requires a != b
    ensures NonRepeating([a, a]) == [a]
    ensures NonRepeating([a, b, a]) == [a, b, a]
  {
    NonRepeatingShape([a, a]);
    NonRepeatingShape([a, b, a]);
    assert LeadRunEnd([a, b, a]) == 1;
  }

  /** Every tag of the input survives addTag's first loop. */
  lemma NonRepeatingKeepsAll(xs: seq<Tag>)
    ensures forall k :: 0 <= k < |xs| ==> xs[k] in NonRepeating(xs)
  {
    NonRepeatingShape(xs);
    forall k | 0 <= k < |xs| ensures xs[k] in NonRepeating(xs) {
      InShape(xs, k);
    }
  }

  lemma InShape(xs: seq<Tag>, k: nat)
    requires k < |xs|
    ensures xs[k] in [xs[0]] + xs[LeadRunEnd(xs)..]
  {
    var e := LeadRunEnd(xs);
    var tail := xs[e..];
    if k >= e {
      assert xs[k] == tail[k - e];
      assert xs[k] in tail;
    } else {
      assert xs[k] == xs[0];
      assert xs[k] in [xs[0]];
    }
  }

  /**
   * addTag keeps the current tags as a prefix, appends exactly the incoming
   * tags not already present (in input order), and renames and logs only
   * when there is at least one.
   */
  lemma AddTagEffect(s: ImageState, extension: string, additional: seq<Tag>, renameSucceeds: bool)
    ensures var r := AfterAddTag(s, extension, additional, renameSucceeds);
      && r.tags == s.tags + TagsToAppend(s.tags, additional)
      && (forall k :: 0 <= k < |additional| ==> additional[k] in r.tags)
      && (forall k :: |s.tags| <= k < |r.tags| ==> r.tags[k] in additional && r.tags[k] !in s.tags)
      && (TagsToAppend(s.tags, additional) == [] <==> r == s)
      && |r.log| == |s.log| + (if TagsToAppend(s.tags, additional) == [] then 0 else 1)
  {
    NonRepeatingKeepsAll(additional);
    NonRepeatingShape(additional);
    var r := AfterAddTag(s, extension, additional, renameSucceeds);
    var app := TagsToAppend(s.tags, additional);
    if app != [] {
      assert |r.log| == |s.log| + 1;
    } else {
      assert s.tags + app == s.tags;
    }
    forall k | |s.tags| <= k < |r.tags| ensures r.tags[k] in additional {
      assert r.tags[k] == app[k - |s.tags|];
      if additional != [] {
        assert NonRepeating(additional) == [additional[0]] + additional[LeadRunEnd(additional)..];
      }
    }
  }

  /** With [a, b, a] as input, an untagged image ends up tagged a, b, a. */
  lemma AddTagCanDuplicate(s: ImageState, extension: string, a: Tag, b: Tag, renameSucceeds: bool)
    requires a != b && s.tags == []
    ensures AfterAddTag(s, extension, [a, b, a], renameSucceeds).tags == [a, b, a]
    ensures !NoDuplicates(AfterAddTag(s, extension, [a, b, a], renameSucceeds).tags)
  {
    NonRepeatingExamples(a, b);
    FilterOutNone([a, b, a], []);
    assert [] + [a, b, a] == [a, b, a];
  }

  /**
   * deleteTag removes every occurrence of each deleted tag, keeps the order,
   * and always logs exactly one entry, even when nothing was removed; in
   * that case the entry's old and new tags are equal.
   */
  lemma DeleteTagEffect(s: ImageState, extension: string, deleted: seq<Tag>, renameSucceeds: bool)
    ensures var r := AfterDeleteTag(s, extension, deleted, renameSucceeds);
      && r.tags == FilterOut(s.tags, deleted)
      && |r.log| == |s.log| + 1
      && ((forall k :: 0 <= k < |s.tags| ==> s.tags[k] !in deleted) ==>
            r.tags == s.tags && r.log[|s.log|].oldTags == r.log[|s.log|].newTags)
  {
    if forall k :: 0 <= k < |s.tags| ==> s.tags[k] !in deleted {
      FilterOutNone(s.tags, deleted);
    }
  }

  /**
   * revert renames to the entry's old tags, adding one entry, iff they differ
   * from the current list as sequences; otherwise nothing changes.
   */
  lemma RevertEffect(s: ImageState, extension: string, entry: Log, renameSucceeds: bool)
    ensures var r := AfterRevert(s, extension, entry, renameSucceeds);
      && r.tags == entry.oldTags
      && (entry.oldTags == s.tags ==> r == s)
      && (entry.oldTags != s.tags ==> |r.log| == |s.log| + 1 && r.log[|s.log|].newTags == entry.oldTags)
      && (entry.oldTags != s.tags && renameSucceeds ==> Consistent(r, extension))
  {
  }

  /** The tag edits a user can make on one image. */
  datatype Edit = AddTags(additional: seq<Tag>) | DeleteTags(deleted: seq<Tag>) | RevertTo(entry: Log)

  function ApplyEdit(s: ImageState, extension: string, e: Edit, renameSucceeds: bool): ImageState {
    match e
    case AddTags(ts) => AfterAddTag(s, extension, ts, renameSucceeds)
    case DeleteTags(ts) => AfterDeleteTag(s, extension, ts, renameSucceeds)
    case RevertTo(entry) => AfterRevert(s, extension, entry, renameSucceeds)
  }

  /** A sequence of edits whose physical renames all succeed. */
  function ApplyAll(s: ImageState, extension: string, edits: seq<Edit>): ImageState
    decreases |edits|
  {
    if edits == [] then s else ApplyAll(ApplyEdit(s, extension, edits[0], true), extension, edits[1..])
  }

  /**
   * As long as every physical rename succeeds, the file name stays the
   * encoding of the current tags, and the log only grows.
   */
  lemma {:induction false} SuccessfulEditsKeepConsistent(s: ImageState, extension: string, edits: seq<Edit>)
    requires Consistent(s, extension)
    ensures Consistent(ApplyAll(s, extension, edits), extension)
    ensures |ApplyAll(s, extension, edits).log| >= |s.log|
    ensures ApplyAll(s, extension, edits).log[..|s.log|] == s.log
    ensures ApplyAll(s, extension, edits).baseName == s.baseName
    decreases |edits|
  {
    if edits != [] {
      var t := ApplyEdit(s, extension, edits[0], true);
      assert Consistent(t, extension) && t.log[..|s.log|] == s.log && t.baseName == s.baseName;
      SuccessfulEditsKeepConsistent(t, extension, edits[1..]);
      var u := ApplyAll(t, extension, edits[1..]);
      assert u.log[..|s.log|] == u.log[..|t.log|][..|s.log|] == t.log[..|s.log|];
    }
  }

  /** "vacation.jpg" with tags beach and sunset added becomes "vacation @beach @sunset.jpg", with one entry. */
  lemma VacationExample(parent: string)
    ensures var s := ImageState(FilePath(parent, "vacation.jpg"), "vacation", [], []);
      var r := AfterAddTag(s, ".jpg", [Tag("beach"), Tag("sunset")], true);
      && r.file.name == "vacation @beach @sunset.jpg"
      && r.log == [Log("vacation.jpg", "vacation @beach @sunset.jpg", [], [Tag("beach"), Tag("sunset")])]
  {
    var s := ImageState(FilePath(parent, "vacation.jpg"), "vacation", [], []);
    var added := [Tag("beach"), Tag("sunset")];
    VacationAppends();
    VacationName();
    assert s.tags + added == added;
    assert AfterAddTag(s, ".jpg", added, true) == Renamed(s, ".jpg", added, true);
  }

  lemma VacationAppends()
    ensures TagsToAppend([], [Tag("beach"), Tag("sunset")]) == [Tag("beach"), Tag("sunset")]
  {
    var beach, sunset := Tag("beach"), Tag("sunset");
    NonRepeatingShape([beach, sunset]);
    assert LeadRunEnd([beach, sunset]) == 1;
    assert [beach, sunset][1..] == [sunset];
    FilterOutNone([beach, sunset], []);
  }

  lemma VacationName()
    ensures EncodedName("vacation", [Tag("beach"), Tag("sunset")], ".jpg") == "vacation @beach @sunset.jpg"
  {
    var beach, sunset := Tag("beach"), Tag("sunset");
    assert [beach, sunset][1..] == [sunset];
    assert TagSuffix([sunset]) == " @sunset";
    assert TagSuffix([beach, sunset]) == " @beach" + " @sunset";
  }

  class ImageFile {
    /** The path given at construction: java.io.File identity, used by equals. */
    const key: FilePath
    const extension: string
    var imageFile: FilePath
    var imageLog: seq<Log>
    var currentTags: seq<Tag>
    var baseName: string

    function State(): ImageState
      reads this
    {
      ImageState(imageFile, baseName, currentTags, imageLog)
    }

    /** The name is split at its last '.': base name before it, extension from it on. */
    constructor (path: FilePath)
      requires '.' in path.name
      ensures key == path && imageFile == path
      ensures imageLog == [] && currentTags == []
      ensures baseName + extension == path.name
      ensures baseName == path.name[..LastIndexOf(path.name, '.')]
      ensures extension != [] && extension[0] == '.' && '.' !in extension[1..]
      ensures Consistent(State(), extension)
    {
      key := path;
      imageFile := path;
      imageLog := [];
      currentTags := [];
      var dot := LastIndexOf(path.name, '.');
      baseName := path.name[..dot];
      extension := path.name[dot..];
      assert path.name == path.name[..dot] + path.name[dot..];
    }

    /** toString: the current physical name. */
    function Name(): string
      reads this
    {
      imageFile.name
    }

    /** generateNewName: the StringBuilder loop. */
    method GenerateNewName(updatedTags: seq<Tag>) returns (newName: string)
      ensures newName == EncodedName(baseName, updatedTags, extension)
    {
      var sb := "";
      var i := 0;
      while i < |updatedTags|
        invariant 0 <= i <= |updatedTags|
        invariant sb == TagSuffix(updatedTags[..i])
      {
        TagSuffixSnoc(updatedTags[..i], updatedTags[i]);
        assert updatedTags[..i + 1] == updatedTags[..i] + [updatedTags[i]];
        sb := sb + " " + updatedTags[i].ToString();
        i := i + 1;
      }
      assert updatedTags[..i] == updatedTags;
      newName := baseName + sb + extension;
    }

    /** renameFile: tags and log first, then the physical rename, whose outcome is an input. */
    method RenameFile(updatedTags: seq<Tag>, renameSucceeds: bool)
      modifies this
      ensures State() == Renamed(old(State()), extension, updatedTags, renameSucceeds)
    {
      var oldTags := currentTags;
      currentTags := updatedTags;
      var newName := GenerateNewName(updatedTags);
      var newLog := Log(imageFile.name, newName, oldTags, currentTags);
      imageLog := imageLog + [newLog];
      var dest := FilePath(imageFile.parent, newName);
      if renameSucceeds {
        imageFile := dest;
      }
    }

    /** addTag: the two loops of the source, then removeAll and the rename. */
    method AddTag(additionalTags: seq<Tag>, renameSucceeds: bool)
      modifies this
      ensures State() == AfterAddTag(old(State()), extension, additionalTags, renameSucceeds)
    {
      var nonRepeatingInputs: seq<Tag> := [];
      var i := 0;
      while i < |additionalTags|
        invariant 0 <= i <= |additionalTags|
        invariant nonRepeatingInputs == NonRepeating(additionalTags[..i])
      {
        var x := additionalTags[i];
        var repeated := true;
        if |nonRepeatingInputs| != 0 {
          var j := 0;
          while j < |nonRepeatingInputs|
            invariant 0 <= j <= |nonRepeatingInputs|
            invariant repeated <==> forall k :: 0 <= k < j ==> nonRepeatingInputs[k].name == x.name
          {
            if x.name != nonRepeatingInputs[j].name {
              repeated := false;
            }
            j := j + 1;
          }
        } else {
          nonRepeatingInputs := nonRepeatingInputs + [x];
        }
        if !repeated {
          nonRepeatingInputs := nonRepeatingInputs + [x];
        }
        assert additionalTags[..i + 1] == additionalTags[..i] + [x];
        i := i + 1;
      }
      assert additionalTags[..i] == additionalTags;
      var repeats: seq<Tag> := [];
      var k := 0;
      while k < |nonRepeatingInputs|
        invariant 0 <= k <= |nonRepeatingInputs|
        invariant forall t :: t in repeats ==> t in currentTags
        invariant forall m :: 0 <= m < k && nonRepeatingInputs[m] in currentTags ==> nonRepeatingInputs[m] in repeats
      {
        if nonRepeatingInputs[k] in currentTags {
          repeats := repeats + [nonRepeatingInputs[k]];
        }
        k := k + 1;
      }
      FilterOutAgree(nonRepeatingInputs, repeats, currentTags);
      nonRepeatingInputs := FilterOut(nonRepeatingInputs, repeats);
      if |nonRepeatingInputs| != 0 {
        var newTags := currentTags + nonRepeatingInputs;
        RenameFile(newTags, renameSucceeds);
      }
    }

    /** deleteTag: removeAll on a copy of the current tags, then always a rename. */
    method DeleteTag(deletedTags: seq<Tag>, renameSucceeds: bool)
      modifies this
      ensures State() == AfterDeleteTag(old(State()), extension, deletedTags, renameSucceeds)
    {
      var newTags := FilterOut(currentTags, deletedTags);
      RenameFile(newTags, renameSucceeds);
    }

    /** revert: rename to the entry's old tags unless they equal the current list. */
    method Revert(revertLog: Log, renameSucceeds: bool)
      modifies this
      ensures State() == AfterRevert(old(State()), extension, revertLog, renameSucceeds)
    {
      if revertLog.oldTags != currentTags {
        RenameFile(revertLog.oldTags, renameSucceeds);
      }
    }

    /** setCurrentTags: replaces the tag list without renaming or logging. */
    method SetCurrentTags(tagsToAdd: seq<Tag>)
      modifies this`currentTags
      ensures currentTags == tagsToAdd
      ensures imageFile == old(imageFile) && imageLog == old(imageLog) && baseName == old(baseName)
    {
      currentTags := tagsToAdd;
    }

    method SetBaseName(newName: string)
      modifies this
      ensures baseName == newName
      ensures imageFile == old(imageFile) && imageLog == old(imageLog) && currentTags == old(currentTags)
    {
      baseName := newName;
    }

    /** setImageFile: points the image at another physical file (used by a move). */
    method SetImageFile(file: FilePath)
      modifies this
      ensures imageFile == file
      ensures baseName == old(baseName) && imageLog == old(imageLog) && currentTags == old(currentTags)
    {
      imageFile := file;
    }
  }
}
