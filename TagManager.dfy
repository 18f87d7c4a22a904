/**
 * TagManager: the registry of tags that may be put on images, kept in
 * insertion order and free of duplicates.
 */
module TagRegistry {
  import opened Tags
  import opened Lists

  const MaxNameLength := 20

  /** The first class of the name pattern, [^.\\/:*?"<>|]. */
  predicate InFirstClass(c: char) {
    c != '.' && !IsReserved(c)
  }

  /** The second class of the name pattern, [^\\/:*?"@<>|]. */
  predicate InSecondClass(c: char) {
    c != '@' && !IsReserved(c)
  }

  /** name.matches("^[^.\\/:*?\"<>|]?[^\\/:*?\"@<>|]*"): an optional first-class character, then second-class ones. */
  predicate MatchesNamePattern(n: string) {
    || (forall k :: 0 <= k < |n| ==> InSecondClass(n[k]))
    || (|n| > 0 && InFirstClass(n[0]) && forall k :: 1 <= k < |n| ==> InSecondClass(n[k]))
  }

  /** The characters a file name may not contain. */
  predicate IsReserved(c: char) {
    c == '\\' || c == '/' || c == ':' || c == '*' || c == '?' || c == '"' || c == '<' || c == '>' || c == '|'
  }

  /** The validity rule applied by addTag to the (already normalised) name. */
  predicate IsValidName(n: string) {
    0 < |n| <= MaxNameLength && MatchesNamePattern(n)
  }

  /** addTag succeeds: a valid name not yet listed. */
  predicate CanAdd(tags: seq<Tag>, tag: Tag) {
    IsValidName(tag.name) && tag !in tags
  }

  /** The list after addTag(tag). */
  function Registered(tags: seq<Tag>, tag: Tag): seq<Tag> {
    if CanAdd(tags, tag) then tags + [tag] else tags
  }

  /** The list after removeTag(xs): remove(x) for each listed x in turn. */
  function RemoveEach(tags: seq<Tag>, xs: seq<Tag>): seq<Tag> {
    if xs == [] then tags else RemoveFirst(RemoveEach(tags, xs[..|xs| - 1]), xs[|xs| - 1])
  }

  /**
   * What the pattern allows: no reserved character anywhere, and '@' at most
   * as the first character (the '.' excluded from the first class is let in
   * by the second one, so a leading '.' is allowed).
   */
  lemma PatternMeaning(n: string)
    ensures MatchesNamePattern(n) <==>
      (forall k :: 0 <= k < |n| ==> !IsReserved(n[k])) && (forall k :: 1 <= k < |n| ==> n[k] != '@')
  {
    if (forall k :: 0 <= k < |n| ==> !IsReserved(n[k])) && (forall k :: 1 <= k < |n| ==> n[k] != '@') {
      if |n| > 0 && n[0] == '@' {
        assert InFirstClass(n[0]);
      } else {
        assert forall k :: 0 <= k < |n| ==> InSecondClass(n[k]);
      }
    }
  }

  /** A name of spaces only normalises to the empty name and is refused. */
  lemma BlankNameRefused(raw: string, tags: seq<Tag>)
    requires forall k :: 0 <= k < |raw| ==> raw[k] == ' '
    ensures NewTag(raw).name == ""
    ensures !CanAdd(tags, NewTag(raw))
  {
    NonSpaceOfSpaces(raw);
  }

  /** addTag keeps the list free of duplicates and of invalid names, and adds iff it may. */
  lemma RegisteredKeepsInvariant(tags: seq<Tag>, tag: Tag)
    requires NoDuplicates(tags)
    ensures NoDuplicates(Registered(tags, tag))
    ensures tag in Registered(tags, tag) <==> tag in tags || IsValidName(tag.name)
    ensures |Registered(tags, tag)| == |tags| + (if CanAdd(tags, tag) then 1 else 0)
  {
  }

  /** A 21-character name is refused. */
  lemma TooLongRefused()
    ensures !CanAdd([], Tag("abcdefghijklmnopqrstu"))
  {
  }

  /** A name holding a reserved character, or '@' after the first position, is refused. */
  lemma ReservedRefused()
    ensures !CanAdd([], Tag("a/b"))
    ensures !CanAdd([], Tag("a@b"))
  {
    assert !InSecondClass("a/b"[1]);
    assert !InSecondClass("a@b"[1]);
  }

  /** "@home" is accepted: the pattern lets '@' through in first position. */
  lemma LeadingAtAccepted()
    ensures CanAdd([], Tag("@home"))
  {
    assert InFirstClass("@home"[0]);
    assert forall k :: 1 <= k < 5 ==> InSecondClass("@home"[k]);
  }

  /** Adding "ok" twice: the second call fails and the list keeps one entry. */
  lemma DuplicateRefused()
    ensures CanAdd([], Tag("ok"))
    ensures Registered([], Tag("ok")) == [Tag("ok")]
    ensures !CanAdd([Tag("ok")], Tag("ok"))
  {
    assert forall k :: 0 <= k < 2 ==> InSecondClass("ok"[k]);
  }

  /**
   * On a duplicate-free list, removeTag(xs) deletes exactly the listed tags
   * that are present and keeps the rest in order; absent ones are ignored.
   */
  lemma {:induction false} RemoveEachIsFilter(tags: seq<Tag>, xs: seq<Tag>)
    requires NoDuplicates(tags)
    ensures RemoveEach(tags, xs) == FilterOut(tags, xs)
    decreases |xs|
  {
    if xs == [] {
      FilterOutNone(tags, xs);
    } else {
      var init, x := xs[..|xs| - 1], xs[|xs| - 1];
      RemoveEachIsFilter(tags, init);
      FilterOutNoDuplicates(tags, init);
      RemoveFirstUnique(FilterOut(tags, init), x);
      FilterOutTwice(tags, init, [x]);
      assert init + [x] == xs;
    }
  }

  /** No two equal tags, and every name passed the validity rule. */
  predicate WellFormed(tags: seq<Tag>) {
    && NoDuplicates(tags)
    && forall k :: 0 <= k < |tags| ==> IsValidName(tags[k].name)
  }

  /** Removing tags from a well-formed list leaves it well-formed. */
  lemma FilterOutWellFormed(tags: seq<Tag>, xs: seq<Tag>)
    requires WellFormed(tags)
    ensures WellFormed(FilterOut(tags, xs))
  {
    FilterOutNoDuplicates(tags, xs);
    var r := FilterOut(tags, xs);
    forall k | 0 <= k < |r| ensures IsValidName(r[k].name) {
      var j :| 0 <= j < |tags| && tags[j] == r[k];
    }
  }

  class TagManager {
    var listOfTags: seq<Tag>

    /** No two equal tags, and every listed name passed the validity rule. */
    ghost predicate Valid()
      reads this
    {
      WellFormed(listOfTags)
    }

    constructor ()
      ensures Valid() && listOfTags == []
    {
      listOfTags := [];
    }

    /** addTag: appends the tag iff its name is valid and it is not listed yet. */
    method AddTag(tag: Tag) returns (added: bool)
      requires Valid()
      modifies this
      ensures Valid()
      ensures added == CanAdd(old(listOfTags), tag)
      ensures listOfTags == Registered(old(listOfTags), tag)
    {
      var tagName := tag.name;
      if 0 < |tagName| && |tagName| <= MaxNameLength && MatchesNamePattern(tagName) && tag !in listOfTags {
        listOfTags := listOfTags + [tag];
        added := true;
      } else {
        added := false;
      }
    }

    /** removeTag: removes each listed tag that is present; absent ones are skipped. */
    method RemoveTag(tagsToRemove: seq<Tag>)
      requires Valid()
      modifies this
      ensures Valid()
      ensures listOfTags == RemoveEach(old(listOfTags), tagsToRemove)
      ensures listOfTags == FilterOut(old(listOfTags), tagsToRemove)
    {
      var i := 0;
      while i < |tagsToRemove|
        invariant 0 <= i <= |tagsToRemove|
        invariant listOfTags == RemoveEach(old(listOfTags), tagsToRemove[..i])
      {
        var tag := tagsToRemove[i];
        if tag in listOfTags {
          listOfTags := RemoveFirst(listOfTags, tag);
        }
        assert tagsToRemove[..i + 1][..i] == tagsToRemove[..i];
        i := i + 1;
      }
      assert tagsToRemove[..i] == tagsToRemove;
      RemoveEachIsFilter(old(listOfTags), tagsToRemove);
      FilterOutWellFormed(old(listOfTags), tagsToRemove);
    }
  }
}
