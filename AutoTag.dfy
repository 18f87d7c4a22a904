/**
 * autoTag: reading a base name and tags back out of an image's file name,
 * registering each tag with the TagManager on the way.
 */
module AutoTagging {
  import opened Options
  import opened JavaText
  import opened Tags
  import opened TagRegistry
  import opened Lists
  import opened Images
  import opened FileFilter
  import opened TaggedFormat

  /** The names of the tags, in order. */
  function Names(tags: seq<Tag>): (ns: seq<string>)
    ensures |ns| == |tags| && forall k :: 0 <= k < |tags| ==> ns[k] == tags[k].name
  {
    if tags == [] then [] else [tags[0].name] + Names(tags[1..])
  }

  /** The registry after autoTag's loop, and the tags it collected for the image. */
  datatype Harvest = Harvest(registry: seq<Tag>, attached: seq<Tag>)

  /**
   * For each extracted piece, in order: new Tag(piece.trim()) is offered to
   * the registry, and collected when the registry holds an equal tag
   * afterwards (whether added now or listed before).
   */
  function RegisterAll(registry: seq<Tag>, pieces: seq<string>): Harvest
    decreases |pieces|
  {
    if pieces == [] then Harvest(registry, [])
    else Offer(RegisterAll(registry, pieces[..|pieces| - 1]), pieces[|pieces| - 1])
  }

  /** One iteration of autoTag's loop on a piece. */
  function Offer(h: Harvest, piece: string): Harvest {
    var t := NewTag(Trim(piece));
    var r := Registered(h.registry, t);
    Harvest(r, if t in r then h.attached + [t] else h.attached)
  }

  /** What autoTag leaves behind: the registry, the image's base name and its tags. */
  datatype AutoTagged = AutoTagged(registry: seq<Tag>, baseName: string, tags: seq<Tag>)

  /**
   * autoTag on an image whose physical name is name and whose tags are tags.
   * None stands for the exceptions the source lets escape: no '.' in the name
   * (substring(0, -1)), or a split with no element at all (extractedTags[0]).
   * The image's tags are replaced only when at least one piece follows the
   * base name.
   */
  function AutoTagOutcome(registry: seq<Tag>, name: string, tags: seq<Tag>): Option<AutoTagged> {
    var dot := LastIndexOf(name, '.');
    if dot < 0 then None
    else
      var pieces := SplitOnMarker(name[..dot]);
      if pieces == [] then None
      else
        var h := RegisterAll(registry, pieces[1..]);
        Some(AutoTagged(h.registry, Trim(pieces[0]), if |pieces| == 1 then tags else h.attached))
  }

  /** The registry invariant kept by TagManager. */
  predicate ValidRegistry(tags: seq<Tag>) {
    NoDuplicates(tags) && forall k :: 0 <= k < |tags| ==> IsValidName(tags[k].name)
  }

  /** One addTag keeps the registry valid, appends at most the tag, and leaves it listed iff its name is valid or it was listed. */
  lemma RegisteredStep(registry: seq<Tag>, t: Tag)
    requires ValidRegistry(registry)
    ensures ValidRegistry(Registered(registry, t))
    ensures |registry| <= |Registered(registry, t)| && Registered(registry, t)[..|registry|] == registry
    ensures t in Registered(registry, t) <==> t in registry || IsValidName(t.name)
  {
    RegisteredKeepsInvariant(registry, t);
    var r := Registered(registry, t);
    assert r[..|registry|] == registry;
    if CanAdd(registry, t) {
      assert forall k :: 0 <= k < |r| ==> r[k] == t || r[k] == registry[k];
    }
  }

  /**
   * autoTag's loop keeps the registry valid and only appends to it, collects
   * at most one tag per piece, and every collected tag is registered.
   */
  lemma {:induction false} RegisterAllEffect(registry: seq<Tag>, pieces: seq<string>)
    requires ValidRegistry(registry)
    ensures var h := RegisterAll(registry, pieces);
      && ValidRegistry(h.registry)
      && |registry| <= |h.registry| && h.registry[..|registry|] == registry
      && |h.attached| <= |pieces|
      && (forall k :: 0 <= k < |h.attached| ==> h.attached[k] in h.registry)
    decreases |pieces|
  {
    if pieces != [] {
      var front := pieces[..|pieces| - 1];
      RegisterAllEffect(registry, front);
      var h := RegisterAll(registry, front);
      var t := NewTag(Trim(pieces[|pieces| - 1]));
      RegisteredStep(h.registry, t);
      var r := Registered(h.registry, t);
      assert RegisterAll(registry, pieces) == Offer(h, pieces[|pieces| - 1]);
      assert r[..|registry|] == h.registry[..|registry|];
      assert forall x :: x in h.registry ==> x in r;
    }
  }

  /** One more piece: new Tag(piece.trim()) is offered to the registry, and collected if it is listed afterwards. */
  lemma RegisterAllSnoc(registry: seq<Tag>, pieces: seq<string>, p: string)
    ensures RegisterAll(registry, pieces + [p]) == Offer(RegisterAll(registry, pieces), p)
  {
    assert (pieces + [p])[..|pieces|] == pieces;
  }

  /** The harvest after the pieces 1..i+1 of a split: the one after 1..i, then piece i. */
  lemma RegisterAllStep(registry: seq<Tag>, ps: seq<string>, i: nat)
    requires 1 <= i < |ps|
    ensures RegisterAll(registry, ps[1..i + 1]) == Offer(RegisterAll(registry, ps[1..i]), ps[i])
  {
    assert ps[1..i + 1] == ps[1..i] + [ps[i]];
    RegisterAllSnoc(registry, ps[1..i], ps[i]);
  }

  /** addTag only appends, and a tag with a valid name is listed afterwards. */
  lemma RegisteredGrows(registry: seq<Tag>, t: Tag)
    ensures |registry| <= |Registered(registry, t)| && Registered(registry, t)[..|registry|] == registry
    ensures forall x :: x in registry ==> x in Registered(registry, t)
    ensures IsValidName(t.name) ==> t in Registered(registry, t)
  {
    assert (registry + [t])[..|registry|] == registry;
  }

  /** new Tag(n.trim()) on a reloadable name n is the tag named n, under the regex as written too. */
  lemma ReloadTag(n: string)
    requires Reloadable(n)
    ensures NewTag(Trim(n)) == Tag(n)
    ensures NormalizeAsWritten(Trim(n)) == n
  {
    ReloadableTrimmed(n);
    CollapseNormal(n, 0);
    assert n[0..] == n;
    AsWrittenAgrees(n);
  }

  /** Pieces that are the names of reloadable tags give back exactly those tags, each of them registered. */
  lemma {:induction false} RegisterAllOfNames(registry: seq<Tag>, tags: seq<Tag>)
    requires forall k :: 0 <= k < |tags| ==> Reloadable(tags[k].name)
    ensures var h := RegisterAll(registry, Names(tags));
      && h.attached == tags
      && (forall k :: 0 <= k < |tags| ==> tags[k] in h.registry)
      && |registry| <= |h.registry| && h.registry[..|registry|] == registry
    decreases |tags|
  {
    if tags != [] {
      var init, t := tags[..|tags| - 1], tags[|tags| - 1];
      assert tags == init + [t];
      assert Names(tags) == Names(init) + [t.name];
      RegisterAllOfNames(registry, init);
      var h := RegisterAll(registry, Names(init));
      RegisterAllSnoc(registry, Names(init), t.name);
      ReloadTag(t.name);
      RegisteredGrows(h.registry, t);
      var r := Registered(h.registry, t);
      PrefixOfPrefix(registry, h.registry, r);
      forall k | 0 <= k < |tags| ensures tags[k] in r {
        if k < |tags| - 1 {
          assert tags[k] == init[k];
        }
      }
    }
  }

  /** Gluing a base name and tag names with " @" is the base name followed by generateNewName's suffix. */
  lemma {:induction false} JoinNames(b: string, tags: seq<Tag>)
    ensures JoinWithMarker([b] + Names(tags)) == b + TagSuffix(tags)
    decreases |tags|
  {
    if tags == [] {
      assert [b] + Names(tags) == [b];
    } else {
      JoinNames(tags[0].name, tags[1..]);
      assert Names(tags)[1..] == Names(tags[1..]);
      assert ([b] + Names(tags))[1..] == [tags[0].name] + Names(tags[1..]);
    }
  }

  /** A valid tag name contains no " @", since '@' may only come first. */
  lemma ValidNameMarkerFree(n: string)
    requires IsValidName(n)
    ensures MarkerFree(n)
  {
    PatternMeaning(n);
    forall k | 0 <= k < |n| ensures !MarkerAt(n, k) {
      if k + 1 < |n| {
        assert n[k + 1] != '@';
      }
    }
  }

  /** split(" @") of the stem generateNewName writes gives back the base name and the tag names. */
  lemma SplitGeneratedStem(b: string, tags: seq<Tag>)
    requires MarkerFree(b)
    requires forall k :: 0 <= k < |tags| ==> IsValidName(tags[k].name)
    ensures SplitOnMarker(b + TagSuffix(tags)) == [b] + Names(tags)
  {
    var ps := [b] + Names(tags);
    JoinNames(b, tags);
    StemPartsMarkerFree(b, tags);
    PiecesOfJoin(ps);
    if tags == [] {
      assert b + TagSuffix(tags) == b;
    } else {
      TaggedStemSplit(b, tags);
    }
  }

  /** generateNewName's suffix for at least one tag starts with " @". */
  lemma SuffixStartsWithMarker(tags: seq<Tag>)
    requires tags != []
    ensures |TagSuffix(tags)| >= 2 && TagSuffix(tags)[0] == ' ' && TagSuffix(tags)[1] == '@'
  {
    var t := tags[0].ToString();
    assert TagSuffix(tags) == " " + t + TagSuffix(tags[1..]);
    assert (" " + t + TagSuffix(tags[1..]))[1] == t[0];
  }

  /** The base name and the valid tag names are all free of " @". */
  lemma StemPartsMarkerFree(b: string, tags: seq<Tag>)
    requires MarkerFree(b)
    requires forall k :: 0 <= k < |tags| ==> IsValidName(tags[k].name)
    ensures forall i :: 0 <= i < |[b] + Names(tags)| ==> MarkerFree(([b] + Names(tags))[i])
  {
    var ps := [b] + Names(tags);
    forall i | 0 <= i < |ps| ensures MarkerFree(ps[i]) {
      if i > 0 {
        ValidNameMarkerFree(tags[i - 1].name);
      }
    }
  }

  /** With at least one tag the stem holds " @", and its last piece is a non-empty name, so split drops nothing. */
  lemma TaggedStemSplit(b: string, tags: seq<Tag>)
    requires tags != [] && tags[|tags| - 1].name != ""
    requires Pieces(b + TagSuffix(tags)) == [b] + Names(tags)
    ensures SplitOnMarker(b + TagSuffix(tags)) == [b] + Names(tags)
  {
    var stem := b + TagSuffix(tags);
    var ps := [b] + Names(tags);
    SuffixStartsWithMarker(tags);
    assert stem[|b|] == TagSuffix(tags)[0] && stem[|b| + 1] == TagSuffix(tags)[1];
    assert MarkerAt(stem, |b|);
    assert FirstMarker(stem).Some?;
    assert ps[|ps| - 1] == tags[|tags| - 1].name;
  }

  /** The last '.' of the name generateNewName writes is where the extension starts. */
  lemma EncodedStemDot(b: string, tags: seq<Tag>, ext: string)
    requires ext != [] && ext[0] == '.' && '.' !in ext[1..]
    ensures LastIndexOf(EncodedName(b, tags, ext), '.') == |b + TagSuffix(tags)|
    ensures EncodedName(b, tags, ext)[..|b + TagSuffix(tags)|] == b + TagSuffix(tags)
  {
    var stem := b + TagSuffix(tags);
    LastDotOfSuffix(stem, ext);
    assert EncodedName(b, tags, ext) == stem + ext;
    assert (stem + ext)[..|stem|] == stem;
  }

  /**
   * autoTag reads back what generateNewName wrote: for a base name that trim()
   * leaves alone and that holds no " @", reloadable tags and an extension
   * whose only '.' is its first character, autoTag recovers the base name and
   * the tags (keeping the old tags when there are none), and the registry
   * ends up holding every one of them, after what it held before.
   */
  lemma AutoTagRecoversName(registry: seq<Tag>, b: string, tags: seq<Tag>, ext: string, before: seq<Tag>)
    requires Trim(b) == b && MarkerFree(b)
    requires forall k :: 0 <= k < |tags| ==> Reloadable(tags[k].name)
    requires ext != [] && ext[0] == '.' && '.' !in ext[1..]
    ensures var o := AutoTagOutcome(registry, EncodedName(b, tags, ext), before);
      && o.Some?
      && o.value.baseName == b
      && o.value.tags == (if tags == [] then before else tags)
      && (forall k :: 0 <= k < |tags| ==> tags[k] in o.value.registry)
      && |registry| <= |o.value.registry| && o.value.registry[..|registry|] == registry
  {
    forall k | 0 <= k < |tags| ensures IsValidName(tags[k].name) {
      assert Reloadable(tags[k].name);
    }
    EncodedOutcome(registry, b, tags, ext, before);
    RegisterAllOfNames(registry, tags);
  }

  /** autoTag on a name generateNewName wrote registers the tag names in order after the base name. */
  lemma EncodedOutcome(registry: seq<Tag>, b: string, tags: seq<Tag>, ext: string, before: seq<Tag>)
    requires MarkerFree(b)
    requires forall k :: 0 <= k < |tags| ==> IsValidName(tags[k].name)
    requires ext != [] && ext[0] == '.' && '.' !in ext[1..]
    ensures var h := RegisterAll(registry, Names(tags));
      AutoTagOutcome(registry, EncodedName(b, tags, ext), before)
        == Some(AutoTagged(h.registry, Trim(b), if tags == [] then before else h.attached))
  {
    EncodedStemDot(b, tags, ext);
    SplitGeneratedStem(b, tags);
    var ps := [b] + Names(tags);
    assert ps[1..] == Names(tags);
  }

  /** The name " @ @ @.jpg" has no upper-case letter. */
  lemma MarkersLower()
    ensures LowerAscii(" @ @ @.jpg") == " @ @ @.jpg"
  {
  }

  /** The name " @ @ @.jpg" passes the filter: not hidden, and it ends with ".jpg". */
  lemma MarkersAccepted()
    ensures Accept(" @ @ @.jpg", false)
  {
    var n := " @ @ @.jpg";
    MarkersLower();
    assert n[..1] == " ";
    assert n[6..] == ".jpg";
  }

  /** The name " @ @ @.jpg" matches regex_format: its stem ends with the tag group " @ @". */
  lemma MarkersTagged()
    ensures MatchesTaggedFormat(LowerAscii(" @ @ @.jpg"))
  {
    var p := " @ @ @";
    assert TagGroupAt(p, 2);
    TaggedWithDot(p, "jpg");
    assert p + "." + "jpg" == " @ @ @.jpg";
    MarkersLower();
  }

  /** The separator alone splits into two empty pieces. */
  lemma MarkerPieces()
    ensures Pieces(" @") == ["", ""]
  {
    assert FirstMarker(" @") == Some(0);
    assert " @"[2..] == "" && " @"[..0] == "";
    assert FirstMarker("") == None;
  }

  /** One more leading separator adds one more empty piece. */
  lemma MarkerPiecesCons(s: string)
    requires |s| >= 2 && s[0] == ' ' && s[1] == '@'
    ensures Pieces(s) == [""] + Pieces(s[2..])
  {
    assert MarkerAt(s, 0);
    assert FirstMarker(s) == Some(0);
    assert s[..0] == "";
  }

  /** split(" @") of " @ @ @" gives four empty pieces, all dropped as trailing. */
  lemma MarkersSplitEmpty()
    ensures SplitOnMarker(" @ @ @") == []
  {
    MarkerPieces();
    MarkerPiecesCons(" @ @");
    assert " @ @"[2..] == " @";
    MarkerPiecesCons(" @ @ @");
    assert " @ @ @"[2..] == " @ @";
    assert Pieces(" @ @ @") == ["", "", "", ""];
    assert FirstMarker(" @ @ @").Some? by { MarkerPiecesCons(" @ @ @"); }
    AllEmptyDropped(["", "", "", ""]);
  }

  /** Dropping trailing empty strings from a list of empty strings leaves nothing. */
  lemma {:induction false} AllEmptyDropped(ps: seq<string>)
    requires forall k :: 0 <= k < |ps| ==> ps[k] == ""
    ensures DropTrailingEmpty(ps) == []
    decreases |ps|
  {
    if ps != [] {
      AllEmptyDropped(ps[..|ps| - 1]);
    }
  }

  /**
   * The name " @ @ @.jpg" passes the filter and regex_format, yet split(" @")
   * of its stem has no element, so autoTag throws.
   */
  lemma EmptySplitThrows(registry: seq<Tag>, tags: seq<Tag>)
    ensures Accept(" @ @ @.jpg", false)
    ensures MatchesTaggedFormat(LowerAscii(" @ @ @.jpg"))
    ensures SplitOnMarker(" @ @ @") == []
    ensures AutoTagOutcome(registry, " @ @ @.jpg", tags).None?
  {
    MarkersAccepted();
    MarkersTagged();
    MarkersSplitEmpty();
    MarkersStem();
  }

  /** The stem autoTag cuts from " @ @ @.jpg" at its last '.'. */
  lemma MarkersStem()
    ensures LastIndexOf(" @ @ @.jpg", '.') == 6 && " @ @ @.jpg"[..6] == " @ @ @"
  {
    LastDotOfSuffix(" @ @ @", ".jpg");
    assert " @ @ @.jpg" == " @ @ @" + ".jpg";
  }
}
