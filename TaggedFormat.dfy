/**
 * regex_format, the pattern that decides which file names getFiles reads
 * tags back from, and how it relates to the names generateNewName writes.
 */
module TaggedFormat {
  import opened JavaText
  import opened Tags
  import opened TagRegistry
  import opened Images
  import opened FileFilter

  /** Java's \s: space, tab, newline, vertical tab, form feed and carriage return. */
  predicate IsRegexSpace(c: char) {
    c == ' ' || c == '\t' || c == '\n' || c == '\U{000B}' || c == '\U{000C}' || c == '\r'
  }

  /**
   * The last tag group of regex_format starting at k: whitespace, '@', then
   * characters outside [.\\/:*?"<>|], then one non-whitespace character at the
   * very end; at least one character comes before it.
   */
  predicate TagGroupAt(p: string, k: int) {
    && 1 <= k && k + 3 <= |p|
    && IsRegexSpace(p[k]) && p[k + 1] == '@' && !IsRegexSpace(p[|p| - 1])
    && forall m :: k + 2 <= m < |p| - 1 ==> InFirstClass(p[m])
  }

  /**
   * The part of regex_format before the extension. Its leading class
   * [\W\D\w\d\s]+ matches any non-empty text, so a match with several tag
   * groups is a match whose last group alone follows that text.
   */
  predicate TaggedStem(p: string) {
    exists k :: 0 <= k < |p| && TagGroupAt(p, k)
  }

  predicate TaggedWith(n: string, ext: string) {
    |n| >= |ext| + 1 && n[|n| - |ext| - 1..] == "." + ext && TaggedStem(n[..|n| - |ext| - 1])
  }

  /** n.matches(regex_format). */
  predicate MatchesTaggedFormat(n: string) {
    TaggedWith(n, "jpg") || TaggedWith(n, "png") || TaggedWith(n, "gif") || TaggedWith(n, "jpeg")
  }

  lemma LowerAppend(a: string, b: string)
    ensures LowerAscii(a + b) == LowerAscii(a) + LowerAscii(b)
  {
    var l, r := LowerAscii(a + b), LowerAscii(a) + LowerAscii(b);
    forall k | 0 <= k < |l| ensures l[k] == r[k] {
      if k < |a| {
        assert (a + b)[k] == a[k];
      } else {
        assert (a + b)[k] == b[k - |a|];
      }
    }
  }

  /** Lower-casing keeps the characters the tag group tests for. */
  lemma LowerKeepsClasses(c: char)
    ensures InFirstClass(c) ==> InFirstClass(LowerChar(c))
    ensures !IsRegexSpace(c) ==> !IsRegexSpace(LowerChar(c))
  {
  }

  /**
   * A tag name that can be read back from a file name: valid, normalised,
   * with no character trim() strips at either end, and no line terminator
   * (where the constructor's regex as written would treat a space run
   * before it differently).
   */
  predicate Reloadable(n: string) {
    && IsValidName(n) && IsNormal(n) && !IsTrimmable(n[0]) && !IsTrimmable(n[|n| - 1])
    && forall k :: 0 <= k < |n| ==> !IsLineTerminator(n[k])
  }

  /** trim() leaves a reloadable name as it is. */
  lemma ReloadableTrimmed(n: string)
    requires Reloadable(n)
    ensures Trim(n) == n
  {
    TrimFixed(n);
  }

  /** What the last tag group accepts after "@": first-class characters, then one that is not whitespace. */
  predicate GroupBody(m: string) {
    m != [] && !IsRegexSpace(m[|m| - 1]) && forall j :: 0 <= j < |m| - 1 ==> InFirstClass(m[j])
  }

  /** Any non-empty text followed by " @" and a group body ends with a tag group. */
  lemma GroupAfter(q: string, m: string)
    requires q != [] && GroupBody(m)
    ensures TagGroupAt(q + " @" + m, |q|)
  {
    var p := q + " @" + m;
    assert p[|q|] == ' ' && p[|q| + 1] == '@';
    assert p[|p| - 1] == m[|m| - 1];
    forall i | |q| + 2 <= i < |p| - 1 ensures InFirstClass(p[i]) {
      assert p[i] == m[i - |q| - 2];
    }
  }

  /** A reloadable tag name with no '.' before its last character is a group body. */
  lemma ReloadableGroupBody(n: string)
    requires Reloadable(n) && '.' !in n[..|n| - 1]
    ensures GroupBody(n)
  {
    PatternFirstClass(n);
  }

  lemma PatternFirstClass(n: string)
    requires n != [] && MatchesNamePattern(n) && '.' !in n[..|n| - 1]
    ensures forall j :: 0 <= j < |n| - 1 ==> InFirstClass(n[j])
  {
    PatternMeaning(n);
    forall j | 0 <= j < |n| - 1 ensures InFirstClass(n[j]) {
      assert n[j] in n[..|n| - 1];
    }
  }

  lemma LowerGroupBody(m: string)
    requires GroupBody(m)
    ensures GroupBody(LowerAscii(m))
  {
    var l := LowerAscii(m);
    LowerKeepsClasses(m[|m| - 1]);
    forall j | 0 <= j < |l| - 1 ensures InFirstClass(l[j]) {
      LowerKeepsClasses(m[j]);
    }
  }

  /**
   * The stem generateNewName builds ends with a tag group when the base name
   * is not empty and the last tag's name is a group body.
   */
  lemma GeneratedStemTagged(b: string, tags: seq<Tag>)
    requires b != [] && tags != [] && GroupBody(tags[|tags| - 1].name)
    ensures TaggedStem(LowerAscii(b + TagSuffix(tags)))
  {
    var init := tags[..|tags| - 1];
    assert tags == init + [tags[|tags| - 1]];
    StemSnoc(b, init, tags[|tags| - 1]);
    GroupGlued(b + TagSuffix(init), tags[|tags| - 1].name);
  }

  /** Lower-casing text, " @" and a group body leaves a tag group at the join. */
  lemma GroupGlued(q: string, n: string)
    requires q != [] && GroupBody(n)
    ensures TaggedStem(LowerAscii(q + " @" + n))
  {
    LowerGlue(q, n);
    LowerGroupBody(n);
    GroupAfter(LowerAscii(q), LowerAscii(n));
    assert TagGroupAt(LowerAscii(q + " @" + n), |q|);
  }

  /** With one more tag, the stem gains " @" and that tag's name. */
  lemma StemSnoc(b: string, init: seq<Tag>, t: Tag)
    ensures b + TagSuffix(init + [t]) == b + TagSuffix(init) + " @" + t.name
  {
    TagSuffixSnoc(init, t);
  }

  lemma LowerGlue(q: string, n: string)
    ensures LowerAscii(q + " @" + n) == LowerAscii(q) + " @" + LowerAscii(n)
  {
    LowerAppend(q + " @", n);
    LowerAppend(q, " @");
    assert LowerAscii(" @") == " @";
  }

  /** A tagged stem, a '.' and an extension word: the shape regex_format asks for. */
  lemma TaggedWithDot(p: string, x: string)
    requires TaggedStem(p)
    ensures TaggedWith(p + "." + x, x)
  {
    var n := p + "." + x;
    assert n[..|p|] == p;
    assert n[|p|..] == "." + x;
  }

  /** A tagged stem followed by one of the four lower-case extensions matches regex_format. */
  lemma MatchesWithExtension(p: string, e: string)
    requires TaggedStem(p) && e in ImageExtensions
    ensures MatchesTaggedFormat(p + e)
  {
    if e == ".jpg" {
      TaggedWithDot(p, "jpg");
      assert p + "." + "jpg" == p + e;
    } else if e == ".jpeg" {
      TaggedWithDot(p, "jpeg");
      assert p + "." + "jpeg" == p + e;
    } else if e == ".png" {
      TaggedWithDot(p, "png");
      assert p + "." + "png" == p + e;
    } else {
      TaggedWithDot(p, "gif");
      assert p + "." + "gif" == p + e;
    }
  }

  /**
   * The file name generateNewName gives an image whose base name is not empty,
   * whose extension is one of the four in any case, and whose last tag is
   * reloadable without a '.' before its last character, matches regex_format
   * once lower-cased.
   */
  lemma GeneratedNameMatches(b: string, tags: seq<Tag>, ext: string)
    requires b != [] && tags != []
    requires Reloadable(tags[|tags| - 1].name)
    requires '.' !in tags[|tags| - 1].name[..|tags[|tags| - 1].name| - 1]
    requires LowerAscii(ext) in ImageExtensions
    ensures MatchesTaggedFormat(LowerAscii(EncodedName(b, tags, ext)))
  {
    var stem := b + TagSuffix(tags);
    ReloadableGroupBody(tags[|tags| - 1].name);
    GeneratedStemTagged(b, tags);
    LowerAppend(stem, ext);
    MatchesWithExtension(LowerAscii(stem), LowerAscii(ext));
  }

  /**
   * TagManager accepts "v1.2" as a tag name, but an image tagged with it last
   * is not recognised by regex_format, so a reload leaves it untagged.
   */
  lemma DottedTagNotReloaded()
    ensures IsValidName("v1.2") && Reloadable("v1.2")
    ensures EncodedName("x", [Tag("v1.2")], ".jpg") == "x @v1.2.jpg"
    ensures !MatchesTaggedFormat(LowerAscii("x @v1.2.jpg"))
  {
    DottedNameReloadable();
    DottedNameEncoded();
    assert LowerAscii("x @v1.2.jpg") == "x @v1.2.jpg";
    DottedNameNotTagged();
  }

  lemma DottedNameEncoded()
    ensures EncodedName("x", [Tag("v1.2")], ".jpg") == "x @v1.2.jpg"
  {
    assert TagSuffix([Tag("v1.2")]) == " @v1.2";
  }

  lemma DottedNameReloadable()
    ensures IsValidName("v1.2") && Reloadable("v1.2")
  {
    var n := "v1.2";
    assert forall k :: 0 <= k < |n| ==> !IsReserved(n[k]);
    assert forall k :: 1 <= k < |n| ==> n[k] != '@';
    PatternMeaning(n);
  }

  lemma DottedNameNotTagged()
    ensures !MatchesTaggedFormat("x @v1.2.jpg")
  {
    var l := "x @v1.2.jpg";
    var p := l[..7];
    assert p == "x @v1.2";
    assert p[2] == '@' && p[3] == 'v' && p[4] == '1' && p[5] == '.';
    forall k | 0 <= k < |p| ensures !TagGroupAt(p, k) {
      if k == 1 {
        assert !InFirstClass(p[5]);
      }
    }
    assert l[|l| - 4..] == ".jpg";
    assert l[|l| - 5..][0] == '2';
  }
}
