/**
 * Tag: a value object holding a space-normalised name. Two tags are equal
 * exactly when their names are, which is the equality of the datatype.
 */
module Tags {

  datatype Tag = Tag(name: string) {
    /** The form a tag takes inside a file name. */
    function ToString(): (r: string)
      ensures |r| == |name| + 1 && r[0] == '@' && r[1..] == name
    {
      "@" + name
    }
  }

  /** First position at or after i that does not hold a space. */
  function RunEnd(s: string, i: nat): (j: nat)
    requires i <= |s|
    ensures i <= j <= |s|
    ensures forall k :: i <= k < j ==> s[k] == ' '
    ensures j == |s| || s[j] != ' '
    decreases |s| - i
  {
    if i == |s| || s[i] != ' ' then i else RunEnd(s, i + 1)
  }

  predicate IsLineTerminator(c: char) {
    c == '\n' || c == '\r' || c == '\U{0085}' || c == '\U{2028}' || c == '\U{2029}'
  }

  /**
   * Where java.util.regex's `$` matches when MULTILINE is off: at the end of
   * the input, and also just before a line terminator that ends the input.
   */
  predicate JavaDollarAt(s: string, j: nat)
    requires j <= |s|
  {
    || j == |s|
    || (j == |s| - 1 && IsLineTerminator(s[j]) && !(s[j] == '\n' && j > 0 && s[j - 1] == '\r'))
    || (j == |s| - 2 && s[j] == '\r' && s[j + 1] == '\n')
  }

  /**
   * The replacement `replaceAll("^ +| +$|( )+", "$1")` from position i on.
   * A run of spaces at the very start, or one that `$` matches after, is
   * deleted (group 1 did not take part, so "$1" is empty); any other run
   * becomes a single space. With javaDollar false, `$` is taken to match
   * only at the end of the input.
   */
  function CollapseFrom(s: string, i: nat, javaDollar: bool): string
    requires i <= |s|
    decreases |s| - i
  {
    if i == |s| then ""
    else if s[i] != ' ' then [s[i]] + CollapseFrom(s, i + 1, javaDollar)
    else
      var j := RunEnd(s, i);
      if i == 0 || j == |s| || (javaDollar && JavaDollarAt(s, j)) then CollapseFrom(s, j, javaDollar)
      else " " + CollapseFrom(s, j, javaDollar)
  }

  /** The constructor's normalisation exactly as the Java regex behaves. */
  function NormalizeAsWritten(s: string): string {
    CollapseFrom(s, 0, true)
  }

  /** The normalisation the constructor evidently means: trim spaces, collapse inner runs. */
  function Normalize(s: string): string {
    CollapseFrom(s, 0, false)
  }

  /** No leading or trailing space and no two spaces in a row. */
  predicate IsNormal(n: string) {
    && (n == [] || (n[0] != ' ' && n[|n| - 1] != ' '))
    && forall k :: 0 <= k < |n| - 1 ==> !(n[k] == ' ' && n[k + 1] == ' ')
  }

  /** The characters of s other than the space character, in order. */
  function NonSpace(s: string): string {
    if s == [] then "" else (if s[0] == ' ' then "" else [s[0]]) + NonSpace(s[1..])
  }

  lemma {:induction false} NonSpaceAppend(a: string, b: string)
    ensures NonSpace(a + b) == NonSpace(a) + NonSpace(b)
  {
    if a == [] {
      assert a + b == b;
    } else {
      assert (a + b)[1..] == a[1..] + b;
      NonSpaceAppend(a[1..], b);
    }
  }

  lemma {:induction false} NonSpaceOfSpaces(s: string)
    requires forall k :: 0 <= k < |s| ==> s[k] == ' '
    ensures NonSpace(s) == ""
  {
    if s != [] {
      NonSpaceOfSpaces(s[1..]);
    }
  }

  /** The shape of what CollapseFrom produces, in either reading of `$`. */
  lemma {:induction false} CollapseShape(s: string, i: nat, javaDollar: bool)
    requires i <= |s|
    ensures var r := CollapseFrom(s, i, javaDollar);
      && (r == [] || r[|r| - 1] != ' ')
      && (forall k :: 0 <= k < |r| - 1 ==> !(r[k] == ' ' && r[k + 1] == ' '))
      && (i < |s| && s[i] != ' ' ==> r != [] && r[0] == s[i])
      && (i == 0 ==> r == [] || r[0] != ' ')
    decreases |s| - i
  {
    if i < |s| {
      if s[i] != ' ' {
        CollapseShape(s, i + 1, javaDollar);
      } else {
        CollapseShape(s, RunEnd(s, i), javaDollar);
      }
    }
  }

  /** Collapsing only ever deletes or merges spaces: every other character survives, in order. */
  lemma {:induction false} CollapseKeepsOthers(s: string, i: nat, javaDollar: bool)
    requires i <= |s|
    ensures NonSpace(CollapseFrom(s, i, javaDollar)) == NonSpace(s[i..])
    decreases |s| - i
  {
    if i < |s| {
      assert s[i..] == [s[i]] + s[i + 1..];
      NonSpaceAppend([s[i]], s[i + 1..]);
      if s[i] != ' ' {
        CollapseKeepsOthers(s, i + 1, javaDollar);
        NonSpaceAppend([s[i]], CollapseFrom(s, i + 1, javaDollar));
      } else {
        var j := RunEnd(s, i);
        CollapseKeepsOthers(s, j, javaDollar);
        assert s[i..] == s[i..j] + s[j..];
        NonSpaceAppend(s[i..j], s[j..]);
        NonSpaceOfSpaces(s[i..j]);
        NonSpaceAppend(" ", CollapseFrom(s, j, javaDollar));
      }
    }
  }

  /** A normal name is left as it is. */
  lemma {:induction false} CollapseNormal(s: string, i: nat)
    requires IsNormal(s) && i <= |s|
    ensures CollapseFrom(s, i, false) == s[i..]
    decreases |s| - i
  {
    if i < |s| {
      if s[i] != ' ' {
        CollapseNormal(s, i + 1);
      } else {
        assert 0 < i && i + 1 < |s| && s[i + 1] != ' ';
        assert RunEnd(s, i + 1) == i + 1;
        CollapseNormal(s, i + 1);
      }
      assert s[i..] == [s[i]] + s[i + 1..];
    }
  }

  /** Normalised names have no leading or trailing space and no double space. */
  lemma NormalizeIsNormal(s: string)
    ensures IsNormal(Normalize(s))
  {
    CollapseShape(s, 0, false);
  }

  /** Only the space character is touched: tabs, newlines and all other characters are kept verbatim. */
  lemma NormalizeKeepsOthers(s: string)
    ensures NonSpace(Normalize(s)) == NonSpace(s)
  {
    CollapseKeepsOthers(s, 0, false);
    assert s[0..] == s;
  }

  /** Normalisation is idempotent: a tag rebuilt from its own name is the same tag. */
  lemma NormalizeIdempotent(s: string)
    ensures Normalize(Normalize(s)) == Normalize(s)
  {
    NormalizeIsNormal(s);
    CollapseNormal(Normalize(s), 0);
  }

  /** The regex as written agrees with the intended normalisation on names without line terminators. */
  lemma {:induction false} CollapseAgrees(s: string, i: nat)
    requires i <= |s|
    requires forall k :: 0 <= k < |s| ==> !IsLineTerminator(s[k])
    ensures CollapseFrom(s, i, true) == CollapseFrom(s, i, false)
    decreases |s| - i
  {
    if i < |s| {
      if s[i] != ' ' {
        CollapseAgrees(s, i + 1);
      } else {
        CollapseAgrees(s, RunEnd(s, i));
      }
    }
  }

  lemma AsWrittenAgrees(s: string)
    requires forall k :: 0 <= k < |s| ==> !IsLineTerminator(s[k])
    ensures NormalizeAsWritten(s) == Normalize(s)
  {
    CollapseAgrees(s, 0);
  }

  /**
   * As written, normalisation is not idempotent: "a \n  " becomes "a \n",
   * whose remaining space `$` then matches before the final line terminator.
   */
  lemma AsWrittenNotIdempotent()
    ensures NormalizeAsWritten("a \n  ") == "a \n"
    ensures NormalizeAsWritten("a \n") == "a\n"
  {
    var s := "a \n  ";
    assert RunEnd(s, 4) == 5;
    assert RunEnd(s, 3) == 5;
    assert CollapseFrom(s, 3, true) == "";
    assert RunEnd(s, 1) == 2;
    assert !JavaDollarAt(s, 2);
    assert CollapseFrom(s, 2, true) == "\n";
    assert CollapseFrom(s, 1, true) == " \n";
    var t := "a \n";
    assert RunEnd(t, 1) == 2;
    assert JavaDollarAt(t, 2);
    assert CollapseFrom(t, 2, true) == "\n";
    assert CollapseFrom(t, 1, true) == "\n";
  }

  /** new Tag(raw). */
  function NewTag(raw: string): (t: Tag)
    ensures IsNormal(t.name)
    ensures NonSpace(t.name) == NonSpace(raw)
  {
    NormalizeIsNormal(raw);
    NormalizeKeepsOthers(raw);
    Tag(Normalize(raw))
  }

  /** Every character of the replacement is a space or a character of the input. */
  lemma {:induction false} CollapseFromChars(s: string, i: nat, javaDollar: bool)
    requires i <= |s|
    ensures forall c :: c in CollapseFrom(s, i, javaDollar) ==> c == ' ' || c in s[i..]
    decreases |s| - i
  {
    if i < |s| {
      assert s[i..] == [s[i]] + s[i + 1..];
      if s[i] != ' ' {
        CollapseFromChars(s, i + 1, javaDollar);
      } else {
        var j := RunEnd(s, i);
        CollapseFromChars(s, j, javaDollar);
        assert s[i..] == s[i..j] + s[j..];
      }
    }
  }

  /**
   * Rebuilding a tag from its name gives an equal tag; for names without a
   * line terminator this holds of the regex as written too, since there the
   * two readings agree.
   */
  lemma RebuildIsEqual(raw: string)
    ensures NewTag(NewTag(raw).name) == NewTag(raw)
    ensures (forall k :: 0 <= k < |raw| ==> !IsLineTerminator(raw[k])) ==>
      NormalizeAsWritten(NormalizeAsWritten(raw)) == NormalizeAsWritten(raw)
  {
    NormalizeIdempotent(raw);
    if forall k :: 0 <= k < |raw| ==> !IsLineTerminator(raw[k]) {
      AsWrittenAgrees(raw);
      var n := Normalize(raw);
      CollapseFromChars(raw, 0, false);
      assert raw[0..] == raw;
      forall k | 0 <= k < |n| ensures !IsLineTerminator(n[k]) {
        assert n[k] in n;
      }
      AsWrittenAgrees(n);
    }
  }

  /** The string form identifies the tag: two tags print alike iff they are equal. */
  lemma ToStringInjective(t: Tag, u: Tag)
    ensures t.ToString() == u.ToString() <==> t == u
  {
    if t.ToString() == u.ToString() {
      assert t.name == t.ToString()[1..] == u.ToString()[1..] == u.name;
    }
  }

  /** Every character of sp is a space. */
  predicate AllSpaces(sp: string) {
    forall k :: 0 <= k < |sp| ==> sp[k] == ' '
  }

  /** Inside a prefix that ends with a non-space, a run of spaces ends within the prefix. */
  lemma RunEndPrefix(a: string, r: string, i: nat)
    requires i < |a| && a[|a| - 1] != ' '
    ensures RunEnd(a + r, i) == RunEnd(a, i) < |a|
    decreases |a| - i
  {
    if a[i] == ' ' {
      RunEndPrefix(a, r, i + 1);
    }
  }

  /** Collapsing a + r: the part for a is collapsed on its own when a ends with a non-space. */
  lemma {:induction false} CollapsePrefix(a: string, r: string, i: nat)
    requires a != [] && a[|a| - 1] != ' ' && i <= |a|
    ensures CollapseFrom(a + r, i, false) == CollapseFrom(a, i, false) + CollapseFrom(a + r, |a|, false)
    decreases |a| - i
  {
    if i < |a| {
      var s := a + r;
      assert s[i] == a[i];
      if a[i] != ' ' {
        CollapsePrefix(a, r, i + 1);
      } else {
        RunEndPrefix(a, r, i);
        CollapsePrefix(a, r, RunEnd(a, i));
      }
    }
  }

  /** A run of spaces in a suffix ends where it ends in the suffix alone. */
  lemma RunEndSuffix(c: string, b: string, p: nat)
    requires p <= |b|
    ensures RunEnd(c + b, |c| + p) == |c| + RunEnd(b, p)
    decreases |b| - p
  {
    if p < |b| {
      assert (c + b)[|c| + p] == b[p];
      if b[p] == ' ' {
        RunEndSuffix(c, b, p + 1);
      }
    }
  }

  /** Collapsing c + b from inside b is collapsing b alone, once b's start is not a deleted leading run. */
  lemma {:induction false} CollapseSuffix(c: string, b: string, p: nat)
    requires p <= |b| && (p > 0 || b == [] || b[0] != ' ')
    ensures CollapseFrom(c + b, |c| + p, false) == CollapseFrom(b, p, false)
    decreases |b| - p
  {
    if p < |b| {
      assert (c + b)[|c| + p] == b[p];
      if b[p] != ' ' {
        CollapseSuffix(c, b, p + 1);
      } else {
        RunEndSuffix(c, b, p);
        CollapseSuffix(c, b, RunEnd(b, p));
      }
    }
  }

  /** A run of spaces between two non-space characters becomes exactly one space. */
  lemma InnerRunCollapses(a: string, sp: string, b: string)
    requires a != [] && a[|a| - 1] != ' '
    requires sp != [] && AllSpaces(sp)
    requires b != [] && b[0] != ' '
    ensures Normalize(a + sp + b) == Normalize(a) + " " + Normalize(b)
  {
    var s := a + sp + b;
    assert s == a + (sp + b);
    CollapsePrefix(a, sp + b, 0);
    RunEndSuffix(a, sp + b, 0);
    RunEndSpaces(sp, b);
    assert s[|a|] == ' ';
    CollapseSuffix(a + sp, b, 0);
  }

  /** A run of spaces in front of a non-space character is deleted. */
  lemma LeadingRunDropped(sp: string, b: string)
    requires AllSpaces(sp)
    requires b == [] || b[0] != ' '
    ensures Normalize(sp + b) == Normalize(b)
  {
    if sp == [] {
      assert sp + b == b;
    } else {
      RunEndSpaces(sp, b);
      assert (sp + b)[0] == ' ';
      CollapseSuffix(sp, b, 0);
    }
  }

  /** A run of spaces after a final non-space character is deleted. */
  lemma TrailingRunDropped(a: string, sp: string)
    requires a != [] && a[|a| - 1] != ' '
    requires AllSpaces(sp)
    ensures Normalize(a + sp) == Normalize(a)
  {
    CollapsePrefix(a, sp, 0);
    if sp != [] {
      RunEndSuffix(a, sp, 0);
      RunEndSpaces(sp, []);
      assert sp + [] == sp;
      assert (a + sp)[|a|] == ' ';
    }
  }

  /** A run of spaces followed by b (which does not start with a space) ends where b starts. */
  lemma {:induction false} RunEndSpaces(sp: string, b: string)
    requires AllSpaces(sp) && (b == [] || b[0] != ' ')
    ensures RunEnd(sp + b, 0) == |sp|
  {
    var s := sp + b;
    forall k | 0 <= k < |sp| ensures s[k] == ' ' {
      assert s[k] == sp[k];
    }
    assert |sp| < |s| ==> s[|sp|] == b[0];
    RunEndUnique(s, 0, |sp|);
  }

  lemma RunEndUnique(s: string, i: nat, j: nat)
    requires i <= j <= |s|
    requires forall k :: i <= k < j ==> s[k] == ' '
    requires j == |s| || s[j] != ' '
    ensures RunEnd(s, i) == j
    decreases |s| - i
  {
    if i < j {
      RunEndUnique(s, i + 1, j);
    }
  }

  /**
   * Tags are equal up to the length of their space runs: a tag built from a
   * name whose inner run is lengthened, or that gains a leading or trailing
   * run, is the same tag; but a run is never deleted between two words.
   */
  lemma SpaceRunsIrrelevant(a: string, sp1: string, sp2: string, b: string)
    requires a != [] && a[|a| - 1] != ' ' && b != [] && b[0] != ' '
    requires sp1 != [] && AllSpaces(sp1) && sp2 != [] && AllSpaces(sp2)
    ensures NewTag(a + sp1 + b) == NewTag(a + sp2 + b)
    ensures NewTag(sp1 + b) == NewTag(b) && NewTag(a + sp1) == NewTag(a)
    ensures NewTag("a b") != NewTag("ab")
  {
    InnerRunCollapses(a, sp1, b);
    InnerRunCollapses(a, sp2, b);
    LeadingRunDropped(sp1, b);
    TrailingRunDropped(a, sp1);
    InnerRunCollapses("a", " ", "b");
    assert Normalize("a") == "a" by { CollapseNormal("a", 0); }
    assert Normalize("b") == "b" by { CollapseNormal("b", 0); }
    assert |Normalize("ab")| == 2 by { CollapseNormal("ab", 0); }
  }
}
