/**
 * The filename filter getFiles hands to File.listFiles: hidden names are
 * refused, directories let in, and files only with an image extension.
 */
module FileFilter {
  import opened JavaText


  const ImageExtensions: seq<string> := [".jpg", ".jpeg", ".png", ".gif"]

  /**
   * accept(dir, name): hidden names are refused, directories are let in, and
   * otherwise the lower-cased name must end with one of the four extensions.
   */
  predicate Accept(name: string, isDirectory: bool) {
    if StartsWith(name, ".") then false
    else if isDirectory then true
    else
      var lower := LowerAscii(name);
      EndsWith(lower, ".jpg") || EndsWith(lower, ".jpeg") || EndsWith(lower, ".png") || EndsWith(lower, ".gif")
  }

  /** The last '.' of s + ext is the first character of ext when ext holds no other '.'. */
  lemma LastDotOfSuffix(s: string, ext: string)
    requires ext != [] && ext[0] == '.' && '.' !in ext[1..]
    ensures LastIndexOf(s + ext, '.') == |s|
  {
    var n := s + ext;
    assert n[|s|] == '.';
    assert n[|s| + 1..] == ext[1..];
  }

  /** Lower-casing turns no character into '.' except '.' itself. */
  lemma LowerDot(c: char)
    ensures LowerChar(c) == '.' <==> c == '.'
  {
  }

  lemma LowerSuffixChars(name: string, e: string)
    requires EndsWith(LowerAscii(name), e)
    ensures |e| <= |name|
    ensures forall j :: 0 <= j < |e| ==> LowerChar(name[|name| - |e| + j]) == e[j]
  {
    var lower := LowerAscii(name);
    var d := |name| - |e|;
    forall j | 0 <= j < |e| ensures LowerChar(name[d + j]) == e[j] {
      assert lower[d..][j] == lower[d + j];
    }
  }

  lemma LastDotOfLowerSuffix(name: string, e: string)
    requires e != [] && e[0] == '.' && '.' !in e[1..]
    requires |e| <= |name|
    requires forall j :: 0 <= j < |e| ==> LowerChar(name[|name| - |e| + j]) == e[j]
    ensures LastIndexOf(name, '.') == |name| - |e|
  {
    var d := |name| - |e|;
    var head, tail := name[..d], name[d..];
    assert name == head + tail;
    forall j | 1 <= j < |tail|
      ensures tail[j] != '.'
    {
      LowerDot(tail[j]);
      assert e[j] in e[1..];
    }
    LowerDot(tail[0]);
    assert '.' !in tail[1..];
    LastDotOfSuffix(head, tail);
  }

  /** Lower-casing commutes with taking a tail. */
  lemma LowerTail(name: string, i: nat)
    requires i <= |name|
    ensures LowerAscii(name)[i..] == LowerAscii(name[i..])
  {
    assert forall j :: 0 <= j < |name| - i ==> name[i..][j] == name[i + j];
  }

  /** A name whose lower-cased form ends with a dotted extension has its last '.' where that extension starts. */
  lemma LowerSuffixDot(name: string, e: string)
    requires e != [] && e[0] == '.' && '.' !in e[1..]
    requires EndsWith(LowerAscii(name), e)
    ensures LastIndexOf(name, '.') == |name| - |e|
  {
    LowerSuffixChars(name, e);
    LastDotOfLowerSuffix(name, e);
  }

  /** The tail a lower-cased suffix comes from lower-cases to that suffix. */
  lemma LowerSuffixTail(name: string, e: string, d: nat)
    requires EndsWith(LowerAscii(name), e) && d == |name| - |e|
    ensures LowerAscii(name[d..]) == e
  {
    LowerTail(name, d);
  }

  /** Each image extension is a '.' followed by characters other than '.'. */
  lemma ExtensionsDotted(e: string)
    requires e in ImageExtensions
    ensures e != [] && e[0] == '.' && '.' !in e[1..]
  {
  }

  lemma AcceptedHasExtension(name: string)
    requires Accept(name, false)
    ensures !StartsWith(name, ".")
    ensures LastIndexOf(name, '.') > 0
    ensures LowerAscii(name[LastIndexOf(name, '.')..]) in ImageExtensions
  {
    var lower := LowerAscii(name);
    assert exists e :: e in ImageExtensions && EndsWith(lower, e);
    var e :| e in ImageExtensions && EndsWith(lower, e);
    ExtensionsDotted(e);
    var dot := LastIndexOf(name, '.');
    LowerSuffixDot(name, e);
    LowerSuffixTail(name, e, dot);
    assert name[..1] != "." && name[dot] == '.';
  }

  lemma ExtensionAccepted(name: string)
    requires !StartsWith(name, ".") && LastIndexOf(name, '.') >= 0
    requires LowerAscii(name[LastIndexOf(name, '.')..]) in ImageExtensions
    ensures Accept(name, false)
  {
    var dot := LastIndexOf(name, '.');
    LowerTail(name, dot);
    var e := LowerAscii(name[dot..]);
    assert EndsWith(LowerAscii(name), e);
  }

  /**
   * The filter lets a file through exactly when its name is not hidden and the
   * extension the ImageFile constructor will cut off at the last '.' is, in
   * lower case, one of the four image extensions; the base name before it is
   * then never empty.
   */
  lemma AcceptedImageName(name: string)
    ensures Accept(name, false) <==>
      && !StartsWith(name, ".")
      && LastIndexOf(name, '.') >= 0
      && LowerAscii(name[LastIndexOf(name, '.')..]) in ImageExtensions
    ensures Accept(name, false) ==> LastIndexOf(name, '.') > 0
  {
    if Accept(name, false) {
      AcceptedHasExtension(name);
    }
    if !StartsWith(name, ".") && LastIndexOf(name, '.') >= 0 && LowerAscii(name[LastIndexOf(name, '.')..]) in ImageExtensions {
      ExtensionAccepted(name);
    }
  }

  /** Hidden files are refused even with an image extension, case does not matter, other extensions are refused. */
  lemma AcceptExamples()
    ensures Accept("IMG_01.JPG", false) && Accept("beach.Jpeg", false)
    ensures !Accept(".hidden.jpg", false) && !Accept(".git", true)
    ensures !Accept("notes.txt", false) && Accept("notes.txt", true)
  {
    assert "IMG_01.JPG"[..1] == "I" && "beach.Jpeg"[..1] == "b" && "notes.txt"[..1] == "n";
    assert LowerAscii("IMG_01.JPG") == "img_01.jpg";
    assert LowerAscii("beach.Jpeg") == "beach.jpeg";
    assert LowerAscii("notes.txt")[5..] == ".txt";
    assert LowerAscii("notes.txt")[4..] == "s.txt";
  }
}
