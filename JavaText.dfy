/**
 * The java.lang.String operations the core uses, on strings as sequences of
 * characters: trim, toLowerCase, startsWith, endsWith, lastIndexOf and
 * split(" @").
 */
module JavaText {
  import opened Options

  /** trim() strips every character whose code point is at most U+0020. */
  predicate IsTrimmable(c: char) {
    c <= ' '
  }

  function TrimStart(s: string): (r: string)
    ensures |r| <= |s| && r == s[|s| - |r|..]
    ensures r == [] || !IsTrimmable(r[0])
    ensures forall k :: 0 <= k < |s| - |r| ==> IsTrimmable(s[k])
  {
    if s != [] && IsTrimmable(s[0]) then TrimStart(s[1..]) else s
  }

  function TrimEnd(s: string): (r: string)
    ensures |r| <= |s| && r == s[..|r|]
    ensures r == [] || !IsTrimmable(r[|r| - 1])
    ensures forall k :: |r| <= k < |s| ==> IsTrimmable(s[k])
  {
    if s != [] && IsTrimmable(s[|s| - 1]) then TrimEnd(s[..|s| - 1]) else s
  }

  /** String.trim(). */
  function Trim(s: string): string {
    TrimEnd(TrimStart(s))
  }

  /** A string is left alone by trim() exactly when neither end is trimmable. */
  lemma TrimFixed(s: string)
    ensures Trim(s) == s <==> (s == [] || (!IsTrimmable(s[0]) && !IsTrimmable(s[|s| - 1])))
  {
  }

  /** toLowerCase() on the ASCII letters; every other character is kept. */
  function LowerChar(c: char): (d: char)
    ensures 'A' <= c <= 'Z' ==> 'a' <= d <= 'z' && d as int - c as int == 32
    ensures !('A' <= c <= 'Z') ==> d == c
  {
    if 'A' <= c <= 'Z' then (c as int + 32) as char else c
  }

  function LowerAscii(s: string): (r: string)
    ensures |r| == |s|
    ensures forall k :: 0 <= k < |s| ==> r[k] == LowerChar(s[k])
  {
    seq(|s|, k requires 0 <= k < |s| => LowerChar(s[k]))
  }

  predicate StartsWith(s: string, prefix: string) {
    |prefix| <= |s| && s[..|prefix|] == prefix
  }

  predicate EndsWith(s: string, suffix: string) {
    |suffix| <= |s| && s[|s| - |suffix|..] == suffix
  }

  /** lastIndexOf(c): the last position holding c, or -1. */
  function LastIndexOf(s: string, c: char): (r: int)
    ensures -1 <= r < |s|
    ensures r == -1 <==> c !in s
    ensures r >= 0 ==> s[r] == c && c !in s[r + 1..]
  {
    if s == [] then -1
    else if s[|s| - 1] == c then |s| - 1
    else LastIndexOf(s[..|s| - 1], c)
  }

  /** The separator autoTag splits on: a space followed by '@'. */
  predicate MarkerAt(s: string, k: int) {
    0 <= k && k + 1 < |s| && s[k] == ' ' && s[k + 1] == '@'
  }

  predicate MarkerFree(s: string) {
    forall k :: 0 <= k < |s| ==> !MarkerAt(s, k)
  }

  /** The leftmost occurrence of the separator at or after i, as Matcher.find() reports it. */
  function FirstMarkerFrom(s: string, i: nat): (r: Option<nat>)
    requires i <= |s|
    ensures r.None? ==> forall k :: i <= k < |s| ==> !MarkerAt(s, k)
    ensures r.Some? ==> i <= r.value && MarkerAt(s, r.value)
    ensures r.Some? ==> forall k :: i <= k < r.value ==> !MarkerAt(s, k)
    decreases |s| - i
  {
    if i + 1 >= |s| then None
    else if MarkerAt(s, i) then Some(i)
    else FirstMarkerFrom(s, i + 1)
  }

  function FirstMarker(s: string): (r: Option<nat>)
    ensures r.None? ==> MarkerFree(s)
    ensures r.Some? ==> MarkerAt(s, r.value) && forall k :: 0 <= k < r.value ==> !MarkerAt(s, k)
  {
    FirstMarkerFrom(s, 0)
  }

  /** The pieces between successive non-overlapping separators, before trailing empties are dropped. */
  function Pieces(s: string): (ps: seq<string>)
    ensures |ps| >= 1
    decreases |s|
  {
    match FirstMarker(s)
    case None => [s]
    case Some(k) => [s[..k]] + Pieces(s[k + 2..])
  }

  /** With limit 0, split drops the empty strings at the end of the result. */
  function DropTrailingEmpty(ps: seq<string>): (r: seq<string>)
    ensures |r| <= |ps| && r == ps[..|r|]
    ensures r == [] || r[|r| - 1] != ""
    ensures forall k :: |r| <= k < |ps| ==> ps[k] == ""
  {
    if ps == [] then []
    else if ps[|ps| - 1] == "" then DropTrailingEmpty(ps[..|ps| - 1])
    else ps
  }

  /**
   * String.split(" @"): the whole string when the separator does not occur,
   * otherwise the pieces without the trailing empty ones (possibly none at all).
   */
  function SplitOnMarker(s: string): seq<string> {
    if FirstMarker(s).None? then [s] else DropTrailingEmpty(Pieces(s))
  }

  /** The inverse of Pieces: the pieces glued back with the separator. */
  function JoinWithMarker(ps: seq<string>): string
    requires |ps| >= 1
  {
    if |ps| == 1 then ps[0] else ps[0] + " @" + JoinWithMarker(ps[1..])
  }

  /** Splitting and re-joining gives back the string. */
  lemma {:induction false} JoinPieces(s: string)
    ensures JoinWithMarker(Pieces(s)) == s
    decreases |s|
  {
    match FirstMarker(s)
    case None =>
    case Some(k) =>
      JoinPieces(s[k + 2..]);
      assert s == s[..k] + " @" + s[k + 2..];
  }

  /** Every piece is free of the separator. */
  lemma {:induction false} PiecesMarkerFree(s: string)
    ensures forall i :: 0 <= i < |Pieces(s)| ==> MarkerFree(Pieces(s)[i])
    decreases |s|
  {
    match FirstMarker(s)
    case None =>
    case Some(k) =>
      PiecesMarkerFree(s[k + 2..]);
      forall j | 0 <= j < k && MarkerAt(s[..k], j) ensures false {
        assert MarkerAt(s, j);
      }
  }

  /** Gluing separator-free pieces and splitting again recovers exactly those pieces. */
  lemma {:induction false} PiecesOfJoin(ps: seq<string>)
    requires |ps| >= 1
    requires forall i :: 0 <= i < |ps| ==> MarkerFree(ps[i])
    ensures Pieces(JoinWithMarker(ps)) == ps
    decreases |ps|
  {
    var s := JoinWithMarker(ps);
    if |ps| == 1 {
      assert FirstMarker(s).None?;
    } else {
      var p := ps[0];
      var rest := JoinWithMarker(ps[1..]);
      assert s == p + " @" + rest;
      assert MarkerAt(s, |p|);
      forall k | 0 <= k < |p| ensures !MarkerAt(s, k) {
        if MarkerAt(s, k) {
          if k + 1 < |p| {
            assert MarkerAt(p, k);
          }
        }
      }
      assert FirstMarker(s) == Some(|p|);
      assert s[..|p|] == p;
      assert s[|p| + 2..] == rest;
      PiecesOfJoin(ps[1..]);
    }
  }
}
