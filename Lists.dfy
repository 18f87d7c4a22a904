/**
 * The java.util.ArrayList operations the core relies on (contains, remove(Object),
 * removeAll), stated on immutable sequences with element equality.
 */
module Lists {

  /** No element occurs twice. */
  predicate NoDuplicates<T(==)>(s: seq<T>) {
    forall i, j :: 0 <= i < j < |s| ==> s[i] != s[j]
  }

  /** Position of the first occurrence of x (ArrayList.indexOf). */
  function IndexOf<T(==)>(s: seq<T>, x: T): (i: nat)
    requires x in s
    ensures i < |s| && s[i] == x && x !in s[..i]
  {
    if s[0] == x then 0 else IndexOf(s[1..], x) + 1
  }

  /** ArrayList.remove(Object): drops the first occurrence of x, if there is one. */
  function RemoveFirst<T(==)>(s: seq<T>, x: T): (r: seq<T>)
    ensures x !in s ==> r == s
  {
    if s == [] then []
    else if s[0] == x then s[1..]
    else [s[0]] + RemoveFirst(s[1..], x)
  }

  /** When x occurs, exactly the element at its first position is dropped. */
  lemma {:induction false} RemoveFirstAt<T>(s: seq<T>, x: T)
    requires x in s
    ensures RemoveFirst(s, x) == s[..IndexOf(s, x)] + s[IndexOf(s, x) + 1..]
  {
    if s[0] != x {
      var i := IndexOf(s[1..], x);
      RemoveFirstAt(s[1..], x);
      assert s[..i + 1] == [s[0]] + s[1..][..i];
      assert s[i + 2..] == s[1..][i + 1..];
      AppendAssoc([s[0]], s[1..][..i], s[1..][i + 1..]);
    }
  }

  /** ArrayList.removeAll(xs): drops every element that xs contains, keeping the order of the rest. */
  function FilterOut<T(==)>(s: seq<T>, xs: seq<T>): (r: seq<T>)
    ensures forall k :: 0 <= k < |r| ==> r[k] in s && r[k] !in xs
    ensures forall k :: 0 <= k < |s| && s[k] !in xs ==> s[k] in r
    ensures |r| <= |s|
  {
    if s == [] then []
    else (if s[0] in xs then [] else [s[0]]) + FilterOut(s[1..], xs)
  }

  /** removeAll looks at the first element, then goes on with the rest. */
  lemma FilterOutPrepend<T>(x: T, s: seq<T>, xs: seq<T>)
    ensures FilterOut([x] + s, xs) == (if x in xs then [] else [x]) + FilterOut(s, xs)
  {
    assert ([x] + s)[1..] == s;
  }

  /** removeAll works element by element: it distributes over concatenation, so order is kept. */
  lemma {:induction false} FilterOutAppend<T>(a: seq<T>, b: seq<T>, xs: seq<T>)
    ensures FilterOut(a + b, xs) == FilterOut(a, xs) + FilterOut(b, xs)
  {
    if a == [] {
      assert a + b == b;
    } else {
      assert (a + b)[1..] == a[1..] + b;
      FilterOutAppend(a[1..], b, xs);
    }
  }

  /** Removing nothing that is present leaves the sequence as it was. */
  lemma {:induction false} FilterOutNone<T>(s: seq<T>, xs: seq<T>)
    requires forall t :: t in s ==> t !in xs
    ensures FilterOut(s, xs) == s
  {
    if s != [] {
      FilterOutNone(s[1..], xs);
    }
  }

  /** Two removal lists that agree on the elements of s remove the same elements. */
  lemma {:induction false} FilterOutAgree<T>(s: seq<T>, xs: seq<T>, ys: seq<T>)
    requires forall t :: t in s ==> (t in xs <==> t in ys)
    ensures FilterOut(s, xs) == FilterOut(s, ys)
  {
    if s != [] {
      FilterOutAgree(s[1..], xs, ys);
    }
  }

  /** Removing xs and then y is removing xs + [y]. */
  lemma {:induction false} FilterOutTwice<T>(s: seq<T>, xs: seq<T>, ys: seq<T>)
    ensures FilterOut(FilterOut(s, xs), ys) == FilterOut(s, xs + ys)
  {
    if s != [] {
      var head := if s[0] in xs then [] else [s[0]];
      FilterOutAppend(head, FilterOut(s[1..], xs), ys);
      FilterOutTwice(s[1..], xs, ys);
    }
  }

  /** removeAll never introduces duplicates. */
  lemma {:induction false} FilterOutNoDuplicates<T>(s: seq<T>, xs: seq<T>)
    requires NoDuplicates(s)
    ensures NoDuplicates(FilterOut(s, xs))
  {
    if s != [] {
      FilterOutNoDuplicates(s[1..], xs);
    }
  }

  /** On a duplicate-free sequence, remove(x) is removeAll([x]). */
  lemma {:induction false} RemoveFirstUnique<T>(s: seq<T>, x: T)
    requires NoDuplicates(s)
    ensures RemoveFirst(s, x) == FilterOut(s, [x])
  {
    if s != [] {
      if s[0] == x {
        FilterOutNone(s[1..], [x]);
      } else {
        RemoveFirstUnique(s[1..], x);
      }
    }
  }

  /** Position of the first element satisfying p, or |s| when there is none. */
  function FirstIndexWhere<T>(s: seq<T>, p: T -> bool): (i: nat)
    ensures i <= |s|
    ensures forall k :: 0 <= k < i ==> !p(s[k])
    ensures i < |s| ==> p(s[i])
  {
    if s == [] then 0 else if p(s[0]) then 0 else FirstIndexWhere(s[1..], p) + 1
  }

  /**
   * ArrayList.remove(Object) with a user-defined equals: the argument's equals
   * is tried against each element in order, and the first element it accepts
   * is dropped.
   */
  function RemoveFirstWhere<T>(s: seq<T>, p: T -> bool): (r: seq<T>)
    ensures var i := FirstIndexWhere(s, p);
      r == if i == |s| then s else s[..i] + s[i + 1..]
  {
    if s == [] then []
    else if p(s[0]) then s[1..]
    else [s[0]] + RemoveFirstWhere(s[1..], p)
  }

  /** The first element is checked first; the search goes on in the rest when it fails. */
  lemma RemoveFirstWherePrepend<T>(x: T, s: seq<T>, p: T -> bool)
    ensures RemoveFirstWhere([x] + s, p) == if p(x) then s else [x] + RemoveFirstWhere(s, p)
  {
    assert ([x] + s)[1..] == s;
  }

  /**
   * Appending and then removing: the first match is dropped, so when s held
   * one already the new element survives at the end, and otherwise s is
   * restored.
   */
  lemma {:induction false} AppendThenRemove<T>(s: seq<T>, x: T, p: T -> bool)
    requires p(x)
    ensures FirstIndexWhere(s, p) < |s| ==> RemoveFirstWhere(s + [x], p) == RemoveFirstWhere(s, p) + [x]
    ensures FirstIndexWhere(s, p) == |s| ==> RemoveFirstWhere(s + [x], p) == s
  {
    if s == [] {
      assert s + [x] == [x];
    } else {
      assert (s + [x])[0] == s[0] && (s + [x])[1..] == s[1..] + [x];
      if !p(s[0]) {
        AppendThenRemove(s[1..], x, p);
        assert FirstIndexWhere(s, p) == FirstIndexWhere(s[1..], p) + 1;
        assert RemoveFirstWhere(s + [x], p) == [s[0]] + RemoveFirstWhere(s[1..] + [x], p);
        assert RemoveFirstWhere(s, p) == [s[0]] + RemoveFirstWhere(s[1..], p);
      }
    }
  }

  /** Dropping from a concatenation within its first part. */
  lemma DropAppend<T>(a: seq<T>, b: seq<T>, i: nat)
    requires i <= |a|
    ensures (a + b)[i..] == a[i..] + b
  {
    assert forall k :: 0 <= k < |a| - i + |b| ==> (a + b)[i..][k] == (a[i..] + b)[k];
  }

  lemma AppendAssoc<T>(a: seq<T>, b: seq<T>, c: seq<T>)
    ensures (a + b) + c == a + (b + c)
  {
    assert forall k :: 0 <= k < |a| + |b| + |c| ==> ((a + b) + c)[k] == (a + (b + c))[k];
  }

  /** A prefix of a prefix is a prefix. */
  lemma PrefixOfPrefix<T>(a: seq<T>, b: seq<T>, c: seq<T>)
    requires |a| <= |b| <= |c| && c[..|b|] == b && b[..|a|] == a
    ensures c[..|a|] == a
  {
    assert c[..|a|] == c[..|b|][..|a|];
  }
}
