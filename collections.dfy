/** Sequence utilities standing in for Python list comprehensions. */
module Collections {

  /** `r` is obtained from `s` by deleting some elements, keeping the order of the rest. */
  ghost predicate IsSubsequence<T>(r: seq<T>, s: seq<T>)
    decreases |s|
  {
    r == [] ||
    (s != [] && (IsSubsequence(r, s[1..]) || (r[0] == s[0] && IsSubsequence(r[1..], s[1..]))))
  }

  /** Appending an element to the larger side, and optionally to the smaller side too,
      keeps a subsequence. */
  lemma {:induction false} SubsequenceSnoc<T>(r: seq<T>, s: seq<T>, x: T, both: bool)
    requires IsSubsequence(r, s)
    ensures IsSubsequence(r + (if both then [x] else []), s + [x])
    decreases |s|
  {
    var extra: seq<T> := if both then [x] else [];
    if s == [] {
      assert r == [];
      assert [x][1..] == [];
      assert r + extra == extra;
    } else {
      assert (s + [x])[1..] == s[1..] + [x];
      if r == [] {
        SubsequenceSnoc(r, s[1..], x, both);
        assert r + extra == extra;
      } else if IsSubsequence(r, s[1..]) {
        SubsequenceSnoc(r, s[1..], x, both);
      } else {
        SubsequenceSnoc(r[1..], s[1..], x, both);
        assert (r + extra)[1..] == r[1..] + extra;
      }
    }
  }

  /** The comprehension `[x for x in s if p(x)]`. The result keeps exactly the elements
      that satisfy `p`, each as often as in `s`, in their original order. */
  function Filter<T(!new)>(s: seq<T>, p: T -> bool): (r: seq<T>)
    ensures |r| <= |s|
    ensures forall x :: x in r <==> x in s && p(x)
    ensures forall x :: multiset(r)[x] == if p(x) then multiset(s)[x] else 0
    ensures IsSubsequence(r, s)
  {
    if s == [] then []
    else
      var rest := Filter(s[1..], p);
      assert s == [s[0]] + s[1..];
      if p(s[0]) then
        assert ([s[0]] + rest)[1..] == rest;
        [s[0]] + rest
      else
        rest
  }

  /** The set of images under `f` of the elements of `s`; it has at most one element per
      element of `s`. */
  function Image<T, U>(s: seq<T>, f: T -> U): (r: set<U>)
    ensures |r| <= |s|
    ensures forall x | x in s :: f(x) in r
    ensures forall y | y in r :: exists x :: x in s && f(x) == y
  {
    if s == [] then {}
    else
      var rest := Image(s[1..], f);
      assert s == [s[0]] + s[1..];
      rest + {f(s[0])}
  }
}
