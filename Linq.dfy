/**
 * The LINQ to Objects operators the account and news queries are built from,
 * with the semantics of System.Linq.Enumerable: `Skip`, `Take`, `Except`,
 * `Distinct`, and a `Where` that drops the members of a set.
 */
module Linq {

  /** No element occurs twice. */
  predicate NoDups<T(==)>(s: seq<T>) {
    forall i, j :: 0 <= i < j < |s| ==> s[i] != s[j]
  }

  /** `r` is `a` with some elements left out: the elements of `r` appear in `a` in the same order. */
  predicate Subsequence<T(==)>(r: seq<T>, a: seq<T>)
    decreases |a|
  {
    if a == [] then r == []
    else (r != [] && r[0] == a[0] && Subsequence(r[1..], a[1..])) || Subsequence(r, a[1..])
  }

  /** The elements of a sequence, as a set. */
  function Members<T>(s: seq<T>): set<T> {
    set x | x in s
  }

  lemma MembersCons<T>(x: T, s: seq<T>)
    ensures Members([x] + s) == {x} + Members(s)
  {
    assert forall y :: y in [x] + s <==> y == x || y in s;
  }

  lemma MembersTail<T>(s: seq<T>)
    requires s != []
    ensures Members(s) == {s[0]} + Members(s[1..])
  {
    assert s == [s[0]] + s[1..];
    MembersCons(s[0], s[1..]);
  }

  /** `Enumerable.Skip(n)`: a non-positive count skips nothing, a count past the end leaves nothing. */
  function Skip<T>(s: seq<T>, n: int): (r: seq<T>)
    ensures |r| == if n <= 0 then |s| else if n >= |s| then 0 else |s| - n
    ensures r == s[|s| - |r|..]
  {
    if n <= 0 then s else if n >= |s| then [] else s[n..]
  }

  /** `Enumerable.Take(n)`: a non-positive count takes nothing, a count past the end takes everything. */
  function Take<T>(s: seq<T>, n: int): (r: seq<T>)
    ensures |r| == if n <= 0 then 0 else if n >= |s| then |s| else n
    ensures r == s[..|r|]
  {
    if n <= 0 then [] else if n >= |s| then s else s[..n]
  }

  /**
   * The elements of `a` that are not in `seen`, each once, in order of first
   * occurrence: the loop of `Enumerable.Except` and `Enumerable.Distinct`,
   * whose set of already-yielded elements starts as `seen`.
   */
  function ExceptFrom<T(==)>(a: seq<T>, seen: set<T>): (r: seq<T>)
    ensures Members(r) == Members(a) - seen
    ensures NoDups(r)
    ensures Subsequence(r, a)
    decreases |a|
  {
    if a == [] then []
    else if a[0] in seen then MembersTail(a); ExceptFrom(a[1..], seen)
    else
      var rest := ExceptFrom(a[1..], seen + {a[0]});
      MembersTail(a);
      MembersCons(a[0], rest);
      assert a[0] !in Members(rest);
      assert ([a[0]] + rest)[1..] == rest;
      [a[0]] + rest
  }

  /**
   * The elements of `r` come in the order of their first occurrence in `a`:
   * each one occurs in `a` before any occurrence of an element after it in `r`.
   */
  ghost predicate FirstOrder<T>(r: seq<T>, a: seq<T>) {
    forall i, j :: 0 <= i < j < |r| ==>
      exists k :: 0 <= k < |a| && a[k] == r[i] && r[j] !in a[..k]
  }

  /** An element other than `a[0]` that is not among the first `k` of `a[1..]` is not among the first `k + 1` of `a`. */
  lemma PrefixStep<T>(x: T, a: seq<T>, k: nat)
    requires k < |a| - 1 && x != a[0] && x !in a[1..][..k]
    ensures x !in a[..k + 1]
  {
    assert a[..k + 1] == [a[0]] + a[1..][..k];
  }

  /** Putting in front of `a` an element that `r` does not hold keeps the order. */
  lemma FirstOrderSkip<T>(r: seq<T>, a: seq<T>)
    requires a != [] && a[0] !in r
    requires FirstOrder(r, a[1..])
    ensures FirstOrder(r, a)
  {
    var tail := a[1..];
    forall i, j | 0 <= i < j < |r|
      ensures exists k :: 0 <= k < |a| && a[k] == r[i] && r[j] !in a[..k]
    {
      var k :| 0 <= k < |tail| && tail[k] == r[i] && r[j] !in tail[..k];
      assert r[j] in r;
      PrefixStep(r[j], a, k);
      assert a[k + 1] == r[i];
    }
  }

  /** Putting the same new element in front of both keeps the order. */
  lemma FirstOrderKeep<T>(rest: seq<T>, a: seq<T>)
    requires a != [] && a[0] !in rest
    requires FirstOrder(rest, a[1..])
    ensures FirstOrder([a[0]] + rest, a)
  {
    var tail := a[1..];
    var r := [a[0]] + rest;
    forall i, j | 0 <= i < j < |r|
      ensures exists k :: 0 <= k < |a| && a[k] == r[i] && r[j] !in a[..k]
    {
      if i == 0 {
        assert a[0] == r[i] && r[j] !in a[..0];
      } else {
        var k :| 0 <= k < |tail| && tail[k] == rest[i - 1] && rest[j - 1] !in tail[..k];
        assert r[j] == rest[j - 1] && rest[j - 1] in rest;
        PrefixStep(r[j], a, k);
        assert a[k + 1] == r[i];
      }
    }
  }

  /** `ExceptFrom` yields its elements in the order of their first occurrence. */
  lemma {:induction false} ExceptFromFirstOrder<T>(a: seq<T>, seen: set<T>)
    ensures FirstOrder(ExceptFrom(a, seen), a)
    decreases |a|
  {
    if a != [] {
      if a[0] in seen {
        var r := ExceptFrom(a[1..], seen);
        ExceptFromFirstOrder(a[1..], seen);
        assert a[0] !in Members(r);
        FirstOrderSkip(r, a);
      } else {
        var rest := ExceptFrom(a[1..], seen + {a[0]});
        ExceptFromFirstOrder(a[1..], seen + {a[0]});
        assert a[0] !in Members(rest);
        FirstOrderKeep(rest, a);
      }
    }
  }

  /** `a.Except(b)`: set difference that keeps the order of `a` and drops repeats. */
  function Except<T(==)>(a: seq<T>, b: seq<T>): (r: seq<T>)
    ensures Members(r) == Members(a) - Members(b)
    ensures NoDups(r)
    ensures Subsequence(r, a)
    ensures FirstOrder(r, a)
  {
    ExceptFromFirstOrder(a, Members(b));
    ExceptFrom(a, Members(b))
  }

  /** `a.Distinct()`: the first occurrence of each element, in order. */
  function Distinct<T(==)>(a: seq<T>): (r: seq<T>)
    ensures Members(r) == Members(a)
    ensures NoDups(r)
    ensures Subsequence(r, a)
    ensures FirstOrder(r, a)
  {
    ExceptFromFirstOrder(a, {});
    ExceptFrom(a, {})
  }

  /** A sequence without repeats that avoids `seen` passes through `ExceptFrom` unchanged. */
  lemma {:induction false} ExceptFromKeeps<T>(a: seq<T>, seen: set<T>)
    requires NoDups(a) && Members(a) !! seen
    ensures ExceptFrom(a, seen) == a
    decreases |a|
  {
    if a != [] {
      assert a[0] in Members(a);
      assert NoDups(a[1..]);
      assert Members(a[1..]) !! seen + {a[0]} by {
        forall x | x in a[1..] ensures x != a[0] && x !in seen {
          var k :| 0 <= k < |a[1..]| && a[1..][k] == x;
          assert a[k + 1] == x;
        }
      }
      ExceptFromKeeps(a[1..], seen + {a[0]});
    }
  }

  /** `Distinct` changes nothing in a sequence that has no repeats. */
  lemma DistinctOfNoDups<T>(a: seq<T>)
    requires NoDups(a)
    ensures Distinct(a) == a
  {
    ExceptFromKeeps(a, {});
  }

  /** `s.Where(x => !drop.Contains(x))`: keeps order, keeps exactly the elements outside `drop`. */
  function Without<T(==)>(s: seq<T>, drop: set<T>): (r: seq<T>)
    ensures Members(r) == Members(s) - drop
    ensures NoDups(s) ==> NoDups(r)
    ensures Subsequence(r, s)
    decreases |s|
  {
    if s == [] then []
    else if s[0] in drop then MembersTail(s); Without(s[1..], drop)
    else
      var rest := Without(s[1..], drop);
      MembersTail(s);
      MembersCons(s[0], rest);
      assert NoDups(s) ==> NoDups(s[1..]) && s[0] !in Members(s[1..]);
      assert ([s[0]] + rest)[1..] == rest;
      [s[0]] + rest
  }
}
