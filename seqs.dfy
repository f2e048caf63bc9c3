/**
 * Generic sequence operations shared by the collections of the model:
 * filtering (`select`/`reject`), first-index lookup by a name key
 * (`find_index`, `by_name`) and the upsert used for connection configs
 * and drivers (`add_or_update`).
 */
module Seqs {
  import opened Wrappers

  /** The elements of `s` satisfying `p`, in order (Ruby `select`). */
  function Filter<T(!new)>(s: seq<T>, p: T -> bool): (r: seq<T>)
    ensures |r| <= |s|
    ensures forall x :: x in r <==> x in s && p(x)
    ensures (exists x :: x in s && !p(x)) ==> |r| < |s|
  {
    if s == [] then []
    else (if p(s[0]) then [s[0]] else []) + Filter(s[1..], p)
  }

  lemma {:induction false} FilterConcat<T(!new)>(a: seq<T>, b: seq<T>, p: T -> bool)
    ensures Filter(a + b, p) == Filter(a, p) + Filter(b, p)
  {
    if a == [] {
      assert a + b == b;
    } else {
      assert (a + b)[1..] == a[1..] + b;
      FilterConcat(a[1..], b, p);
    }
  }

  /** Filtering a sequence with a known first element. */
  lemma FilterCons<T(!new)>(x: T, s: seq<T>, p: T -> bool)
    ensures Filter([x] + s, p) == (if p(x) then [x] else []) + Filter(s, p)
  {
    assert ([x] + s)[1..] == s;
  }

  /** Filtering with `p` and with its negation `q` splits `s` into two parts. */
  lemma {:induction false} FilterPartition<T(!new)>(s: seq<T>, p: T -> bool, q: T -> bool)
    requires forall x :: q(x) == !p(x)
    ensures multiset(Filter(s, p)) + multiset(Filter(s, q)) == multiset(s)
  {
    if s != [] {
      FilterPartition(s[1..], p, q);
      assert s == [s[0]] + s[1..];
    }
  }

  /** Filtering with a predicate every element satisfies changes nothing. */
  lemma {:induction false} FilterAll<T(!new)>(s: seq<T>, p: T -> bool)
    requires forall x :: x in s ==> p(x)
    ensures Filter(s, p) == s
  {
    if s != [] {
      FilterAll(s[1..], p);
    }
  }

  /** Filtering twice is filtering once with both predicates. */
  lemma {:induction false} FilterFilter<T(!new)>(s: seq<T>, p: T -> bool, q: T -> bool, pq: T -> bool)
    requires forall x :: pq(x) == (p(x) && q(x))
    ensures Filter(Filter(s, p), q) == Filter(s, pq)
  {
    if s != [] {
      FilterFilter(s[1..], p, q, pq);
      FilterCons(s[0], Filter(s[1..], p), q);
      if p(s[0]) {
        assert Filter(s, p) == [s[0]] + Filter(s[1..], p);
      } else {
        assert Filter(s, p) == Filter(s[1..], p);
      }
    }
  }

  /** Predicates that agree on the elements of `s` filter it alike. */
  lemma {:induction false} FilterCongruent<T(!new)>(s: seq<T>, p: T -> bool, q: T -> bool)
    requires forall x :: x in s ==> p(x) == q(x)
    ensures Filter(s, p) == Filter(s, q)
  {
    if s != [] {
      assert s[0] in s;
      assert forall x :: x in s[1..] ==> x in s;
      FilterCongruent(s[1..], p, q);
    }
  }

  /**
   * `b` is `a` with some values removed: every occurrence of a value `b`
   * contains is kept, in the order of `a`.
   */
  predicate Kept<T(==,!new)>(a: seq<T>, b: seq<T>) {
    b == Filter(a, (x: T) => x in b)
  }

  lemma KeptReflexive<T(!new)>(a: seq<T>)
    ensures Kept(a, a)
  {
    FilterAll(a, (x: T) => x in a);
  }

  /** A filter keeps what it selects. */
  lemma FilterKept<T(!new)>(a: seq<T>, p: T -> bool)
    ensures Kept(a, Filter(a, p))
  {
    var b := Filter(a, p);
    FilterCongruent(a, (x: T) => x in b, p);
  }

  lemma KeptTransitive<T(!new)>(a: seq<T>, b: seq<T>, c: seq<T>)
    requires Kept(a, b) && Kept(b, c)
    ensures Kept(a, c)
  {
    FilterFilter(a, (x: T) => x in b, (x: T) => x in c, (x: T) => x in b && x in c);
    FilterCongruent(a, (x: T) => x in b && x in c, (x: T) => x in c);
  }

  /** Filtering with a predicate no element satisfies leaves nothing. */
  lemma {:induction false} FilterNone<T(!new)>(s: seq<T>, p: T -> bool)
    requires forall x :: x in s ==> !p(x)
    ensures Filter(s, p) == []
  {
    if s != [] {
      assert s[0] in s;
      assert forall x :: x in s[1..] ==> x in s;
      FilterNone(s[1..], p);
    }
  }

  /** `map { ... }.compact`: the present results of `f`, in order. */
  function MapSome<T(!new), U(!new)>(s: seq<T>, f: T -> Option<U>): (r: seq<U>)
    ensures |r| <= |s|
    ensures forall y :: y in r <==> exists x :: x in s && f(x) == Some(y)
  {
    if s == [] then []
    else
      var tail := MapSome(s[1..], f);
      assert forall x :: x in s[1..] ==> x in s;
      assert forall x :: x in s ==> x == s[0] || x in s[1..];
      (match f(s[0]) case Some(y) => [y] case None => []) + tail
  }

  /** Nothing present, nothing mapped. */
  lemma {:induction false} MapSomeNone<T(!new), U(!new)>(s: seq<T>, f: T -> Option<U>)
    requires forall x :: x in s ==> f(x).None?
    ensures MapSome(s, f) == []
  {
    if s != [] {
      assert s[0] in s;
      assert forall x :: x in s[1..] ==> x in s;
      MapSomeNone(s[1..], f);
    }
  }

  /** Mapping a single element. */
  lemma MapSomeOne<T(!new), U(!new)>(x: T, f: T -> Option<U>)
    ensures MapSome([x], f) == (match f(x) case Some(y) => [y] case None => [])
  {
    assert [x][1..] == [];
  }

  lemma {:induction false} MapSomeConcat<T(!new), U(!new)>(a: seq<T>, b: seq<T>, f: T -> Option<U>)
    ensures MapSome(a + b, f) == MapSome(a, f) + MapSome(b, f)
  {
    if a == [] {
      assert a + b == b;
    } else {
      assert (a + b)[1..] == a[1..] + b;
      MapSomeConcat(a[1..], b, f);
    }
  }

  /** Concatenation regrouped, stated over plain sequences so that callers need not unfold anything. */
  lemma ConcatAssoc<T>(a: seq<T>, b: seq<T>, c: seq<T>)
    ensures a + (b + c) == a + b + c
  {
  }

  /** Index of the first element whose key is `name`, as `find_index`. */
  function IndexOf<T>(s: seq<T>, key: T -> string, name: string): (r: Option<nat>)
    ensures r.Some? ==> r.value < |s| && key(s[r.value]) == name
    ensures r.Some? ==> forall j :: 0 <= j < r.value ==> key(s[j]) != name
    ensures r.None? <==> forall j :: 0 <= j < |s| ==> key(s[j]) != name
  {
    if s == [] then None
    else if key(s[0]) == name then Some(0)
    else match IndexOf(s[1..], key, name)
      case None => None
      case Some(i) => Some(i + 1)
  }

  /** Replace the first element with the same key as `x`, or append `x`. */
  function Upsert<T>(s: seq<T>, x: T, key: T -> string): seq<T>
  {
    match IndexOf(s, key, key(x))
    case Some(i) => s[i := x]
    case None => s + [x]
  }

  /**
   * After an upsert, the first element with the key of `x` is `x` itself; it
   * took the place of the element it replaced, or came last when the key was
   * new; every other element is unchanged.
   */
  lemma UpsertSpec<T>(s: seq<T>, x: T, key: T -> string)
    ensures var r := Upsert(s, x, key);
      match IndexOf(s, key, key(x))
      case Some(i) =>
        |r| == |s| && IndexOf(r, key, key(x)) == Some(i) && r[i] == x &&
        forall j :: 0 <= j < |s| && j != i ==> r[j] == s[j]
      case None =>
        |r| == |s| + 1 && IndexOf(r, key, key(x)) == Some(|s|) && r[|s|] == x &&
        forall j :: 0 <= j < |s| ==> r[j] == s[j]
  {
    if IndexOf(s, key, key(x)).None? {
      var r := s + [x];
      assert key(r[|s|]) == key(x);
    }
  }

  /** `find_index { |x| key(x) == name }`, as the loop the collections run. */
  method FindIndex<T>(s: seq<T>, key: T -> string, name: string) returns (r: Option<nat>)
    ensures r == IndexOf(s, key, name)
  {
    var k := 0;
    while k < |s|
      invariant 0 <= k <= |s|
      invariant forall j :: 0 <= j < k ==> key(s[j]) != name
    {
      if key(s[k]) == name {
        IndexOfFirst(s, key, name, k);
        return Some(k);
      }
      k := k + 1;
    }
    r := None;
  }

  /** The first index with a matching key is what `IndexOf` returns. */
  lemma IndexOfFirst<T>(s: seq<T>, key: T -> string, name: string, k: nat)
    requires k < |s| && key(s[k]) == name
    requires forall j :: 0 <= j < k ==> key(s[j]) != name
    ensures IndexOf(s, key, name) == Some(k)
  {
  }
}
