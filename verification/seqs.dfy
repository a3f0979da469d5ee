/**
 * Sequence helpers the parser uses through JavaScript's library: first-occurrence
 * de-duplication, the string order the parser sorts by, and a stable sort
 * (`Array.prototype.sort` is stable).
 */
module Seqs {
  import opened Wrappers

  /** The least index in `lo..hi - 1` satisfying `p`, if there is one. */
  function FirstWhere(lo: nat, hi: nat, p: nat -> bool): (r: Option<nat>)
    ensures r.Some? ==> lo <= r.value < hi && p(r.value)
    ensures r.Some? ==> forall j | lo <= j < r.value :: !p(j)
    ensures r.None? ==> forall j | lo <= j < hi :: !p(j)
    decreases hi - lo
  {
    if lo >= hi then None
    else if p(lo) then Some(lo)
    else FirstWhere(lo + 1, hi, p)
  }

  /** No element occurs twice. */
  predicate NoDuplicates<T(==)>(s: seq<T>) {
    forall i, j | 0 <= i < j < |s| :: s[i] != s[j]
  }

  /** The first occurrence of every element of `s`, in the order first seen: an
    * element is kept exactly when it does not occur earlier in `s`. */
  function Distinct<T(==,!new)>(s: seq<T>): (r: seq<T>)
    ensures forall x :: x in r <==> x in s
    ensures NoDuplicates(r)
  {
    if s == [] then []
    else
      var init, last := s[..|s| - 1], s[|s| - 1];
      assert s == init + [last];
      if last in init then Distinct(init) else Distinct(init) + [last]
  }

  /** A non-empty sequence is its front followed by its last element. */
  lemma SplitLast<T>(s: seq<T>)
    requires s != []
    ensures s == s[..|s| - 1] + [s[|s| - 1]]
  {
  }

  /** A prefix one longer is the prefix extended by the next element. */
  lemma TakeSnoc<T>(s: seq<T>, i: nat)
    requires i < |s|
    ensures s[..i + 1] == s[..i] + [s[i]]
  {
  }

  /** Extending a sequence by one element extends its distinct elements by that
    * element exactly when it is new. */
  lemma {:induction false} DistinctSnoc<T(!new)>(s: seq<T>, x: T)
    ensures Distinct(s + [x]) == if x in s then Distinct(s) else Distinct(s) + [x]
  {
    assert (s + [x])[..|s|] == s;
  }

  /** A non-empty sequence has a non-empty set of distinct elements. */
  lemma {:induction false} DistinctNonEmpty<T(!new)>(s: seq<T>)
    requires s != []
    ensures Distinct(s) != []
  {
    assert s[0] in Distinct(s);
  }

  // ----- The order strings are sorted in -----

  /** Lexicographic order on strings by character code, a prefix first. */
  predicate LessEq(a: string, b: string) {
    if a == [] then true
    else if b == [] then false
    else if a[0] != b[0] then a[0] < b[0]
    else LessEq(a[1..], b[1..])
  }

  lemma {:induction false} LessEqReflexive(a: string)
    ensures LessEq(a, a)
  {
    if a != [] { LessEqReflexive(a[1..]); }
  }

  lemma {:induction false} LessEqTotal(a: string, b: string)
    ensures LessEq(a, b) || LessEq(b, a)
  {
    if a != [] && b != [] && a[0] == b[0] { LessEqTotal(a[1..], b[1..]); }
  }

  lemma {:induction false} LessEqAntisymmetric(a: string, b: string)
    requires LessEq(a, b) && LessEq(b, a)
    ensures a == b
  {
    if a != [] && b != [] {
      LessEqAntisymmetric(a[1..], b[1..]);
      assert a == [a[0]] + a[1..] && b == [b[0]] + b[1..];
    }
  }

  lemma {:induction false} LessEqTransitive(a: string, b: string, c: string)
    requires LessEq(a, b) && LessEq(b, c)
    ensures LessEq(a, c)
  {
    if a != [] && b != [] && c != [] && a[0] == b[0] && b[0] == c[0] {
      LessEqTransitive(a[1..], b[1..], c[1..]);
    }
  }

  // ----- Stable sort by a string key -----

  /** Every element's key is at most every later element's key. */
  predicate SortedBy<T>(s: seq<T>, key: T -> string) {
    forall i, j | 0 <= i < j < |s| :: LessEq(key(s[i]), key(s[j]))
  }

  /** The elements of `s` whose key is `k`, in order. */
  function WithKey<T>(s: seq<T>, key: T -> string, k: string): seq<T> {
    if s == [] then []
    else (if key(s[0]) == k then [s[0]] else []) + WithKey(s[1..], key, k)
  }

  /** `x` placed before the first element whose key is not below its own. */
  function InsertBy<T>(x: T, s: seq<T>, key: T -> string): seq<T> {
    if s == [] then [x]
    else if LessEq(key(x), key(s[0])) then [x] + s
    else [s[0]] + InsertBy(x, s[1..], key)
  }

  /** `s` sorted by `key`, elements with equal keys kept in their original order. */
  function SortBy<T>(s: seq<T>, key: T -> string): seq<T> {
    if s == [] then [] else InsertBy(s[0], SortBy(s[1..], key), key)
  }

  lemma {:induction false} InsertByElements<T>(x: T, s: seq<T>, key: T -> string)
    ensures multiset(InsertBy(x, s, key)) == multiset(s) + multiset{x}
  {
    if s != [] && !LessEq(key(x), key(s[0])) {
      InsertByElements(x, s[1..], key);
      assert s == [s[0]] + s[1..];
    }
  }

  lemma {:induction false} InsertBySorted<T>(x: T, s: seq<T>, key: T -> string)
    requires SortedBy(s, key)
    ensures SortedBy(InsertBy(x, s, key), key)
  {
    if s == [] {
    } else if LessEq(key(x), key(s[0])) {
      var r := [x] + s;
      forall i, j | 0 <= i < j < |r| ensures LessEq(key(r[i]), key(r[j])) {
        if i == 0 && j > 1 { LessEqTransitive(key(x), key(s[0]), key(s[j - 1])); }
      }
    } else {
      InsertBySorted(x, s[1..], key);
      InsertByElements(x, s[1..], key);
      LessEqTotal(key(x), key(s[0]));
      var tail := InsertBy(x, s[1..], key);
      var r := [s[0]] + tail;
      forall j | 0 < j < |r| ensures LessEq(key(s[0]), key(r[j])) {
        assert r[j] in multiset(tail);
        assert r[j] == x || r[j] in multiset(s[1..]);
        if r[j] != x {
          var m :| 0 <= m < |s[1..]| && s[1..][m] == r[j];
          assert s[m + 1] == r[j];
        }
      }
    }
  }

  /** Inserting keeps every key's elements in order, `x` before the equal ones. */
  lemma {:induction false} InsertByWithKey<T>(x: T, s: seq<T>, key: T -> string, k: string)
    ensures WithKey(InsertBy(x, s, key), key, k) == WithKey([x], key, k) + WithKey(s, key, k)
  {
    var wx := if key(x) == k then [x] else [];
    assert WithKey([x], key, k) == wx + WithKey([], key, k);
    if s == [] {
    } else if LessEq(key(x), key(s[0])) {
      assert ([x] + s)[1..] == s;
    } else {
      var tail := InsertBy(x, s[1..], key);
      var w0 := if key(s[0]) == k then [s[0]] else [];
      InsertByWithKey(x, s[1..], key, k);
      LessEqReflexive(key(x));
      assert ([s[0]] + tail)[1..] == tail;
      assert WithKey([s[0]] + tail, key, k) == w0 + WithKey(tail, key, k);
      assert WithKey(s, key, k) == w0 + WithKey(s[1..], key, k);
      assert wx == [] || w0 == [];
    }
  }

  /** The sort result is sorted and a permutation of its input. */
  lemma {:induction false} SortBySorted<T>(s: seq<T>, key: T -> string)
    ensures SortedBy(SortBy(s, key), key)
    ensures multiset(SortBy(s, key)) == multiset(s)
  {
    if s != [] {
      SortBySorted(s[1..], key);
      InsertBySorted(s[0], SortBy(s[1..], key), key);
      InsertByElements(s[0], SortBy(s[1..], key), key);
      assert s == [s[0]] + s[1..];
    }
  }

  /** The sort is stable: the elements with any one key keep their relative order. */
  lemma {:induction false} SortByStable<T>(s: seq<T>, key: T -> string, k: string)
    ensures WithKey(SortBy(s, key), key, k) == WithKey(s, key, k)
  {
    if s != [] {
      SortByStable(s[1..], key, k);
      InsertByWithKey(s[0], SortBy(s[1..], key), key, k);
    }
  }

  // ----- Keeping the defined results of a partial map -----

  /** `f` applied to every element of `s`, in order, keeping the defined results. */
  function FilterMap<A, B>(s: seq<A>, f: A -> Option<B>): seq<B> {
    if s == [] then []
    else FilterMap(s[..|s| - 1], f) + (match f(s[|s| - 1]) case Some(b) => [b] case None => [])
  }

  /** The elements `f` is defined on, in order. */
  function Defined<A, B>(s: seq<A>, f: A -> Option<B>): (r: seq<A>)
    ensures forall x | x in r :: x in s && f(x).Some?
  {
    if s == [] then []
    else Defined(s[..|s| - 1], f) + (if f(s[|s| - 1]).Some? then [s[|s| - 1]] else [])
  }

  lemma FilterMapSnoc<A, B>(s: seq<A>, x: A, f: A -> Option<B>)
    ensures FilterMap(s + [x], f) == FilterMap(s, f) + (match f(x) case Some(b) => [b] case None => [])
  {
    assert (s + [x])[..|s|] == s;
  }

  /** One result per element `f` is defined on. */
  lemma {:induction false} FilterMapCount<A, B>(s: seq<A>, f: A -> Option<B>)
    ensures |FilterMap(s, f)| == |Defined(s, f)|
  {
    if s != [] {
      FilterMapCount(s[..|s| - 1], f);
    }
  }

  /** Every result is the image of an element. */
  lemma {:induction false} FilterMapFrom<A, B>(s: seq<A>, f: A -> Option<B>, b: B)
    requires b in FilterMap(s, f)
    ensures exists i | 0 <= i < |s| :: f(s[i]) == Some(b)
  {
    var n := |s| - 1;
    if b in FilterMap(s[..n], f) {
      FilterMapFrom(s[..n], f, b);
      var i :| 0 <= i < n && f(s[..n][i]) == Some(b);
      assert s[i] == s[..n][i];
    } else {
      assert f(s[n]) == Some(b);
    }
  }

  /** Every defined image of an element is a result. */
  lemma {:induction false} FilterMapTo<A, B>(s: seq<A>, f: A -> Option<B>, i: nat)
    requires i < |s| && f(s[i]).Some?
    ensures f(s[i]).value in FilterMap(s, f)
  {
    var n := |s| - 1;
    if i < n {
      FilterMapTo(s[..n], f, i);
      assert s[..n][i] == s[i];
    }
  }

  // ----- Filtering and finding -----

  /** `s.filter(p)`: the elements of `s` satisfying `p`, in order. */
  function Filter<T>(s: seq<T>, p: T -> bool): seq<T> {
    if s == [] then []
    else Filter(s[..|s| - 1], p) + (if p(s[|s| - 1]) then [s[|s| - 1]] else [])
  }

  /** The negation of `p`. */
  function Not<T>(p: T -> bool): T -> bool {
    x => !p(x)
  }

  /** An element is kept exactly when it is in `s` and satisfies `p`. */
  lemma {:induction false} FilterSpec<T>(s: seq<T>, p: T -> bool, x: T)
    ensures x in Filter(s, p) <==> x in s && p(x)
  {
    if s != [] {
      var n := |s| - 1;
      FilterSpec(s[..n], p, x);
      assert s == s[..n] + [s[n]];
    }
  }

  /** Every kept element satisfies `p`. */
  lemma {:induction false} FilterAll<T>(s: seq<T>, p: T -> bool)
    ensures forall i | 0 <= i < |Filter(s, p)| :: p(Filter(s, p)[i])
  {
    if s != [] {
      FilterAll(s[..|s| - 1], p);
    }
  }

  /** Filtering a concatenation filters each part. */
  lemma {:induction false} FilterAppend<T>(a: seq<T>, b: seq<T>, p: T -> bool)
    ensures Filter(a + b, p) == Filter(a, p) + Filter(b, p)
    decreases |b|
  {
    if b == [] {
      assert a + b == a;
    } else {
      var n := |b| - 1;
      FilterAppend(a, b[..n], p);
      assert (a + b)[..|a + b| - 1] == a + b[..n];
    }
  }

  /** Filtering what is already filtered by the same test changes nothing. */
  lemma {:induction false} FilterTwice<T>(s: seq<T>, p: T -> bool)
    ensures Filter(Filter(s, p), p) == Filter(s, p)
  {
    if s != [] {
      var n := |s| - 1;
      FilterTwice(s[..n], p);
      var e := if p(s[n]) then [s[n]] else [];
      FilterAppend(Filter(s[..n], p), e, p);
      assert Filter(e, p) == e by {
        if p(s[n]) { assert e[..0] == []; }
      }
    }
  }

  /** Nothing that fails `p` survives filtering by `p`. */
  lemma {:induction false} FilterNone<T>(s: seq<T>, p: T -> bool)
    requires forall i | 0 <= i < |s| :: !p(s[i])
    ensures Filter(s, p) == []
  {
    if s != [] {
      FilterNone(s[..|s| - 1], p);
    }
  }

  /** Filtering by a test every element passes changes nothing. */
  lemma {:induction false} FilterKeepsAll<T>(s: seq<T>, p: T -> bool)
    requires forall i | 0 <= i < |s| :: p(s[i])
    ensures Filter(s, p) == s
  {
    if s != [] {
      var n := |s| - 1;
      FilterKeepsAll(s[..n], p);
      assert s == s[..n] + [s[n]];
    }
  }

  /** The elements satisfying `p` and those failing it make up `s` between them. */
  lemma {:induction false} FilterSplit<T>(s: seq<T>, p: T -> bool)
    ensures multiset(Filter(s, p)) + multiset(Filter(s, Not(p))) == multiset(s)
  {
    if s != [] {
      var n := |s| - 1;
      FilterSplit(s[..n], p);
      assert s == s[..n] + [s[n]];
    }
  }

  /** Putting the elements that satisfy `p` before those that fail it: every
    * element that satisfies `p` comes before every one that fails it. */
  lemma PartitionOrder<T>(s: seq<T>, p: T -> bool)
    ensures var r := Filter(s, p) + Filter(s, Not(p));
      forall i, j | 0 <= i < j < |r| :: p(r[j]) ==> p(r[i])
  {
    var h, o := Filter(s, p), Filter(s, Not(p));
    var r := h + o;
    FilterAll(s, p);
    FilterAll(s, Not(p));
    forall i, j | 0 <= i < j < |r| ensures p(r[j]) ==> p(r[i]) {
      if j < |h| {
        assert r[i] == h[i];
      } else {
        assert r[j] == o[j - |h|] && Not(p)(o[j - |h|]);
      }
    }
  }

  /** The same partition keeps each side in its original order. */
  lemma PartitionSides<T>(s: seq<T>, p: T -> bool)
    ensures var r := Filter(s, p) + Filter(s, Not(p));
      Filter(r, p) == Filter(s, p) && Filter(r, Not(p)) == Filter(s, Not(p))
  {
    var h, o := Filter(s, p), Filter(s, Not(p));
    FilterAll(s, p);
    FilterAll(s, Not(p));
    FilterAppend(h, o, p);
    FilterAppend(h, o, Not(p));
    FilterTwice(s, p);
    FilterTwice(s, Not(p));
    forall i | 0 <= i < |o| ensures !p(o[i]) {
      assert Not(p)(o[i]);
    }
    forall i | 0 <= i < |h| ensures !Not(p)(h[i]) {
      assert p(h[i]);
    }
    FilterNone(o, p);
    FilterNone(h, Not(p));
    assert h + [] == h && [] + o == o;
  }

  /** `s.find(p)`: the first element of `s` satisfying `p`, if there is one. */
  function Find<T>(s: seq<T>, p: T -> bool): Option<T> {
    if s == [] then None
    else if p(s[0]) then Some(s[0])
    else Find(s[1..], p)
  }

  /** `Find` gives nothing exactly when no element satisfies `p`, and otherwise the
    * element at the least index that does. */
  lemma {:induction false} FindSpec<T>(s: seq<T>, p: T -> bool)
    ensures Find(s, p).None? <==> forall i | 0 <= i < |s| :: !p(s[i])
    ensures Find(s, p).Some? ==> exists i | 0 <= i < |s| ::
      && s[i] == Find(s, p).value && p(s[i])
      && forall j | 0 <= j < i :: !p(s[j])
  {
    if s != [] && !p(s[0]) {
      FindSpec(s[1..], p);
      if Find(s, p).Some? {
        var i :| 0 <= i < |s[1..]| && s[1..][i] == Find(s, p).value && p(s[1..][i])
          && forall j | 0 <= j < i :: !p(s[1..][j]);
        assert s[i + 1] == s[1..][i];
        forall j | 0 <= j < i + 1 ensures !p(s[j]) {
          if j > 0 { assert s[j] == s[1..][j - 1]; }
        }
      } else {
        forall i | 0 <= i < |s| ensures !p(s[i]) {
          if i > 0 { assert s[i] == s[1..][i - 1]; }
        }
      }
    } else if s != [] {
      assert s[0] == Find(s, p).value;
    }
  }
}

