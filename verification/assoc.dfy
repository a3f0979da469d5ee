/**
 * A JavaScript `Record<string, T[]>` built by the parser: named lists, the names in
 * the order they were first assigned (the model leaves out JavaScript's rule that
 * integer-like keys enumerate first).
 */
module Assoc {
  import opened Seqs

  datatype Group<T> = Group(name: string, items: seq<T>)

  /** `Object.keys(g)`. */
  function Names<T>(g: seq<Group<T>>): (r: seq<string>)
    ensures |r| == |g| && forall i | 0 <= i < |g| :: r[i] == g[i].name
  {
    if g == [] then [] else [g[0].name] + Names(g[1..])
  }

  /** `g[k] ?? []`. */
  function Lookup<T>(g: seq<Group<T>>, k: string): seq<T> {
    if g == [] then []
    else if g[0].name == k then g[0].items
    else Lookup(g[1..], k)
  }

  /** No name is used twice (as in any JavaScript object). */
  predicate UniqueNames<T>(g: seq<Group<T>>) {
    forall i, j | 0 <= i < j < |g| :: g[i].name != g[j].name
  }

  /** In a record, looking up a group's name finds that group. */
  lemma {:induction false} LookupAt<T>(g: seq<Group<T>>, i: nat)
    requires UniqueNames(g) && i < |g|
    ensures Lookup(g, g[i].name) == g[i].items
  {
    if i > 0 { LookupAt(g[1..], i - 1); }
  }

  /** A name that is no group's name looks up to the empty list. */
  lemma {:induction false} LookupMissing<T>(g: seq<Group<T>>, k: string)
    requires k !in Names(g)
    ensures Lookup(g, k) == []
  {
    if g != [] { LookupMissing(g[1..], k); }
  }

  /** Appending a list under a new name adds that name and changes no other lookup. */
  lemma LookupSnocNew<T>(g: seq<Group<T>>, x: Group<T>, k: string)
    requires x.name !in Names(g)
    ensures Lookup(g + [x], k) == if k == x.name then x.items else Lookup(g, k)
  {
    PutNew(g, x.name, x.items);
    PutLookup(g, x.name, x.items, k);
  }

  /** The lists of `g` one after another. */
  function Flatten<T>(g: seq<Group<T>>): seq<T> {
    if g == [] then [] else g[0].items + Flatten(g[1..])
  }

  /** One more list adds its name at the end. */
  lemma NamesSnoc<T>(g: seq<Group<T>>, x: Group<T>)
    ensures Names(g + [x]) == Names(g) + [x.name]
  {
    var a, b := Names(g + [x]), Names(g) + [x.name];
    assert |a| == |b|;
    forall i | 0 <= i < |a| ensures a[i] == b[i] {
      if i < |g| { assert (g + [x])[i] == g[i]; }
    }
  }

  /** One more list adds its items at the end. */
  lemma {:induction false} FlattenSnoc<T>(g: seq<Group<T>>, x: Group<T>)
    ensures Flatten(g + [x]) == Flatten(g) + x.items
  {
    if g == [] {
      assert [x][1..] == [];
    } else {
      FlattenSnoc(g[1..], x);
      assert (g + [x])[1..] == g[1..] + [x];
    }
  }

  /** `(g[k] ??= []).push(v)`: append `v` to the list named `k`, creating it last
    * if there is none. */
  function Append<T>(g: seq<Group<T>>, k: string, v: T): (r: seq<Group<T>>)
    ensures Names(r) == if k in Names(g) then Names(g) else Names(g) + [k]
    ensures forall n :: Lookup(r, n) == if n == k then Lookup(g, k) + [v] else Lookup(g, n)
  {
    if g == [] then [Group(k, [v])]
    else if g[0].name == k then [Group(k, g[0].items + [v])] + g[1..]
    else
      var r := [g[0]] + Append(g[1..], k, v);
      assert Names(g) == [g[0].name] + Names(g[1..]);
      r
  }

  /** `g[k] = v`: replace the list named `k`, in its place, or add it last if there
    * is none. */
  function Put<T>(g: seq<Group<T>>, k: string, v: seq<T>): (r: seq<Group<T>>)
    ensures Names(r) == if k in Names(g) then Names(g) else Names(g) + [k]
  {
    if g == [] then [Group(k, v)]
    else if g[0].name == k then [Group(k, v)] + g[1..]
    else
      var r := [g[0]] + Put(g[1..], k, v);
      assert Names(g) == [g[0].name] + Names(g[1..]);
      r
  }

  /** After the assignment the name looks up to its new list, every other name to
    * its old one. */
  lemma {:induction false} PutLookup<T>(g: seq<Group<T>>, k: string, v: seq<T>, n: string)
    ensures Lookup(Put(g, k, v), n) == if n == k then v else Lookup(g, n)
  {
    if g != [] && g[0].name != k {
      PutLookup(g[1..], k, v, n);
    }
  }

  /** Assigning a new name adds its list last. */
  lemma PutNew<T>(g: seq<Group<T>>, k: string, v: seq<T>)
    requires k !in Names(g)
    ensures Put(g, k, v) == g + [Group(k, v)]
  {
    forall i | 0 <= i < |g| ensures g[i].name != k {
      assert Names(g)[i] == g[i].name;
    }
    PutAbsent(g, k, v);
  }

  lemma {:induction false} PutAbsent<T>(g: seq<Group<T>>, k: string, v: seq<T>)
    requires forall i | 0 <= i < |g| :: g[i].name != k
    ensures Put(g, k, v) == g + [Group(k, v)]
  {
    if g != [] {
      PutAbsent(g[1..], k, v);
      assert Put(g, k, v) == [g[0]] + Put(g[1..], k, v);
      assert g == [g[0]] + g[1..];
    }
  }

  /** Dropping a record's last list leaves a record without its name. */
  lemma UniqueNamesInit<T>(g: seq<Group<T>>)
    requires UniqueNames(g) && g != []
    ensures UniqueNames(g[..|g| - 1]) && g[|g| - 1].name !in Names(g[..|g| - 1])
  {
    var n := |g| - 1;
    forall m | 0 <= m < n ensures g[..n][m].name != g[n].name {
      assert g[..n][m] == g[m];
    }
  }

  /** Keeping some of the lists of a record keeps it a record. */
  lemma {:induction false} UniqueNamesFilter<T>(g: seq<Group<T>>, p: Group<T> -> bool)
    requires UniqueNames(g)
    ensures UniqueNames(Filter(g, p))
  {
    if g != [] {
      var n := |g| - 1;
      var init, x := g[..n], g[n];
      UniqueNamesFilter(init, p);
      var f := Filter(init, p);
      if p(x) {
        var r := f + [x];
        forall i, j | 0 <= i < j < |r| ensures r[i].name != r[j].name {
          if j == |f| {
            FilterSpec(init, p, f[i]);
            var k :| 0 <= k < n && init[k] == f[i];
            assert g[k] == f[i] && r[j] == g[n];
          } else {
            assert r[i] == f[i] && r[j] == f[j];
          }
        }
      }
    }
  }

  /** Append `v` to the list named `k` unless that list already holds it. */
  function AppendNew<T(==)>(g: seq<Group<T>>, k: string, v: T): seq<Group<T>> {
    if v in Lookup(g, k) then g else Append(g, k, v)
  }

  /** The names of a list of pairs, in order. */
  function Keys<T>(ps: seq<(string, T)>): (r: seq<string>)
    ensures |r| == |ps| && forall i | 0 <= i < |ps| :: r[i] == ps[i].0
  {
    if ps == [] then [] else Keys(ps[..|ps| - 1]) + [ps[|ps| - 1].0]
  }

  /** The values paired with `k`, in order. */
  function ValuesFor<T>(ps: seq<(string, T)>, k: string): seq<T> {
    if ps == [] then []
    else ValuesFor(ps[..|ps| - 1], k) + (if ps[|ps| - 1].0 == k then [ps[|ps| - 1].1] else [])
  }

  /** Pushing every pair's value onto the list named by its name, in order. */
  function GroupAll<T>(ps: seq<(string, T)>): seq<Group<T>> {
    if ps == [] then [] else Append(GroupAll(ps[..|ps| - 1]), ps[|ps| - 1].0, ps[|ps| - 1].1)
  }

  /** As `GroupAll`, but a value already in its list is not pushed again. */
  function GroupDistinct<T(==,!new)>(ps: seq<(string, T)>): seq<Group<T>> {
    if ps == [] then [] else AppendNew(GroupDistinct(ps[..|ps| - 1]), ps[|ps| - 1].0, ps[|ps| - 1].1)
  }

  /** Grouping one more pair adds it to the grouping of the others. */
  lemma GroupDistinctSnoc<T(!new)>(ps: seq<(string, T)>, p: (string, T))
    ensures GroupDistinct(ps + [p]) == AppendNew(GroupDistinct(ps), p.0, p.1)
  {
    assert (ps + [p])[..|ps|] == ps;
  }

  /** A name occurs among the pairs exactly when some value is paired with it. */
  lemma {:induction false} ValuesForNonEmpty<T>(ps: seq<(string, T)>, k: string)
    ensures k in Keys(ps) <==> ValuesFor(ps, k) != []
  {
    if ps != [] {
      var init := ps[..|ps| - 1];
      ValuesForNonEmpty(init, k);
      assert Keys(ps) == Keys(init) + [ps[|ps| - 1].0];
    }
  }

  /** Groups whose names are the distinct names of `ps`, each looking up to a
    * non-empty list, form a record of non-empty lists. */
  lemma {:induction false} GroupsOfPairs<T(!new)>(g: seq<Group<T>>, ps: seq<(string, T)>)
    requires Names(g) == Distinct(Keys(ps))
    requires forall k | k in Keys(ps) :: Lookup(g, k) != []
    ensures UniqueNames(g)
    ensures forall i | 0 <= i < |g| :: g[i].items != []
  {
    forall i, j | 0 <= i < j < |g| ensures g[i].name != g[j].name {
      assert Names(g)[i] == g[i].name && Names(g)[j] == g[j].name;
    }
    forall i | 0 <= i < |g| ensures g[i].items != [] {
      assert Names(g)[i] == g[i].name;
      LookupAt(g, i);
    }
  }

  /** Every pair `(k, u)` puts `u` among the values paired with `k`. */
  lemma {:induction false} ValuesForHas<T>(ps: seq<(string, T)>, k: string, u: T)
    requires (k, u) in ps
    ensures u in ValuesFor(ps, k)
  {
    var init := ps[..|ps| - 1];
    if ps[|ps| - 1] != (k, u) {
      assert (k, u) in init by {
        var i :| 0 <= i < |ps| && ps[i] == (k, u);
        assert init[i] == ps[i];
      }
      ValuesForHas(init, k, u);
    }
  }

  /** A value paired with `k` comes from a pair `(k, u)`. */
  lemma {:induction false} ValuesForIn<T>(ps: seq<(string, T)>, k: string, u: T)
    requires u in ValuesFor(ps, k)
    ensures (k, u) in ps
  {
    var init := ps[..|ps| - 1];
    if u in ValuesFor(init, k) {
      ValuesForIn(init, k, u);
    }
  }

  lemma {:induction false} GroupAllNames<T(!new)>(ps: seq<(string, T)>)
    ensures Names(GroupAll(ps)) == Distinct(Keys(ps))
  {
    if ps != [] {
      var init := ps[..|ps| - 1];
      GroupAllNames(init);
      assert Keys(ps) == Keys(init) + [ps[|ps| - 1].0];
      DistinctSnoc(Keys(init), ps[|ps| - 1].0);
    }
  }

  lemma {:induction false} GroupAllLookup<T>(ps: seq<(string, T)>, k: string)
    ensures Lookup(GroupAll(ps), k) == ValuesFor(ps, k)
  {
    if ps != [] {
      GroupAllLookup(ps[..|ps| - 1], k);
    }
  }

  /** Grouping makes one non-empty list per distinct name, in the order the names
    * first occur, and the list named `k` holds exactly the values paired with `k`,
    * in order. */
  lemma {:induction false} GroupAllSpec<T(!new)>(ps: seq<(string, T)>)
    ensures Names(GroupAll(ps)) == Distinct(Keys(ps))
    ensures forall k :: Lookup(GroupAll(ps), k) == ValuesFor(ps, k)
    ensures UniqueNames(GroupAll(ps)) && forall i | 0 <= i < |GroupAll(ps)| :: GroupAll(ps)[i].items != []
  {
    GroupAllNames(ps);
    forall k ensures Lookup(GroupAll(ps), k) == ValuesFor(ps, k) && (k in Keys(ps) ==> Lookup(GroupAll(ps), k) != []) {
      GroupAllLookup(ps, k);
      ValuesForNonEmpty(ps, k);
    }
    GroupsOfPairs(GroupAll(ps), ps);
  }

  lemma {:induction false} GroupDistinctLookup<T(!new)>(ps: seq<(string, T)>, k: string)
    ensures Lookup(GroupDistinct(ps), k) == Distinct(ValuesFor(ps, k))
  {
    if ps != [] {
      var init, last := ps[..|ps| - 1], ps[|ps| - 1];
      var g := GroupDistinct(init);
      GroupDistinctLookup(init, k);
      assert ValuesFor(ps, k) == ValuesFor(init, k) + (if last.0 == k then [last.1] else []);
      assert GroupDistinct(ps) == AppendNew(g, last.0, last.1);
      var vs := ValuesFor(init, k);
      if k != last.0 {
        assert ValuesFor(ps, k) == vs;
        if last.1 !in Lookup(g, last.0) {
          assert Lookup(Append(g, last.0, last.1), k) == Lookup(g, k);
        }
      } else if last.1 in Lookup(g, k) {
        assert last.1 in Distinct(vs);
        DistinctSnoc(vs, last.1);
      } else {
        assert last.1 !in Distinct(vs);
        DistinctSnoc(vs, last.1);
        assert Lookup(Append(g, k, last.1), k) == Lookup(g, k) + [last.1];
      }
    }
  }

  lemma {:induction false} GroupDistinctNames<T(!new)>(ps: seq<(string, T)>)
    ensures Names(GroupDistinct(ps)) == Distinct(Keys(ps))
  {
    if ps != [] {
      var init, last := ps[..|ps| - 1], ps[|ps| - 1];
      GroupDistinctNames(init);
      assert Keys(ps) == Keys(init) + [last.0];
      DistinctSnoc(Keys(init), last.0);
      var g := GroupDistinct(init);
      if last.1 in Lookup(g, last.0) && last.0 !in Names(g) {
        LookupMissing(g, last.0);
      }
    }
  }

  /** Grouping without repeats makes one non-empty list per distinct name, in the
    * order the names first occur, and the list named `k` holds each value paired
    * with `k` once, in the order first seen. */
  lemma {:induction false} GroupDistinctSpec<T(!new)>(ps: seq<(string, T)>)
    ensures Names(GroupDistinct(ps)) == Distinct(Keys(ps))
    ensures forall k :: Lookup(GroupDistinct(ps), k) == Distinct(ValuesFor(ps, k))
    ensures UniqueNames(GroupDistinct(ps)) &&
      forall i | 0 <= i < |GroupDistinct(ps)| :: GroupDistinct(ps)[i].items != []
  {
    GroupDistinctNames(ps);
    forall k ensures Lookup(GroupDistinct(ps), k) == Distinct(ValuesFor(ps, k)) &&
      (k in Keys(ps) ==> Lookup(GroupDistinct(ps), k) != []) {
      GroupDistinctLookup(ps, k);
      ValuesForNonEmpty(ps, k);
      if ValuesFor(ps, k) != [] { DistinctNonEmpty(ValuesFor(ps, k)); }
    }
    GroupsOfPairs(GroupDistinct(ps), ps);
  }

  /** Every pair with its value passed through `f`. */
  function MapValues<T, U>(ps: seq<(string, T)>, f: T -> U): (r: seq<(string, U)>)
    ensures |r| == |ps|
  {
    if ps == [] then [] else MapValues(ps[..|ps| - 1], f) + [(ps[|ps| - 1].0, f(ps[|ps| - 1].1))]
  }

  lemma MapValuesSnoc<T, U>(ps: seq<(string, T)>, p: (string, T), f: T -> U)
    ensures MapValues(ps + [p], f) == MapValues(ps, f) + [(p.0, f(p.1))]
  {
    assert (ps + [p])[..|ps|] == ps;
  }

  /** A mapped pair is the image of one of the pairs. */
  lemma {:induction false} MapValuesIn<T, U>(ps: seq<(string, T)>, f: T -> U, q: (string, U))
    requires q in MapValues(ps, f)
    ensures exists i | 0 <= i < |ps| :: q == (ps[i].0, f(ps[i].1))
  {
    var n := |ps| - 1;
    if q in MapValues(ps[..n], f) {
      MapValuesIn(ps[..n], f, q);
      var i :| 0 <= i < n && q == (ps[..n][i].0, f(ps[..n][i].1));
      assert ps[..n][i] == ps[i];
    } else {
      assert q == (ps[n].0, f(ps[n].1));
    }
  }
}
