/**
 * `extractItemsFromUnknownJson`: the schema-free reader used for every JSON file
 * when the saved-collections reader finds nothing. It gathers the object nodes of
 * the value in depth-first pre-order, and makes one item of every string held by
 * a node (directly, or as an element of an array member) that contains a post link.
 */
module GenericScan {
  import opened Wrappers
  import opened Text
  import opened JsonValue
  import opened Seqs
  import opened Export
  import opened Fields
  import opened IgUrl

  /** The alias keys an item's collection is read from, in order of preference. */
  const CollectionKeys: seq<string> := ["collection", "collection_name", "folder", "name", "title"]

  /** The alias keys an item's title is read from, in order of preference. */
  const TitleKeys: seq<string> := ["title", "name", "caption", "text"]

  // ----- visit -----

  /** What `visit` descends into: an array's elements, an object's member values. */
  function Children(x: Json): (r: seq<Json>)
    ensures forall i | 0 <= i < |r| :: r[i] < x
  {
    match x
    case JArr(es) => es
    case JObj(ms) => seq(|ms|, i requires 0 <= i < |ms| => ms[i].value)
    case _ => []
  }

  /** The object nodes of `x` in depth-first pre-order: an object before the nodes
    * of its member values, the values in member order. */
  function ObjectNodes(x: Json): seq<Json>
    decreases x, 1
  {
    (if x.JObj? then [x] else []) + ChildNodes(x, |Children(x)|)
  }

  /** The object nodes of the first `n` children of `x`, one child after another. */
  function ChildNodes(x: Json, n: nat): seq<Json>
    requires n <= |Children(x)|
    decreases x, 0, n
  {
    if n == 0 then [] else ChildNodes(x, n - 1) + ObjectNodes(Children(x)[n - 1])
  }

  /** `visit(x)`: pushes the object nodes of `x` onto `nodes`: an array's by
    * visiting its elements, an object itself and then by visiting its member
    * values; anything else holds none. */
  method Visit(x: Json, nodes0: seq<Json>) returns (nodes: seq<Json>)
    ensures nodes == nodes0 + ObjectNodes(x)
    decreases x, 1
  {
    if x.JArr? {
      nodes := VisitChildren(x, nodes0);
    } else if x.JObj? {
      nodes := VisitChildren(x, nodes0 + [x]);
    } else {
      nodes := nodes0;
    }
  }

  /** The loop of `visit` over an array's elements or an object's member values. */
  method VisitChildren(x: Json, nodes0: seq<Json>) returns (nodes: seq<Json>)
    ensures nodes == nodes0 + ChildNodes(x, |Children(x)|)
    decreases x, 0
  {
    var children := Children(x);
    nodes := nodes0;
    var i := 0;
    while i < |children|
      invariant 0 <= i <= |children|
      invariant nodes == nodes0 + ChildNodes(x, i)
    {
      ChildNodesStep(x, i, nodes0);
      nodes := Visit(children[i], nodes);
      i := i + 1;
    }
  }

  /** One more child adds its nodes. */
  lemma ChildNodesStep(x: Json, i: nat, nodes0: seq<Json>)
    requires i < |Children(x)|
    ensures nodes0 + ChildNodes(x, i + 1) == (nodes0 + ChildNodes(x, i)) + ObjectNodes(Children(x)[i])
  {
    assert ChildNodes(x, i + 1) == ChildNodes(x, i) + ObjectNodes(Children(x)[i]);
  }

  /** Every node is an object within `x`: `x` itself or one of its parts. */
  lemma {:induction false} ObjectNodesWithin(x: Json)
    ensures forall n | n in ObjectNodes(x) :: n.JObj? && (n == x || n < x)
  {
    ChildNodesWithin(x, |Children(x)|);
  }

  lemma {:induction false} ChildNodesWithin(x: Json, k: nat)
    requires k <= |Children(x)|
    ensures forall n | n in ChildNodes(x, k) :: n.JObj? && n < x
    decreases x, 0, k
  {
    if k > 0 {
      ChildNodesWithin(x, k - 1);
      ObjectNodesWithin(Children(x)[k - 1]);
    }
  }

  /** An object is its own first node, and the nodes of every child are among the
    * nodes of its parent; so every object reached through arrays and member values
    * is a node. */
  lemma {:induction false} ObjectNodesReach(x: Json, i: nat)
    requires i < |Children(x)|
    ensures x.JObj? ==> ObjectNodes(x)[0] == x
    ensures forall n | n in ObjectNodes(Children(x)[i]) :: n in ObjectNodes(x)
  {
    ChildNodesReach(x, |Children(x)|, i);
  }

  lemma {:induction false} ChildNodesReach(x: Json, k: nat, i: nat)
    requires i < k <= |Children(x)|
    ensures forall n | n in ObjectNodes(Children(x)[i]) :: n in ChildNodes(x, k)
  {
    if i < k - 1 {
      ChildNodesReach(x, k - 1, i);
    }
  }

  // ----- The candidate strings of a node -----

  /** The strings a member value contributes: itself when it is a string, its
    * string elements when it is an array. */
  function StringsIn(v: Json): seq<string> {
    match v
    case JStr(s) => [s]
    case JArr(es) => StringElems(es)
    case _ => []
  }

  /** The elements of an array that are strings, in order. */
  function StringElems(es: seq<Json>): seq<string> {
    if es == [] then []
    else StringElems(es[..|es| - 1]) + (if es[|es| - 1].JStr? then [es[|es| - 1].s] else [])
  }

  /** The candidate strings of the member values `vs`, in order. */
  function Candidates(vs: seq<Json>): seq<string> {
    if vs == [] then [] else Candidates(vs[..|vs| - 1]) + StringsIn(vs[|vs| - 1])
  }

  /** The loop that fills `strings` from `Object.values(obj)`. */
  method CandidateStrings(obj: Json) returns (strings: seq<string>)
    ensures strings == Candidates(Children(obj))
  {
    var values := Children(obj);
    strings := [];
    var i := 0;
    while i < |values|
      invariant 0 <= i <= |values|
      invariant strings == Candidates(values[..i])
    {
      var v := values[i];
      assert values[..i + 1][..i] == values[..i];
      ghost var before := strings;
      if v.JStr? {
        strings := strings + [v.s];
      }
      if v.JArr? {
        var j := 0;
        while j < |v.elems|
          invariant 0 <= j <= |v.elems|
          invariant strings == before + StringElems(v.elems[..j])
        {
          assert v.elems[..j + 1][..j] == v.elems[..j];
          if v.elems[j].JStr? {
            strings := strings + [v.elems[j].s];
          }
          j := j + 1;
        }
        assert v.elems[..j] == v.elems;
      }
      i := i + 1;
    }
    assert values[..i] == values;
  }

  /** The member value `v` offers `s`: it is that string, or an array holding it. */
  predicate Offers(v: Json, s: string) {
    v == JStr(s) || (v.JArr? && JStr(s) in v.elems)
  }

  /** A member value contributes exactly the strings it offers. */
  lemma StringsInSpec(v: Json, s: string)
    ensures s in StringsIn(v) <==> Offers(v, s)
  {
    if v.JArr? {
      StringElemsSpec(v.elems, s);
    }
  }

  /** A string is a candidate exactly when a member value is that string or an
    * array holding it. */
  lemma CandidatesSpec(vs: seq<Json>, s: string)
    ensures s in Candidates(vs) <==> exists i | 0 <= i < |vs| :: Offers(vs[i], s)
  {
    if s in Candidates(vs) {
      CandidatesFrom(vs, s);
    }
    if exists i | 0 <= i < |vs| :: Offers(vs[i], s) {
      var i :| 0 <= i < |vs| && Offers(vs[i], s);
      CandidatesTo(vs, i, s);
    }
  }

  /** Every candidate is offered by a member value. */
  lemma {:induction false} CandidatesFrom(vs: seq<Json>, s: string)
    requires s in Candidates(vs)
    ensures exists i | 0 <= i < |vs| :: Offers(vs[i], s)
  {
    var n := |vs| - 1;
    var init := vs[..n];
    if s in Candidates(init) {
      CandidatesFrom(init, s);
      var i :| 0 <= i < n && Offers(init[i], s);
      assert init[i] == vs[i];
    } else {
      StringsInSpec(vs[n], s);
    }
  }

  /** Every string a member value offers is a candidate. */
  lemma {:induction false} CandidatesTo(vs: seq<Json>, i: nat, s: string)
    requires i < |vs| && Offers(vs[i], s)
    ensures s in Candidates(vs)
  {
    var n := |vs| - 1;
    var init := vs[..n];
    if i < n {
      assert init[i] == vs[i];
      CandidatesTo(init, i, s);
    } else {
      StringsInSpec(vs[n], s);
    }
  }

  lemma {:induction false} StringElemsSpec(es: seq<Json>, s: string)
    ensures s in StringElems(es) <==> JStr(s) in es
  {
    if es != [] {
      var n := |es| - 1;
      StringElemsSpec(es[..n], s);
      SplitLast(es);
    }
  }

  // ----- Items -----

  /** `sourceName.split("/").pop()`: the file's name without its directories. */
  function Basename(sourceName: string): string {
    AfterLast(sourceName, '/')
  }

  /** The item a candidate string of `obj` yields, if it holds a post link. */
  function ItemFor(obj: Json, sourceName: string, s: string): Option<Item> {
    match ExtractFirstIgUrl(s)
    case None => None
    case Some(url) => Some(MakeItem(obj, sourceName, url))
  }

  /** The item pushed for the link `url` found in a string of `obj`: its collection
    * is the first usable collection alias or `Unsorted`, its title the cleaned first
    * usable title alias or else the file's base name and the link, its link the
    * canonical form of `url`. */
  function MakeItem(obj: Json, sourceName: string, url: string): Item {
    var collection := PickString(obj, CollectionKeys).GetOr(Unsorted);
    var title := PickString(obj, TitleKeys).GetOr(Basename(sourceName) + ": " + url);
    Item(collection, CleanTitle(title), NormalizeIg(url))
  }

  /** `ItemFor` for the file `sourceName`, as a function of the node and the string. */
  function ItemMaker(sourceName: string): (Json, string) -> Option<Item> {
    (obj, s) => ItemFor(obj, sourceName, s)
  }

  /** `mk` for the node `obj`, as a function of the string. */
  function AtNode(mk: (Json, string) -> Option<Item>, obj: Json): string -> Option<Item> {
    s => mk(obj, s)
  }

  /** The items `mk` makes of the candidate strings `ss` of `obj`, in order. */
  function NodeItems(obj: Json, ss: seq<string>, mk: (Json, string) -> Option<Item>): seq<Item> {
    FilterMap(ss, AtNode(mk, obj))
  }

  /** One more string adds its item, if it makes one. */
  lemma NodeItemsStep(obj: Json, ss: seq<string>, j: nat, mk: (Json, string) -> Option<Item>)
    requires j < |ss|
    ensures NodeItems(obj, ss[..j + 1], mk) ==
      NodeItems(obj, ss[..j], mk) + (if mk(obj, ss[j]).Some? then [mk(obj, ss[j]).value] else [])
  {
    assert ss[..j + 1] == ss[..j] + [ss[j]];
    FilterMapSnoc(ss[..j], ss[j], AtNode(mk, obj));
  }

  /** The items `mk` makes of the nodes `nodes`, one node after another. */
  function ItemsOfNodes(nodes: seq<Json>, mk: (Json, string) -> Option<Item>): seq<Item> {
    if nodes == [] then []
    else
      var last := nodes[|nodes| - 1];
      ItemsOfNodes(nodes[..|nodes| - 1], mk) + NodeItems(last, Candidates(Children(last)), mk)
  }

  /** What `extractItemsFromUnknownJson(data, sourceName)` returns (the ids left out). */
  function ExtractItems(data: Json, sourceName: string): seq<Item> {
    ItemsOfNodes(ObjectNodes(data), ItemMaker(sourceName))
  }

  /** `extractItemsFromUnknownJson(data, sourceName)`: visits `data`, then scans
    * the nodes it gathered. */
  method ExtractItemsFromUnknownJson(data: Json, sourceName: string) returns (out: seq<Item>)
    ensures out == ExtractItems(data, sourceName)
  {
    var nodes := Visit(data, []);
    assert nodes == ObjectNodes(data);
    out := ScanNodes(nodes, ItemMaker(sourceName));
  }

  /** The outer loop of the scan: for each node in turn, gathers its candidate
    * strings and pushes the items `mk` makes of them. */
  method ScanNodes(nodes: seq<Json>, mk: (Json, string) -> Option<Item>) returns (out: seq<Item>)
    ensures out == ItemsOfNodes(nodes, mk)
  {
    out := [];
    var i := 0;
    while i < |nodes|
      invariant 0 <= i <= |nodes|
      invariant out == ItemsOfNodes(nodes[..i], mk)
    {
      var obj := nodes[i];
      assert nodes[..i + 1][..i] == nodes[..i];
      var strings := CandidateStrings(obj);
      out := PushNodeItems(out, obj, strings, mk);
      i := i + 1;
    }
    assert nodes[..i] == nodes;
  }

  /** The inner loop of the scan: pushes onto `out0` the item `mk` makes of each
    * string of `strings` that yields one (the scan passes `ItemMaker`, so a string
    * yields an item exactly when it holds a post link). */
  method PushNodeItems(out0: seq<Item>, obj: Json, strings: seq<string>, mk: (Json, string) -> Option<Item>)
    returns (out: seq<Item>)
    ensures out == out0 + NodeItems(obj, strings, mk)
  {
    out := out0;
    var j := 0;
    while j < |strings|
      invariant 0 <= j <= |strings|
      invariant out == out0 + NodeItems(obj, strings[..j], mk)
    {
      NodeItemsStep(obj, strings, j, mk);
      var it := mk(obj, strings[j]);
      if it.Some? {
        out := out + [it.value];
      }
      j := j + 1;
    }
    assert strings[..j] == strings;
  }

  // ----- What the scan yields -----

  /** A candidate string yields an item exactly when it holds a post link; the
    * item's link is the canonical form of the leftmost one, its collection the
    * first usable collection alias or `Unsorted`, and its title a tidy cleaned
    * title: the first usable title alias, else the file's base name and the link. */
  lemma ItemForSpec(obj: Json, sourceName: string, s: string)
    ensures ItemFor(obj, sourceName, s).Some? <==> ExtractFirstIgUrl(s).Some?
    ensures ItemFor(obj, sourceName, s).Some? ==>
      var it, url := ItemFor(obj, sourceName, s).value, ExtractFirstIgUrl(s).value;
      && it.url == NormalizeIg(url)
      && it.url != [] && it.url[|it.url| - 1] == '/' && '?' !in it.url
      && it.collection == PickString(obj, CollectionKeys).GetOr(Unsorted)
      && it.collection != []
      && it.title == CleanTitle(PickString(obj, TitleKeys).GetOr(Basename(sourceName) + ": " + url))
      && Tidy(it.title) && |it.title| <= MaxTitle + 1 && it.title != []
  {
    var url := ExtractFirstIgUrl(s);
    if url.Some? {
      var title := PickString(obj, TitleKeys).GetOr(Basename(sourceName) + ": " + url.value);
      var it := Item(PickString(obj, CollectionKeys).GetOr(Unsorted), CleanTitle(title), NormalizeIg(url.value));
      assert ItemFor(obj, sourceName, s) == Some(it);
      CleanTitleTidy(title);
      TitleNotBlank(obj, sourceName, url.value);
      CleanTitleNonEmpty(title);
    }
  }

  /** The title an item is cleaned from is never blank: a usable title alias is
    * trimmed and non-empty, and the fallback holds `:`. */
  lemma TitleNotBlank(obj: Json, sourceName: string, url: string)
    ensures !IsBlank(PickString(obj, TitleKeys).GetOr(Basename(sourceName) + ": " + url))
  {
    var picked := PickString(obj, TitleKeys);
    if picked.Some? {
      var i :| 0 <= i < |TitleKeys| && picked == NonBlankAt(obj, TitleKeys[i]);
      assert !IsSpace(picked.value[0]);
    } else {
      var b := Basename(sourceName);
      assert (b + ": " + url)[|b|] == ':';
    }
  }

  /** One item per candidate string that `mk` makes an item of. */
  lemma NodeItemsCount(obj: Json, ss: seq<string>, mk: (Json, string) -> Option<Item>)
    ensures |NodeItems(obj, ss, mk)| == |Defined(ss, AtNode(mk, obj))|
  {
    FilterMapCount(ss, AtNode(mk, obj));
  }

  /** Each item of a list of nodes is made of a candidate string of one of them. */
  lemma {:induction false} ItemsOfNodesFrom(nodes: seq<Json>, mk: (Json, string) -> Option<Item>, it: Item)
    requires it in ItemsOfNodes(nodes, mk)
    ensures exists k, s | 0 <= k < |nodes| && s in Candidates(Children(nodes[k])) :: mk(nodes[k], s) == Some(it)
  {
    var n := |nodes| - 1;
    var ss := Candidates(Children(nodes[n]));
    if it in ItemsOfNodes(nodes[..n], mk) {
      ItemsOfNodesFrom(nodes[..n], mk, it);
      var k, s :| 0 <= k < n && s in Candidates(Children(nodes[..n][k])) && mk(nodes[..n][k], s) == Some(it);
      assert nodes[..n][k] == nodes[k];
    } else {
      FilterMapFrom(ss, AtNode(mk, nodes[n]), it);
      var i :| 0 <= i < |ss| && mk(nodes[n], ss[i]) == Some(it);
      assert ss[i] in ss;
    }
  }

  /** Every item of one of the nodes is an item of the list. */
  lemma {:induction false} ItemsOfNodesTo(nodes: seq<Json>, mk: (Json, string) -> Option<Item>, k: nat, it: Item)
    requires k < |nodes| && it in NodeItems(nodes[k], Candidates(Children(nodes[k])), mk)
    ensures it in ItemsOfNodes(nodes, mk)
  {
    var n := |nodes| - 1;
    if k < n {
      var init := nodes[..n];
      assert init[k] == nodes[k];
      ItemsOfNodesTo(init, mk, k, it);
    }
  }

  /** Every item made of one of the strings is an item of the node. */
  lemma NodeItemsTo(obj: Json, ss: seq<string>, mk: (Json, string) -> Option<Item>, s: string)
    requires s in ss && mk(obj, s).Some?
    ensures mk(obj, s).value in NodeItems(obj, ss, mk)
  {
    var i :| 0 <= i < |ss| && ss[i] == s;
    FilterMapTo(ss, AtNode(mk, obj), i);
  }

  /** Every extracted item has a canonical link, a non-empty collection and a tidy
    * title of at most `MaxTitle + 1` characters. */
  lemma ExtractedItemsShape(data: Json, sourceName: string, it: Item)
    requires it in ExtractItems(data, sourceName)
    ensures it.url != [] && it.url[|it.url| - 1] == '/' && '?' !in it.url
    ensures it.collection != [] && Tidy(it.title) && |it.title| <= MaxTitle + 1 && it.title != []
  {
    var nodes := ObjectNodes(data);
    ItemsOfNodesFrom(nodes, ItemMaker(sourceName), it);
    var k, s :| 0 <= k < |nodes| && s in Candidates(Children(nodes[k])) &&
      ItemMaker(sourceName)(nodes[k], s) == Some(it);
    ItemForSpec(nodes[k], sourceName, s);
  }

  /** Every candidate string of every node that holds a post link yields its item. */
  lemma ExtractedItemsComplete(data: Json, sourceName: string, k: nat, s: string)
    requires k < |ObjectNodes(data)| && s in Candidates(Children(ObjectNodes(data)[k]))
    requires ExtractFirstIgUrl(s).Some?
    ensures ItemFor(ObjectNodes(data)[k], sourceName, s).Some?
    ensures ItemFor(ObjectNodes(data)[k], sourceName, s).value in ExtractItems(data, sourceName)
  {
    var nodes := ObjectNodes(data);
    ItemForSpec(nodes[k], sourceName, s);
    assert ItemMaker(sourceName)(nodes[k], s) == ItemFor(nodes[k], sourceName, s);
    NodeItemsTo(nodes[k], Candidates(Children(nodes[k])), ItemMaker(sourceName), s);
    ItemsOfNodesTo(nodes, ItemMaker(sourceName), k, ItemFor(nodes[k], sourceName, s).value);
  }
}
