/** `ObjectStorage::lookup` of src/rtld/object_storage.cpp: the search order over the global scope and the dependency
    graph, weak and unique symbols. */
module SymbolLookup {
  import opened Options

  type Id = nat                       // a loaded object
  type Name = string

  datatype Binding = Local | Global | Weak | Unique

  /** What an object's own hash table finds for a name; `defined` is st_shndx != SHN_UNDEF. */
  datatype Symbol = Symbol(index: nat, defined: bool, binding: Binding)

  datatype ObjectSymbol = ObjectSymbol(definer: Id, sym: Symbol)

  /** The loaded objects: their symbols, dependencies (possibly cyclic) and local scopes. */
  datatype World = World(symbols: map<(Id, Name), Symbol>, deps: map<Id, seq<Id>>, localScope: map<Id, seq<Id>>) {
    ghost predicate Valid() {
      && (forall x, d | x in deps && d in deps[x] :: d in deps)
      && deps.Keys == localScope.Keys
    }

    /** The object's symbol, if it is one that others may bind to. */
    function Visible(x: Id, name: Name): Option<Symbol> {
      if (x, name) in symbols && symbols[(x, name)].defined && symbols[(x, name)].binding != Local
      then Some(symbols[(x, name)]) else None
    }

    function Definition(x: Id, name: Name): ObjectSymbol
      requires Visible(x, name).Some?
    {
      ObjectSymbol(x, Visible(x, name).value)
    }

    /** The object settles a search: its symbol is strong or unique. */
    predicate Settles(x: Id, name: Name) {
      Visible(x, name).Some? && Visible(x, name).value.binding != Weak
    }

    predicate Offers(x: Id, name: Name) {
      Visible(x, name).Some? && Visible(x, name).value.binding == Weak
    }
  }

  // ---------------------------------------------------------------------------------------------------
  // Breadth-first order of the dependencies

  /** The objects in the order of their visit, with their distance from the root. */
  datatype Visit = Visit(order: seq<Id>, depth: seq<nat>)

  /** The dependencies not seen before, each once. */
  function Fresh(order: seq<Id>, deps: seq<Id>): (r: seq<Id>)
    decreases deps
  {
    if deps == [] then []
    else if deps[0] in order then Fresh(order, deps[1..])
    else [deps[0]] + Fresh(order + [deps[0]], deps[1..])
  }

  function Expand(w: World, v: Visit, i: nat): Visit
    requires i < |v.order| == |v.depth| && v.order[i] in w.deps
  {
    var added := Fresh(v.order, w.deps[v.order[i]]);
    Visit(v.order + added, v.depth + seq(|added|, _ => v.depth[i] + 1))
  }

  predicate Distinct(s: seq<Id>) {
    forall i, j | 0 <= i < j < |s| :: s[i] != s[j]
  }

  lemma {:induction false} FreshFacts(order: seq<Id>, deps: seq<Id>)
    requires Distinct(order)
    ensures var r := Fresh(order, deps);
            && Distinct(order + r)
            && (forall x | x in r :: x in deps)
            && (forall x | x in deps :: x in order + r)
    decreases deps
  {
    if deps != [] {
      var d := deps[0];
      assert deps == [d] + deps[1..];
      if d in order {
        FreshFacts(order, deps[1..]);
      } else {
        FreshFacts(order + [d], deps[1..]);
        var rest := Fresh(order + [d], deps[1..]);
        assert order + ([d] + rest) == (order + [d]) + rest;
      }
    }
  }

  lemma {:induction false} DistinctBound(s: seq<Id>, universe: set<Id>)
    requires Distinct(s) && forall x | x in s :: x in universe
    ensures |s| <= |universe|
    decreases s
  {
    if s != [] {
      var last := s[|s| - 1];
      var front := s[..|s| - 1];
      assert forall x | x in front :: x in s && x != last;
      DistinctBound(front, universe - {last});
    }
  }

  ghost predicate Sane(w: World, v: Visit, i: nat) {
    && w.Valid() && i <= |v.order| == |v.depth| && Distinct(v.order)
    && forall x | x in v.order :: x in w.deps
  }

  lemma ExpandSane(w: World, v: Visit, i: nat)
    requires Sane(w, v, i) && i < |v.order|
    ensures Sane(w, Expand(w, v, i), i + 1)
    ensures v.order <= Expand(w, v, i).order
    ensures |Expand(w, v, i).order| <= |w.deps|
  {
    FreshFacts(v.order, w.deps[v.order[i]]);
    assert |w.deps| == |w.deps.Keys|;
    DistinctBound(Expand(w, v, i).order, w.deps.Keys);
  }

  /** Visiting from position i on; the number of objects bounds the visit, whatever the cycles. */
  ghost function VisitFrom(w: World, v: Visit, i: nat): (r: Visit)
    requires Sane(w, v, i)
    ensures v.order <= r.order
    decreases |w.deps| - |v.order|, |v.order| - i
  {
    if i == |v.order| then v
    else
      ExpandSane(w, v, i);
      VisitFrom(w, Expand(w, v, i), i + 1)
  }

  function Root(root: Id): Visit {
    Visit([root], [0])
  }

  ghost function BreadthFirst(w: World, root: Id): Visit
    requires w.Valid() && root in w.deps
  {
    VisitFrom(w, Root(root), 0)
  }

  // What the order means ----------------------------------------------------------------------------------

  /** A chain of dependencies. */
  ghost predicate IsPath(w: World, path: seq<Id>) {
    && path != [] && (forall k | 0 <= k < |path| :: path[k] in w.deps)
    && forall k | 0 <= k < |path| - 1 :: path[k + 1] in w.deps[path[k]]
  }

  ghost predicate PathTo(w: World, root: Id, x: Id, path: seq<Id>) {
    IsPath(w, path) && path[0] == root && path[|path| - 1] == x
  }

  /** x is listed no deeper than n. */
  ghost predicate ListedWithin(v: Visit, x: Id, n: nat) {
    |v.order| == |v.depth| && exists k :: 0 <= k < |v.order| && v.order[k] == x && v.depth[k] <= n
  }

  /** Object k > 0 is a dependency of an earlier object one level up. */
  ghost predicate HasParent(w: World, v: Visit, k: nat)
    requires k < |v.order| == |v.depth|
  {
    exists j :: 0 <= j < k && v.order[j] in w.deps && v.order[k] in w.deps[v.order[j]] && v.depth[k] == v.depth[j] + 1
  }

  ghost predicate Layered(w: World, root: Id, v: Visit, i: nat) {
    && Sane(w, v, i) && v.order != [] && v.order[0] == root && v.depth[0] == 0
    && (forall j, k | 0 <= j < k < |v.depth| :: v.depth[j] <= v.depth[k])
    && (i < |v.depth| ==> forall k | 0 <= k < |v.depth| :: v.depth[k] <= v.depth[i] + 1)
    && (forall k | 0 < k < |v.order| :: HasParent(w, v, k))
    && (forall j, d | 0 <= j < i && d in w.deps[v.order[j]] :: ListedWithin(v, d, v.depth[j] + 1))
  }

  lemma ExpandOrdered(w: World, root: Id, v: Visit, i: nat)
    requires Layered(w, root, v, i) && i < |v.order|
    ensures var r := Expand(w, v, i);
            && |r.order| == |r.depth| && v.depth <= r.depth
            && (forall j, k | 0 <= j < k < |r.depth| :: r.depth[j] <= r.depth[k])
            && (i + 1 < |r.depth| ==> forall k | 0 <= k < |r.depth| :: r.depth[k] <= r.depth[i + 1] + 1)
  {
    hide HasParent, ListedWithin;
    var r := Expand(w, v, i);
    assert forall k | 0 <= k < |r.depth| :: r.depth[k] <= v.depth[i] + 1;
  }

  lemma ExpandParents(w: World, root: Id, v: Visit, i: nat)
    requires Layered(w, root, v, i) && i < |v.order|
    ensures var r := Expand(w, v, i);
            |r.order| == |r.depth| && forall k | 0 < k < |r.order| :: HasParent(w, r, k)
  {
    hide ListedWithin;
    var r := Expand(w, v, i);
    var added := Fresh(v.order, w.deps[v.order[i]]);
    FreshFacts(v.order, w.deps[v.order[i]]);
    forall k | 0 < k < |r.order| ensures HasParent(w, r, k) {
      if k < |v.order| {
        assert HasParent(w, v, k);
        var j :| 0 <= j < k && v.order[j] in w.deps && v.order[k] in w.deps[v.order[j]] && v.depth[k] == v.depth[j] + 1;
        assert r.order[j] == v.order[j] && r.order[k] == v.order[k];
      } else {
        assert r.order[k] == added[k - |v.order|] && r.order[k] in added;
        assert r.order[i] == v.order[i];
      }
    }
  }

  lemma ListedStays(v: Visit, r: Visit, x: Id, n: nat)
    requires ListedWithin(v, x, n) && v.order <= r.order && v.depth <= r.depth && |r.order| == |r.depth|
    ensures ListedWithin(r, x, n)
  {
    var k :| 0 <= k < |v.order| && v.order[k] == x && v.depth[k] <= n;
    assert r.order[k] == x && r.depth[k] <= n;
  }

  lemma ExpandListed(w: World, root: Id, v: Visit, i: nat, d: Id)
    requires Layered(w, root, v, i) && i < |v.order| && d in w.deps[v.order[i]]
    ensures ListedWithin(Expand(w, v, i), d, v.depth[i] + 1)
  {
    hide HasParent;
    var r := Expand(w, v, i);
    FreshFacts(v.order, w.deps[v.order[i]]);
    assert d in r.order;
    var k :| 0 <= k < |r.order| && r.order[k] == d;
    assert r.depth[k] <= v.depth[i] + 1;
  }

  lemma ExpandLayered(w: World, root: Id, v: Visit, i: nat)
    requires Layered(w, root, v, i) && i < |v.order|
    ensures Layered(w, root, Expand(w, v, i), i + 1)
  {
    hide HasParent, ListedWithin, Expand;
    var r := Expand(w, v, i);
    ExpandSane(w, v, i);
    ExpandOrdered(w, root, v, i);
    ExpandParents(w, root, v, i);
    forall j, d | 0 <= j < i + 1 && d in w.deps[r.order[j]] ensures ListedWithin(r, d, r.depth[j] + 1) {
      if j == i {
        ExpandListed(w, root, v, i, d);
      } else {
        ListedStays(v, r, d, v.depth[j] + 1);
      }
    }
  }

  lemma {:induction false} VisitLayered(w: World, root: Id, v: Visit, i: nat)
    requires Layered(w, root, v, i)
    ensures var r := VisitFrom(w, v, i); Layered(w, root, r, |r.order|)
    decreases |w.deps| - |v.order|, |v.order| - i
  {
    hide HasParent, ListedWithin, Expand;
    if i < |v.order| {
      ExpandSane(w, v, i);
      ExpandLayered(w, root, v, i);
      VisitLayered(w, root, Expand(w, v, i), i + 1);
    }
  }

  /** A finished visit lists the end of every path, no deeper than the path is long. */
  lemma {:induction false} PathListed(w: World, root: Id, v: Visit, x: Id, path: seq<Id>)
    requires Layered(w, root, v, |v.order|) && PathTo(w, root, x, path)
    ensures ListedWithin(v, x, |path| - 1)
    decreases |path|
  {
    hide HasParent;
    if |path| > 1 {
      var front := path[..|path| - 1];
      var y := front[|front| - 1];
      assert forall k | 0 <= k < |front| :: front[k] == path[k];
      PathListed(w, root, v, y, front);
      var j :| 0 <= j < |v.order| && v.order[j] == y && v.depth[j] <= |front| - 1;
      assert path[|front|] in w.deps[path[|front| - 1]];
      assert ListedWithin(v, x, v.depth[j] + 1);
    }
  }

  /** Every listed object is at the end of a path of exactly its depth. */
  lemma {:induction false} ListedReachable(w: World, root: Id, v: Visit, k: nat) returns (path: seq<Id>)
    requires Layered(w, root, v, |v.order|) && k < |v.order|
    ensures PathTo(w, root, v.order[k], path) && |path| == v.depth[k] + 1
    decreases k
  {
    hide ListedWithin;
    if k == 0 {
      path := [root];
    } else {
      assert HasParent(w, v, k);
      var j :| 0 <= j < k && v.order[j] in w.deps && v.order[k] in w.deps[v.order[j]] && v.depth[k] == v.depth[j] + 1;
      var p := ListedReachable(w, root, v, j);
      path := p + [v.order[k]];
      assert forall m | 0 <= m < |path| - 1 :: path[m + 1] in w.deps[path[m]];
    }
  }

  /** The breadth-first visit lists every object reachable from the root exactly once and no other, nearest first. */
  lemma VisitsReachable(w: World, root: Id, x: Id)
    requires w.Valid() && root in w.deps
    ensures var v := BreadthFirst(w, root);
            && Distinct(v.order) && |v.depth| == |v.order|
            && (x in v.order <==> exists path :: PathTo(w, root, x, path))
            && (forall j, k | 0 <= j < k < |v.depth| :: v.depth[j] <= v.depth[k])
            && (forall k, path | 0 <= k < |v.order| && PathTo(w, root, v.order[k], path) :: v.depth[k] < |path|)
  {
    hide HasParent;
    var v := BreadthFirst(w, root);
    VisitLayered(w, root, Root(root), 0);
    if x in v.order {
      var k :| 0 <= k < |v.order| && v.order[k] == x;
      var path := ListedReachable(w, root, v, k);
    }
    forall path | PathTo(w, root, x, path) ensures x in v.order {
      PathListed(w, root, v, x, path);
    }
    forall k, path | 0 <= k < |v.order| && PathTo(w, root, v.order[k], path) ensures v.depth[k] < |path| {
      PathListed(w, root, v, v.order[k], path);
      var j :| 0 <= j < |v.order| && v.order[j] == v.order[k] && v.depth[j] <= |path| - 1;
      assert j == k;
    }
  }

  // ---------------------------------------------------------------------------------------------------
  // The search

  datatype Policy = NoPolicy | Symbolic | IgnoreLocal | LocalAndDeps

  type UniqueMap = map<Name, ObjectSymbol>

  function Others(scope: seq<Id>, local: Option<Id>): seq<Id> {
    if scope == [] then []
    else if Some(scope[0]) == local then Others(scope[1..], local)
    else [scope[0]] + Others(scope[1..], local)
  }

  /** The global part of the search: the local object first if it resolves symbolically, then the others. */
  function GlobalOrder(scope: seq<Id>, local: Option<Id>, policy: Policy): seq<Id> {
    if policy == LocalAndDeps then []
    else (if local.Some? && policy == Symbolic then [local.value] else []) + Others(scope, local)
  }

  /** The local part: the dependencies breadth first and, outside LocalAndDeps, the local scope. */
  ghost function LocalOrder(w: World, local: Option<Id>, policy: Policy): seq<Id>
    requires w.Valid() && (local.Some? ==> local.value in w.deps)
  {
    if local.None? then []
    else BreadthFirst(w, local.value).order + if policy == LocalAndDeps then [] else w.localScope[local.value]
  }

  ghost function SearchOrder(w: World, scope: seq<Id>, local: Option<Id>, policy: Policy): seq<Id>
    requires w.Valid() && (local.Some? ==> local.value in w.deps)
  {
    GlobalOrder(scope, local, policy) + LocalOrder(w, local, policy)
  }

  /** The result the search promises over an order of objects: the first strong or unique definition, else the first
      weak one. A unique name already bound gives its binding; a new one is recorded. */
  ghost predicate Resolves(w: World, name: Name, order: seq<Id>, unique: UniqueMap, r: Option<ObjectSymbol>,
                           unique': UniqueMap) {
    if exists k :: FirstSettles(w, name, order, k) then
      exists k :: FirstSettles(w, name, order, k) && Settled(w, name, order[k], unique, r, unique')
    else
      && unique' == unique
      && if r.None? then forall k | 0 <= k < |order| :: !w.Offers(order[k], name)
         else exists k :: FirstOffers(w, name, order, k) && r.value == w.Definition(order[k], name)
  }

  ghost predicate FirstSettles(w: World, name: Name, order: seq<Id>, k: int) {
    0 <= k < |order| && w.Settles(order[k], name) && forall j | 0 <= j < k :: !w.Settles(order[j], name)
  }

  ghost predicate FirstOffers(w: World, name: Name, order: seq<Id>, k: int) {
    0 <= k < |order| && w.Offers(order[k], name) && forall j | 0 <= j < k :: !w.Offers(order[j], name)
  }

  ghost predicate Settled(w: World, name: Name, x: Id, unique: UniqueMap, r: Option<ObjectSymbol>, unique': UniqueMap)
    requires w.Settles(x, name)
  {
    var own := w.Definition(x, name);
    if own.sym.binding == Unique then
      r == Some(if name in unique then unique[name] else own) && unique' == unique[name := r.value]
    else
      r == Some(own) && unique' == unique
  }

  // What a result is, by the symbol tables alone ---------------------------------------------------------

  /** The object's table has a definition of the name that is not local to it. */
  predicate Exports(w: World, x: Id, name: Name) {
    (x, name) in w.symbols && w.symbols[(x, name)].defined && w.symbols[(x, name)].binding != Local
  }

  predicate ExportsStrong(w: World, x: Id, name: Name) {
    Exports(w, x, name) && w.symbols[(x, name)].binding != Weak
  }

  /** Only defined unique symbols are recorded. */
  ghost predicate Recorded(unique: UniqueMap) {
    forall n | n in unique :: unique[n].sym.defined && unique[n].sym.binding == Unique
  }

  /** Object k is the one whose definition counts: the first strong or unique one, or without any the first weak one. */
  ghost predicate Prevails(w: World, name: Name, order: seq<Id>, k: int) {
    && 0 <= k < |order| && Exports(w, order[k], name)
    && (forall j | 0 <= j < k :: !ExportsStrong(w, order[j], name))
    && (!ExportsStrong(w, order[k], name) ==>
          && (forall x | x in order :: !ExportsStrong(w, x, name))
          && forall j | 0 <= j < k :: !Exports(w, order[j], name))
  }

  lemma VisibleMeaning(w: World, x: Id, name: Name)
    ensures w.Visible(x, name).Some? <==> Exports(w, x, name)
    ensures Exports(w, x, name) ==> w.Definition(x, name) == ObjectSymbol(x, w.symbols[(x, name)])
    ensures w.Settles(x, name) <==> ExportsStrong(w, x, name)
    ensures w.Offers(x, name) <==> Exports(w, x, name) && !ExportsStrong(w, x, name)
  {}

  /** A search fails exactly when no object searched exports the name. Otherwise the result is the symbol of the object
      that prevails, or the recorded binding when that symbol is unique and the name is bound; it is defined and not
      local, and the map keeps recording defined unique symbols only. */
  lemma LookupMeaning(w: World, name: Name, order: seq<Id>, unique: UniqueMap, r: Option<ObjectSymbol>,
                      unique': UniqueMap)
    requires Resolves(w, name, order, unique, r, unique') && Recorded(unique)
    ensures r.None? <==> forall x | x in order :: !Exports(w, x, name)
    ensures r.Some? ==> exists k :: Prevails(w, name, order, k) && r.value == Bound(w, name, order[k], unique)
    ensures r.Some? ==> r.value.sym.defined && r.value.sym.binding != Local
    ensures Recorded(unique')
  {
    hide World.Visible, World.Definition, World.Settles, World.Offers, Exports, ExportsStrong;
    forall x | x in order
      ensures w.Settles(x, name) <==> ExportsStrong(w, x, name)
      ensures w.Offers(x, name) <==> Exports(w, x, name) && !ExportsStrong(w, x, name)
    {
      VisibleMeaning(w, x, name);
    }
    if exists k :: FirstSettles(w, name, order, k) {
      SettledMeaning(w, name, order, unique, r, unique');
      var k :| Prevails(w, name, order, k);
      assert order[k] in order && Exports(w, order[k], name);
    } else {
      NoneSettles(w, name, order);
      OfferedMeaning(w, name, order, unique, r, unique');
    }
  }

  /** What a lookup that ends at object x gives. */
  function Bound(w: World, name: Name, x: Id, unique: UniqueMap): ObjectSymbol
    requires Exports(w, x, name)
  {
    if w.symbols[(x, name)].binding == Unique && name in unique then unique[name]
    else ObjectSymbol(x, w.symbols[(x, name)])
  }

  lemma SettledMeaning(w: World, name: Name, order: seq<Id>, unique: UniqueMap, r: Option<ObjectSymbol>,
                       unique': UniqueMap)
    requires Resolves(w, name, order, unique, r, unique') && Recorded(unique)
    requires exists k :: FirstSettles(w, name, order, k)
    ensures r.Some? && r.value.sym.defined && r.value.sym.binding != Local && Recorded(unique')
    ensures exists k :: Prevails(w, name, order, k) && r.value == Bound(w, name, order[k], unique)
  {
    var k: int :| FirstSettles(w, name, order, k) && Settled(w, name, order[k], unique, r, unique');
    VisibleMeaning(w, order[k], name);
    forall j | 0 <= j < k ensures !ExportsStrong(w, order[j], name) {
      VisibleMeaning(w, order[j], name);
    }
    assert Prevails(w, name, order, k);
  }

  lemma OfferedMeaning(w: World, name: Name, order: seq<Id>, unique: UniqueMap, r: Option<ObjectSymbol>,
                       unique': UniqueMap)
    requires Resolves(w, name, order, unique, r, unique') && !exists k :: FirstSettles(w, name, order, k)
    requires forall x | x in order :: !w.Settles(x, name)
    ensures unique' == unique && (r.None? <==> forall x | x in order :: !Exports(w, x, name))
    ensures r.Some? ==> r.value.sym.defined && r.value.sym.binding != Local
    ensures r.Some? ==> exists k :: Prevails(w, name, order, k) && r.value == Bound(w, name, order[k], unique)
  {
    forall x | x in order
      ensures !ExportsStrong(w, x, name) && (w.Offers(x, name) <==> Exports(w, x, name))
    {
      VisibleMeaning(w, x, name);
    }
    if r.Some? {
      var k: int :| FirstOffers(w, name, order, k) && r.value == w.Definition(order[k], name);
      VisibleMeaning(w, order[k], name);
      assert Prevails(w, name, order, k);
    }
  }

  /** IgnoreLocal searches as if no policy were given: the local object still leads the breadth-first part. */
  lemma IgnoreLocalOrder(w: World, scope: seq<Id>, local: Id)
    requires w.Valid() && local in w.deps
    ensures var order, others := SearchOrder(w, scope, Some(local), IgnoreLocal), Others(scope, Some(local));
            && order == SearchOrder(w, scope, Some(local), NoPolicy)
            && |others| < |order| && order[..|others|] == others && order[|others|] == local && local !in others
  {
    assert Root(local).order <= BreadthFirst(w, local).order;
    OthersSkip(scope, local);
    assert [] + Others(scope, Some(local)) == Others(scope, Some(local));
  }

  lemma {:induction false} OthersSkip(scope: seq<Id>, local: Id)
    ensures local !in Others(scope, Some(local))
    decreases scope
  {
    if scope != [] {
      OthersSkip(scope[1..], local);
    }
  }

  /** The earliest strong or unique definition is unique and the name is bound already, so the search gives that. */
  ghost predicate BoundEarlier(w: World, name: Name, order: seq<Id>, unique: UniqueMap) {
    name in unique && exists k :: FirstSettles(w, name, order, k) && w.Definition(order[k], name).sym.binding == Unique
  }

  /** A test on the loaded objects and the bindings: the local object's definition wins although the policy is to ignore
      it. A strong or unique one wins unless another global object has one too; a weak one wins when no object searched
      has a strong or unique one and no other global object a weak one. An earlier binding wins if it is the local
      object's. */
  ghost predicate LocalWins(w: World, scope: seq<Id>, local: Id, name: Name, unique: UniqueMap)
    requires w.Valid() && local in w.deps
  {
    var others := Others(scope, Some(local));
    if BoundEarlier(w, name, SearchOrder(w, scope, Some(local), IgnoreLocal), unique) then unique[name].definer == local
    else if w.Settles(local, name) then forall x | x in others :: !w.Settles(x, name)
    else
      && w.Offers(local, name)
      && (forall x | x in SearchOrder(w, scope, Some(local), IgnoreLocal) :: !w.Settles(x, name))
      && forall x | x in others :: !w.Offers(x, name)
  }

  /** A lookup under IgnoreLocal returns the local object's definition exactly in that case. */
  lemma IgnoredLocalReturnedIff(w: World, scope: seq<Id>, local: Id, name: Name, unique: UniqueMap,
                                r: Option<ObjectSymbol>, unique': UniqueMap)
    requires w.Valid() && local in w.deps
    requires Resolves(w, name, SearchOrder(w, scope, Some(local), IgnoreLocal), unique, r, unique')
    ensures r.Some? && r.value.definer == local <==> LocalWins(w, scope, local, name, unique)
  {
    hide SearchOrder, Others;
    var order, others := SearchOrder(w, scope, Some(local), IgnoreLocal), Others(scope, Some(local));
    IgnoreLocalOrder(w, scope, local);
    assert forall x | x in others :: x in order;
    assert forall k | 0 <= k < |others| :: order[k] == others[k];
    if exists k :: FirstSettles(w, name, order, k) {
      SettledByLocal(w, order, others, local, name, unique, r, unique');
    } else {
      NoneSettles(w, name, order);
      OfferedByLocal(w, order, others, local, name, unique, r, unique');
    }
  }

  /** The simplest such case: the only object loaded defines the name. */
  lemma LoneObjectWins()
    ensures var w := World(map[(0, "f") := Symbol(1, true, Global)], map[0 := []], map[0 := []]);
            w.Valid() && LocalWins(w, [0], 0, "f", map[])
  {
    assert Others([0], Some(0)) == [];
  }

  lemma SettledByLocal(w: World, order: seq<Id>, others: seq<Id>, local: Id, name: Name, unique: UniqueMap,
                       r: Option<ObjectSymbol>, unique': UniqueMap)
    requires |others| < |order| && order[..|others|] == others && order[|others|] == local && local !in others
    requires Resolves(w, name, order, unique, r, unique')
    requires exists k :: FirstSettles(w, name, order, k)
    ensures r.Some? && r.value.definer == local
            <==> if BoundEarlier(w, name, order, unique) then unique[name].definer == local
                 else w.Settles(local, name) && forall x | x in others :: !w.Settles(x, name)
    ensures exists x :: x in order && w.Settles(x, name)
  {
    var k :| FirstSettles(w, name, order, k) && Settled(w, name, order[k], unique, r, unique');
    FirstIsLocal(w, order, others, local, name, k);
    if BoundEarlier(w, name, order, unique) {
      var j :| FirstSettles(w, name, order, j) && w.Definition(order[j], name).sym.binding == Unique;
      OneFirst(w, name, order, j, k);
    }
  }

  lemma OneFirst(w: World, name: Name, order: seq<Id>, j: int, k: int)
    requires FirstSettles(w, name, order, j) && FirstSettles(w, name, order, k)
    ensures j == k
  {}

  lemma FirstIsLocal(w: World, order: seq<Id>, others: seq<Id>, local: Id, name: Name, k: int)
    requires |others| < |order| && order[..|others|] == others && order[|others|] == local && local !in others
    requires FirstSettles(w, name, order, k)
    ensures order[k] == local <==> w.Settles(local, name) && forall x | x in others :: !w.Settles(x, name)
    ensures order[k] in order && w.Settles(order[k], name)
  {
    hide World.Settles;
    assert forall i | 0 <= i < |others| :: order[i] == others[i];
    if k < |others| {
      assert others[k] in others;
    }
  }

  lemma NoneSettles(w: World, name: Name, order: seq<Id>)
    requires !exists k :: FirstSettles(w, name, order, k)
    ensures forall x | x in order :: !w.Settles(x, name)
  {
    if x :| x in order && w.Settles(x, name) {
      var k :| 0 <= k < |order| && order[k] == x;
      var j := EarliestSettles(w, name, order, k);
    }
  }

  lemma {:induction false} EarliestSettles(w: World, name: Name, order: seq<Id>, k: nat) returns (j: nat)
    requires k < |order| && w.Settles(order[k], name)
    ensures FirstSettles(w, name, order, j)
    decreases k
  {
    if i :| 0 <= i < k && w.Settles(order[i], name) {
      j := EarliestSettles(w, name, order, i);
    } else {
      j := k;
    }
  }

  lemma OfferedByLocal(w: World, order: seq<Id>, others: seq<Id>, local: Id, name: Name, unique: UniqueMap,
                       r: Option<ObjectSymbol>, unique': UniqueMap)
    requires |others| < |order| && order[..|others|] == others && order[|others|] == local && local !in others
    requires Resolves(w, name, order, unique, r, unique') && !exists k :: FirstSettles(w, name, order, k)
    ensures r.Some? && r.value.definer == local
            <==> w.Offers(local, name) && forall x | x in others :: !w.Offers(x, name)
  {
    assert forall k | 0 <= k < |others| :: order[k] == others[k];
    if r.Some? {
      var k :| FirstOffers(w, name, order, k) && r.value == w.Definition(order[k], name);
      if k < |others| {
        assert others[k] in others;
      }
    }
  }

  /** No object of a searched prefix settles the search; `res` is the first weak definition in it. */
  ghost predicate Searched(w: World, name: Name, order: seq<Id>, res: Option<ObjectSymbol>) {
    && (forall k | 0 <= k < |order| :: !w.Settles(order[k], name))
    && if res.None? then forall k | 0 <= k < |order| :: !w.Offers(order[k], name)
       else exists k :: FirstOffers(w, name, order, k) && res.value == w.Definition(order[k], name)
  }

  /** `res` after one more object that does not settle the search. */
  function WithWeak(w: World, name: Name, x: Id, res: Option<ObjectSymbol>): Option<ObjectSymbol> {
    if res.None? && w.Offers(x, name) then Some(w.Definition(x, name)) else res
  }

  lemma SearchedMore(w: World, name: Name, order: seq<Id>, x: Id, res: Option<ObjectSymbol>)
    requires Searched(w, name, order, res) && !w.Settles(x, name)
    ensures Searched(w, name, order + [x], WithWeak(w, name, x, res))
  {
    var more := order + [x];
    assert more[|order|] == x;
    if res.Some? {
      var k :| FirstOffers(w, name, order, k) && res.value == w.Definition(order[k], name);
      assert FirstOffers(w, name, more, k);
    } else if w.Offers(x, name) {
      assert FirstOffers(w, name, more, |order|);
    }
  }

  lemma SettledAt(w: World, name: Name, prefix: seq<Id>, order: seq<Id>, res: Option<ObjectSymbol>,
                  unique: UniqueMap, r: Option<ObjectSymbol>, unique': UniqueMap)
    requires Searched(w, name, prefix, res) && prefix < order && w.Settles(order[|prefix|], name)
    requires Settled(w, name, order[|prefix|], unique, r, unique')
    ensures Resolves(w, name, order, unique, r, unique')
  {
    assert forall j | 0 <= j < |prefix| :: order[j] == prefix[j];
    assert FirstSettles(w, name, order, |prefix|);
  }

  lemma SearchedAll(w: World, name: Name, order: seq<Id>, res: Option<ObjectSymbol>, unique: UniqueMap)
    requires Searched(w, name, order, res)
    ensures Resolves(w, name, order, unique, res, unique)
  {
    assert !exists k :: FirstSettles(w, name, order, k);
  }

  class ObjectStorage {
    var globalScope: seq<Id>
    var uniqueMap: UniqueMap

    /** Looks at one object: settles the search, or keeps the first weak definition. */
    method Consider(w: World, name: Name, x: Id, res: Option<ObjectSymbol>)
      returns (settled: bool, r: Option<ObjectSymbol>)
      modifies this`uniqueMap
      ensures settled == w.Settles(x, name)
      ensures settled ==> Settled(w, name, x, old(uniqueMap), r, uniqueMap)
      ensures !settled ==> r == WithWeak(w, name, x, res) && uniqueMap == old(uniqueMap)
    {
      var sym := w.Visible(x, name);
      if sym.None? {
        return false, res;
      }
      if sym.value.binding == Weak {
        return false, if res.None? then Some(ObjectSymbol(x, sym.value)) else res;
      } else if sym.value.binding == Unique {
        if name in uniqueMap {
          return true, Some(uniqueMap[name]);
        }
        uniqueMap := uniqueMap[name := ObjectSymbol(x, sym.value)];
        return true, Some(uniqueMap[name]);
      }
      return true, Some(ObjectSymbol(x, sym.value));
    }

    /** Searches a list of objects in turn, after the objects of `before`. */
    method SearchList(w: World, name: Name, ghost before: seq<Id>, objects: seq<Id>, res0: Option<ObjectSymbol>,
                      ghost order: seq<Id>)
      returns (settled: bool, res: Option<ObjectSymbol>)
      requires before + objects <= order && Searched(w, name, before, res0)
      modifies this`uniqueMap
      ensures settled ==> Resolves(w, name, order, old(uniqueMap), res, uniqueMap)
      ensures !settled ==> Searched(w, name, before + objects, res) && uniqueMap == old(uniqueMap)
    {
      hide Resolves, Searched, Settled;
      res := res0;
      assert before + objects[..0] == before;
      for i := 0 to |objects|
        invariant Searched(w, name, before + objects[..i], res) && uniqueMap == old(uniqueMap)
      {
        ghost var prefix := before + objects[..i];
        assert prefix + [objects[i]] == before + objects[..i + 1];
        assert before + objects == prefix + objects[i..];
        assert order[|prefix|] == objects[i] && prefix < order;
        ghost var was := res;
        settled, res := Consider(w, name, objects[i], res);
        if settled {
          SettledAt(w, name, prefix, order, was, old(uniqueMap), res, uniqueMap);
          return true, res;
        }
        SearchedMore(w, name, prefix, objects[i], was);
      }
      assert objects[..|objects|] == objects;
      return false, res;
    }

    /** The loop over the global scope, which skips the local object. */
    method SearchOthers(w: World, name: Name, ghost before: seq<Id>, local: Option<Id>, res0: Option<ObjectSymbol>,
                      ghost order: seq<Id>)
      returns (settled: bool, res: Option<ObjectSymbol>)
      requires before + Others(globalScope, local) <= order && Searched(w, name, before, res0)
      modifies this`uniqueMap
      ensures settled ==> Resolves(w, name, order, old(uniqueMap), res, uniqueMap)
      ensures !settled ==> Searched(w, name, before + Others(globalScope, local), res) && uniqueMap == old(uniqueMap)
    {
      hide Resolves, Searched, Settled;
      res := res0;
      assert before + Others(globalScope[..0], local) == before;
      for i := 0 to |globalScope|
        invariant Searched(w, name, before + Others(globalScope[..i], local), res) && uniqueMap == old(uniqueMap)
      {
        ghost var prefix := before + Others(globalScope[..i], local);
        OthersSplit(globalScope, i, local);
        if Some(globalScope[i]) == local {
          assert Others(globalScope[..i + 1], local) == Others(globalScope[..i], local);
          continue;
        }
        ghost var x := globalScope[i];
        assert prefix + [x] == before + Others(globalScope[..i + 1], local);
        assert prefix + [x] <= order;
        ghost var was := res;
        settled, res := Consider(w, name, globalScope[i], res);
        if settled {
          SettledAt(w, name, prefix, order, was, old(uniqueMap), res, uniqueMap);
          return true, res;
        }
        SearchedMore(w, name, prefix, x, was);
      }
      assert globalScope[..|globalScope|] == globalScope;
      return false, res;
    }

    /** The breadth-first loop over the dependencies. */
    method SearchDependencies(w: World, name: Name, ghost before: seq<Id>, root: Id, res0: Option<ObjectSymbol>,
                      ghost order: seq<Id>)
      returns (settled: bool, res: Option<ObjectSymbol>)
      requires w.Valid() && root in w.deps
      requires before + BreadthFirst(w, root).order <= order && Searched(w, name, before, res0)
      modifies this`uniqueMap
      ensures settled ==> Resolves(w, name, order, old(uniqueMap), res, uniqueMap)
      ensures !settled ==> Searched(w, name, before + BreadthFirst(w, root).order, res) && uniqueMap == old(uniqueMap)
    {
      hide Resolves, Searched, Settled, Expand;
      res := res0;
      var stack, visited := [root], {root};
      ghost var v := Root(root);
      ghost var whole := BreadthFirst(w, root);
      var i: nat := 0;
      assert before + stack[..0] == before;
      RootSane(w, root);
      while i < |stack|
        invariant stack == v.order && Sane(w, v, i) && |stack| <= |w.deps| && VisitFrom(w, v, i) == whole
        invariant forall x :: x in visited <==> x in stack
        invariant Searched(w, name, before + stack[..i], res) && uniqueMap == old(uniqueMap)
        decreases |w.deps| - |stack|, |stack| - i
      {
        ghost var prefix := before + stack[..i];
        assert prefix + [stack[i]] == before + stack[..i + 1];
        assert stack <= whole.order && prefix + [stack[i]] <= order;
        ghost var was := res;
        settled, res := Consider(w, name, stack[i], res);
        if settled {
          SettledAt(w, name, prefix, order, was, old(uniqueMap), res, uniqueMap);
          return true, res;
        }
        SearchedMore(w, name, prefix, stack[i], was);
        ExpandSane(w, v, i);
        ExpandIs(w, v, i);
        ghost var scanned := stack[..i + 1];
        stack, visited := PushDependencies(stack, visited, w.deps[stack[i]]);
        v := Expand(w, v, i);
        i := i + 1;
        assert stack[..i] == scanned;
      }
      assert stack[..i] == stack;
      return false, res;
    }

    /** `lookup` */
    method Lookup(w: World, local: Option<Id>, name: Name, policy: Policy) returns (r: Option<ObjectSymbol>)
      requires w.Valid() && (local.Some? ==> local.value in w.deps)
      modifies this`uniqueMap
      ensures Resolves(w, name, SearchOrder(w, globalScope, local, policy), old(uniqueMap), r, uniqueMap)
    {
      hide Resolves, Searched, Settled, BreadthFirst, Others;
      ghost var order := SearchOrder(w, globalScope, local, policy);
      ghost var before: seq<Id> := [];
      var settled := false;
      r := None;
      NothingSearched(w, name);
      if policy != LocalAndDeps {
        if local.Some? && policy == Symbolic {
          assert before + [local.value] <= order;
          settled, r := SearchList(w, name, before, [local.value], r, order);
          if settled { return r; }
          before := before + [local.value];
        }
        assert before + Others(globalScope, local) == GlobalOrder(globalScope, local, policy);
        settled, r := SearchOthers(w, name, before, local, r, order);
        if settled { return r; }
        before := GlobalOrder(globalScope, local, policy);
      }
      if local.Some? {
        ghost var found := BreadthFirst(w, local.value).order;
        LocalParts(w, local.value, policy, before);
        settled, r := SearchDependencies(w, name, before, local.value, r, order);
        if settled { return r; }
        before := before + found;
        if policy != LocalAndDeps {
          assert before + w.localScope[local.value] == order;
          settled, r := SearchList(w, name, before, w.localScope[local.value], r, order);
          if settled { return r; }
          before := before + w.localScope[local.value];
        }
      }
      assert before == order;
      SearchedAll(w, name, order, r, uniqueMap);
    }
  }

  lemma LocalParts(w: World, local: Id, policy: Policy, before: seq<Id>)
    requires w.Valid() && local in w.deps
    ensures var found := BreadthFirst(w, local).order;
            && before + found <= before + LocalOrder(w, Some(local), policy)
            && before + LocalOrder(w, Some(local), policy)
               == if policy == LocalAndDeps then before + found else before + found + w.localScope[local]
  {
    hide BreadthFirst;
  }

  lemma NothingSearched(w: World, name: Name)
    ensures Searched(w, name, [], None)
  {}

  lemma RootSane(w: World, root: Id)
    requires w.Valid() && root in w.deps
    ensures Sane(w, Root(root), 0) && 1 <= |w.deps|
  {
    assert |w.deps| == |w.deps.Keys|;
    DistinctBound([root], w.deps.Keys);
  }

  lemma ExpandIs(w: World, v: Visit, i: nat)
    requires i < |v.order| == |v.depth| && v.order[i] in w.deps
    ensures Expand(w, v, i).order == v.order + Fresh(v.order, w.deps[v.order[i]])
  {}

  lemma {:induction false} OthersSplit(scope: seq<Id>, i: nat, local: Option<Id>)
    requires i < |scope|
    ensures Others(scope[..i + 1], local)
            == Others(scope[..i], local) + (if Some(scope[i]) == local then [] else [scope[i]])
    ensures Others(scope[..i + 1], local) <= Others(scope, local)
    decreases scope
  {
    if i == 0 {
      assert scope[..1][1..] == [];
    } else {
      assert scope[..i + 1][1..] == scope[1..][..i] && scope[..i][1..] == scope[1..][..i - 1];
      OthersSplit(scope[1..], i - 1, local);
    }
  }

  /** The inner loop: dependencies not visited yet are pushed and marked. */
  method PushDependencies(stack0: seq<Id>, visited0: set<Id>, deps: seq<Id>) returns (stack: seq<Id>, visited: set<Id>)
    requires forall x :: x in visited0 <==> x in stack0
    ensures stack == stack0 + Fresh(stack0, deps)
    ensures forall x :: x in visited <==> x in stack
  {
    stack, visited := stack0, visited0;
    assert deps[0..] == deps;
    for k := 0 to |deps|
      invariant forall x :: x in visited <==> x in stack
      invariant stack + Fresh(stack, deps[k..]) == stack0 + Fresh(stack0, deps)
    {
      assert deps[k..][1..] == deps[k + 1..];
      if deps[k] in visited {
        continue;
      }
      ghost var rest := Fresh(stack + [deps[k]], deps[k + 1..]);
      assert stack + ([deps[k]] + rest) == (stack + [deps[k]]) + rest;
      stack := stack + [deps[k]];
      visited := visited + {deps[k]};
    }
    assert deps[|deps|..] == [] && stack + [] == stack;
  }

  // ---------------------------------------------------------------------------------------------------
  // Unique names over a run

  /** One call, in whatever state of the loaded objects. */
  datatype Call = Call(name: Name, w: World, order: seq<Id>, r: Option<ObjectSymbol>)

  /** The unique map before and after each call of a run. */
  ghost predicate IsRun(maps: seq<UniqueMap>, calls: seq<Call>) {
    && |maps| == |calls| + 1
    && forall i | 0 <= i < |calls| ::
         Resolves(calls[i].w, calls[i].name, calls[i].order, maps[i], calls[i].r, maps[i + 1])
  }

  /** The call's first strong or unique definition is a unique one. */
  ghost predicate HitsUnique(c: Call) {
    exists k :: FirstSettles(c.w, c.name, c.order, k) && c.w.Visible(c.order[k], c.name).value.binding == Unique
  }

  lemma ResolvesKeeps(c: Call, unique: UniqueMap, unique': UniqueMap, name: Name)
    requires Resolves(c.w, c.name, c.order, unique, c.r, unique') && name in unique
    ensures name in unique' && unique'[name] == unique[name]
  {}

  lemma ResolvesBinds(c: Call, unique: UniqueMap, unique': UniqueMap)
    requires Resolves(c.w, c.name, c.order, unique, c.r, unique') && HitsUnique(c)
    ensures c.name in unique' && c.r == Some(unique'[c.name])
  {
    var k :| FirstSettles(c.w, c.name, c.order, k) && c.w.Visible(c.order[k], c.name).value.binding == Unique;
    var j :| FirstSettles(c.w, c.name, c.order, j) && Settled(c.w, c.name, c.order[j], unique, c.r, unique');
    assert j == k;
  }

  lemma {:induction false} BindingStays(maps: seq<UniqueMap>, calls: seq<Call>, i: nat, j: nat, name: Name)
    requires IsRun(maps, calls) && i <= j < |maps| && name in maps[i]
    ensures name in maps[j] && maps[j][name] == maps[i][name]
    decreases j
  {
    hide Resolves;
    if i < j {
      BindingStays(maps, calls, i, j - 1, name);
      ResolvesKeeps(calls[j - 1], maps[j - 1], maps[j], name);
    }
  }

  /** Over any run, all lookups of a name that hit a unique symbol give one and the same definition. */
  lemma UniqueIsUnique(maps: seq<UniqueMap>, calls: seq<Call>, i: nat, j: nat)
    requires IsRun(maps, calls) && i < j < |calls| && calls[i].name == calls[j].name
    requires HitsUnique(calls[i]) && HitsUnique(calls[j])
    ensures calls[i].r.Some? && calls[i].r == calls[j].r
  {
    hide Resolves, HitsUnique;
    ResolvesBinds(calls[i], maps[i], maps[i + 1]);
    ResolvesBinds(calls[j], maps[j], maps[j + 1]);
    BindingStays(maps, calls, i + 1, j + 1, calls[i].name);
  }

  /** Over any run from an empty map, every result is defined and not local, and so is everything recorded. */
  lemma {:induction false} RunRecorded(maps: seq<UniqueMap>, calls: seq<Call>, i: nat)
    requires IsRun(maps, calls) && maps[0] == map[] && i < |maps|
    ensures Recorded(maps[i])
    ensures i > 0 && calls[i - 1].r.Some? ==>
              calls[i - 1].r.value.sym.defined && calls[i - 1].r.value.sym.binding != Local
    decreases i
  {
    hide Resolves;
    if i > 0 {
      RunRecorded(maps, calls, i - 1);
      var c := calls[i - 1];
      LookupMeaning(c.w, c.name, c.order, maps[i - 1], c.r, maps[i]);
    }
  }
}
