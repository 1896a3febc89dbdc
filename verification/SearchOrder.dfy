/**
 Which declaration the search for generative AI reports when several are within reach: the one at the end of
 the least route, a route being the position of the ingredient taken at each hop. Shorter routes come first, and
 of equally long ones the one that takes the earlier ingredient where they part.
 */
module SearchOrder {
  import opened GenerativeAi
  import opened Options
  import opened Texts

  type Route = seq<nat>

  /** The manifest a route leads to from the active one, if every manifest on it is in the store. */
  function End(store: Store, route: Route): Option<Text> {
    if route == [] then
      if store.active.Some? && store.active.value in store.manifests then store.active else None
    else
      var p, k := End(store, route[..|route| - 1]), route[|route| - 1];
      if p.None? || p.value !in store.manifests || k >= |store.manifests[p.value].ingredients| then None
      else
        var next := store.manifests[p.value].ingredients[k].activeManifest;
        if next.Some? && next.value in store.manifests then next else None
  }

  /** Where the routes part, the first takes the earlier ingredient. */
  ghost predicate Precedes(p: Route, q: Route) {
    exists i | 0 <= i < |p| && i < |q| :: p[i] < q[i] && p[..i] == q[..i]
  }

  ghost predicate NotAfter(p: Route, q: Route) {
    p == q || Precedes(p, q)
  }

  /** The order in which the search goes. */
  ghost predicate Earlier(p: Route, q: Route) {
    |p| < |q| || (|p| == |q| && Precedes(p, q))
  }

  ghost predicate LeadsToDeclaration(store: Store, route: Route) {
    match End(store, route)
    case None => false
    case Some(l) => l in store.manifests && DeclaresGenerative(store.manifests[l])
  }

  // ---------------------------------------------------------------------------
  // The order of routes
  // ---------------------------------------------------------------------------

  lemma Transitive(p: Route, q: Route, r: Route)
    requires Precedes(p, q) && Precedes(q, r)
    ensures Precedes(p, r)
  {
    var i :| 0 <= i < |p| && i < |q| && p[i] < q[i] && p[..i] == q[..i];
    var j :| 0 <= j < |q| && j < |r| && q[j] < r[j] && q[..j] == r[..j];
    var k := if i <= j then i else j;
    assert p[..k] == p[..i][..k] && r[..k] == r[..j][..k] && q[..i][..k] == q[..j][..k];
    if i < j {
      assert q[i] == q[..j][i] == r[..j][i];
    } else if j < i {
      assert p[j] == p[..i][j] == q[..i][j];
    }
    assert p[k] < r[k] && p[..k] == r[..k];
  }

  lemma NextIngredient(r: Route, k: nat)
    ensures Precedes(r + [k], r + [k + 1])
  {
    assert (r + [k])[..|r|] == r && (r + [k + 1])[..|r|] == r;
  }

  lemma PartsEarlier(p: Route, q: Route, a: nat, b: nat)
    requires Precedes(p, q)
    ensures Precedes(p + [a], q + [b])
  {
    var i :| 0 <= i < |p| && i < |q| && p[i] < q[i] && p[..i] == q[..i];
    assert (p + [a])[..i] == p[..i] && (q + [b])[..i] == q[..i];
  }

  lemma SameHop(p: Route, q: Route, k: nat)
    requires NotAfter(p, q)
    ensures NotAfter(p + [k], q + [k])
  {
    if p != q {
      PartsEarlier(p, q, k, k);
    }
  }

  lemma NotAfterTwice(p: Route, q: Route, r: Route)
    requires NotAfter(p, q) && NotAfter(q, r)
    ensures NotAfter(p, r)
  {
    if p != q && q != r {
      Transitive(p, q, r);
    }
  }

  // ---------------------------------------------------------------------------
  // Routes and hops
  // ---------------------------------------------------------------------------

  lemma EndSnoc(store: Store, r: Route, k: nat, p: Text)
    requires End(store, r) == Some(p) && p in store.manifests
    ensures var ingredients := store.manifests[p].ingredients;
            End(store, r + [k])
            == if k < |ingredients| && ingredients[k].activeManifest.Some?
                  && ingredients[k].activeManifest.value in store.manifests
               then ingredients[k].activeManifest else None
  {
    assert (r + [k])[..|r|] == r;
  }

  lemma {:induction false} EndHops(store: Store, route: Route)
    ensures End(store, route).Some? ==>
              End(store, route).value in store.manifests && End(store, route).value in Hops(store, |route|)
  {
    if route != [] && End(store, route).Some? {
      var before, k := route[..|route| - 1], route[|route| - 1];
      EndHops(store, before);
      var p, l := End(store, before).value, End(store, route).value;
      assert store.manifests[p].ingredients[k] in store.manifests[p].ingredients;
      HopOn(store, |before|, p, l);
    }
  }

  /** Each label has a route of its own that leads to it, and the routes are in order. */
  ghost predicate InOrder(store: Store, labels: seq<Text>, routes: seq<Route>, depth: nat) {
    && |routes| == |labels|
    && (forall i | 0 <= i < |routes| :: |routes[i]| == depth && End(store, routes[i]) == Some(labels[i]))
    && (forall i, j | 0 <= i < j < |routes| :: Precedes(routes[i], routes[j]))
  }

  /** What the route leads to is among the labels, under a route that is not after it. */
  ghost predicate Covered(store: Store, labels: seq<Text>, routes: seq<Route>, q: Route) {
    exists i | 0 <= i < |labels| && i < |routes| :: End(store, q) == Some(labels[i]) && NotAfter(routes[i], q)
  }

  lemma CoveredLater(
    store: Store, labels: seq<Text>, routes: seq<Route>, labels': seq<Text>, routes': seq<Route>, q: Route)
    requires Covered(store, labels, routes, q) && labels <= labels' && routes <= routes'
    ensures Covered(store, labels', routes', q)
  {
    var i :| 0 <= i < |labels| && i < |routes| && End(store, q) == Some(labels[i]) && NotAfter(routes[i], q);
    assert labels'[i] == labels[i] && routes'[i] == routes[i];
  }

  ghost predicate AllBefore(routes: seq<Route>, r: Route) {
    forall i | 0 <= i < |routes| :: Precedes(routes[i], r)
  }

  lemma AllBeforeLater(routes: seq<Route>, q: Route, r: Route)
    requires AllBefore(routes, q) && Precedes(q, r)
    ensures AllBefore(routes, r)
  {
    forall i | 0 <= i < |routes|
      ensures Precedes(routes[i], r)
    {
      Transitive(routes[i], q, r);
    }
  }

  // ---------------------------------------------------------------------------
  // One level
  // ---------------------------------------------------------------------------

  /** While a level is being read: what is queued has its routes in order, and is what is present, seen now and
      was not seen before. */
  ghost predicate Queued(store: Store, s: Seen, routes: seq<Route>, was: set<Text>, depth: nat) {
    && InOrder(store, s.next, routes, depth)
    && was <= s.visited
    && (forall l | l in s.visited && l in store.manifests && l !in was :: l in s.next)
  }

  ghost predicate NewCovered(store: Store, s: Seen, routes: seq<Route>, was: set<Text>, q: Route) {
    End(store, q).Some? && End(store, q).value !in was ==> Covered(store, s.next, routes, q)
  }

  lemma NoteOne(
    store: Store, s: Seen, routes: seq<Route>, was: set<Text>, r: Route, p: Text, k: nat) returns (routes': seq<Route>)
    requires End(store, r) == Some(p) && p in store.manifests && k < |store.manifests[p].ingredients|
    requires Queued(store, s, routes, was, |r| + 1) && AllBefore(routes, r + [k])
    ensures var s' := Note(store, s, store.manifests[p].ingredients[k]);
            && Queued(store, s', routes', was, |r| + 1) && AllBefore(routes', r + [k + 1])
            && routes <= routes' && s.next <= s'.next
            && NewCovered(store, s', routes', was, r + [k])
  {
    var i := store.manifests[p].ingredients[k];
    var q := r + [k];
    EndSnoc(store, r, k, p);
    NextIngredient(r, k);
    AllBeforeLater(routes, q, r + [k + 1]);
    if i.activeManifest.Some? && i.activeManifest.value !in s.visited && i.activeManifest.value in store.manifests {
      routes' := routes + [q];
      assert End(store, q) == Some((s.next + [i.activeManifest.value])[|s.next|]) && NotAfter(routes'[|routes|], q);
    } else {
      routes' := routes;
      if End(store, q).Some? && End(store, q).value !in was {
        var n :| 0 <= n < |s.next| && s.next[n] == End(store, q).value;
        assert NotAfter(routes[n], q);
      }
    }
  }

  lemma {:induction false} NoteRoutes(
    store: Store, s: Seen, routes: seq<Route>, was: set<Text>, r: Route, p: Text, k: nat) returns (routes': seq<Route>)
    requires End(store, r) == Some(p) && p in store.manifests && k <= |store.manifests[p].ingredients|
    requires Queued(store, s, routes, was, |r| + 1) && AllBefore(routes, r + [0])
    ensures var s' := NoteAll(store, s, store.manifests[p].ingredients[..k]);
            && Queued(store, s', routes', was, |r| + 1) && AllBefore(routes', r + [k])
            && routes <= routes' && s.next <= s'.next
            && forall b: nat | b < k :: NewCovered(store, s', routes', was, r + [b])
  {
    var ingredients := store.manifests[p].ingredients;
    if k == 0 {
      routes' := routes;
    } else {
      var routes1 := NoteRoutes(store, s, routes, was, r, p, k - 1);
      var s1 := NoteAll(store, s, ingredients[..k - 1]);
      assert ingredients[..k][..k - 1] == ingredients[..k - 1];
      routes' := NoteOne(store, s1, routes1, was, r, p, k - 1);
      var s' := Note(store, s1, ingredients[k - 1]);
      forall b: nat | b < k
        ensures NewCovered(store, s', routes', was, r + [b])
      {
        StaysCovered(store, s1, routes1, s', routes', was, r + [b]);
      }
    }
  }

  lemma StaysCovered(
    store: Store, s: Seen, routes: seq<Route>, s': Seen, routes': seq<Route>, was: set<Text>, q: Route)
    requires s.next <= s'.next && routes <= routes'
    ensures NewCovered(store, s, routes, was, q) ==> NewCovered(store, s', routes', was, q)
  {
    if Covered(store, s.next, routes, q) {
      CoveredLater(store, s.next, routes, s'.next, routes', q);
    }
  }

  /** Whatever one more hop from this route leads to is covered. */
  ghost predicate HopCovered(store: Store, s: Seen, routes': seq<Route>, was: set<Text>, r: Route) {
    forall b: nat :: NewCovered(store, s, routes', was, r + [b])
  }

  ghost predicate HopsCovered(store: Store, s: Seen, routes': seq<Route>, was: set<Text>, routes: seq<Route>) {
    forall a | 0 <= a < |routes| :: HopCovered(store, s, routes', was, routes[a])
  }

  lemma HopsCoveredOne(
    store: Store, s1: Seen, routes1: seq<Route>, s: Seen, routes': seq<Route>, was: set<Text>, routes: seq<Route>, r: Route)
    requires s1.next <= s.next && routes1 <= routes' && HopsCovered(store, s1, routes1, was, routes)
    requires HopCovered(store, s, routes', was, r)
    ensures HopsCovered(store, s, routes', was, routes + [r])
  {
    forall a | 0 <= a < |routes|
      ensures HopCovered(store, s, routes', was, routes[a])
    {
      assert HopCovered(store, s1, routes1, was, routes[a]);
      forall b: nat
        ensures NewCovered(store, s, routes', was, routes[a] + [b])
      {
        StaysCovered(store, s1, routes1, s, routes', was, routes[a] + [b]);
      }
    }
  }

  lemma OnePast(
    store: Store, s1: Seen, routes1: seq<Route>, was: set<Text>, r: Route, p: Text) returns (routes': seq<Route>, k: nat)
    requires End(store, r) == Some(p) && p in store.manifests
    requires Queued(store, s1, routes1, was, |r| + 1) && AllBefore(routes1, r + [0])
    ensures var s := NoteAll(store, s1, store.manifests[p].ingredients);
            && Queued(store, s, routes', was, |r| + 1) && AllBefore(routes', r + [k])
            && routes1 <= routes' && s1.next <= s.next
            && HopCovered(store, s, routes', was, r)
  {
    var ingredients := store.manifests[p].ingredients;
    k := |ingredients|;
    assert ingredients[..k] == ingredients;
    routes' := NoteRoutes(store, s1, routes1, was, r, p, k);
    var s := NoteAll(store, s1, ingredients);
    forall b: nat
      ensures NewCovered(store, s, routes', was, r + [b])
    {
      EndSnoc(store, r, b, p);
    }
  }

  /** While the manifests on these routes have been read: the new routes are in order, all before some hop on from
      the last of the old ones, and cover every hop on. */
  ghost predicate LevelRead(store: Store, s: Seen, routes': seq<Route>, k: nat, was: set<Text>, routes: seq<Route>, depth: nat) {
    && Queued(store, s, routes', was, depth + 1)
    && HopsCovered(store, s, routes', was, routes)
    && (if routes == [] then routes' == [] else AllBefore(routes', routes[|routes| - 1] + [k]))
  }

  lemma LevelSnoc(
    store: Store, s1: Seen, routes1: seq<Route>, k1: nat, was: set<Text>, routes: seq<Route>, r: Route, p: Text, depth: nat)
    returns (routes': seq<Route>, k: nat)
    requires |r| == depth && End(store, r) == Some(p) && p in store.manifests
    requires LevelRead(store, s1, routes1, k1, was, routes, depth)
    requires routes != [] ==> Precedes(routes[|routes| - 1], r)
    ensures LevelRead(store, NoteAll(store, s1, store.manifests[p].ingredients), routes', k, was, routes + [r], depth)
  {
    if routes != [] {
      PartsEarlier(routes[|routes| - 1], r, k1, 0);
      AllBeforeLater(routes1, routes[|routes| - 1] + [k1], r + [0]);
    }
    routes', k := OnePast(store, s1, routes1, was, r, p);
    HopsCoveredOne(store, s1, routes1, NoteAll(store, s1, store.manifests[p].ingredients), routes', was, routes, r);
  }

  lemma InOrderFront(store: Store, frontier: seq<Text>, routes: seq<Route>, depth: nat)
    requires frontier != [] && AllPresent(store, frontier) && InOrder(store, frontier, routes, depth)
    ensures var n := |frontier| - 1;
            && AllPresent(store, frontier[..n]) && InOrder(store, frontier[..n], routes[..n], depth)
            && frontier[n] in store.manifests
            && |routes[n]| == depth && End(store, routes[n]) == Some(frontier[n])
            && routes == routes[..n] + [routes[n]]
            && (n > 0 ==> Precedes(routes[..n][n - 1], routes[n]))
  {
  }

  lemma AdvanceSnoc(store: Store, frontier: seq<Text>, was: set<Text>)
    requires frontier != [] && AllPresent(store, frontier)
    ensures var n := |frontier| - 1;
            Advance(store, frontier, was)
            == NoteAll(store, Advance(store, frontier[..n], was), store.manifests[frontier[n]].ingredients)
  {
  }

  lemma {:induction false} AdvanceRoutes(
    store: Store, frontier: seq<Text>, was: set<Text>, routes: seq<Route>, depth: nat)
    returns (s: Seen, routes': seq<Route>, k: nat)
    requires AllPresent(store, frontier) && InOrder(store, frontier, routes, depth)
    ensures s == Advance(store, frontier, was) && LevelRead(store, s, routes', k, was, routes, depth)
  {
    if frontier == [] {
      s, routes', k := Seen(was, []), [], 0;
    } else {
      var n := |frontier| - 1;
      InOrderFront(store, frontier, routes, depth);
      var s1, routes1, k1 := AdvanceRoutes(store, frontier[..n], was, routes[..n], depth);
      s := NoteAll(store, s1, store.manifests[frontier[n]].ingredients);
      AdvanceSnoc(store, frontier, was);
      routes', k := LevelSnoc(store, s1, routes1, k1, was, routes[..n], routes[n], frontier[n], depth);
    }
  }

  // ---------------------------------------------------------------------------
  // The whole search
  // ---------------------------------------------------------------------------

  /** The route leads to a manifest that no shorter one leads to. */
  ghost predicate Shortest(store: Store, depth: nat, q: Route) {
    |q| == depth && End(store, q).Some? && !WithinHops(store, depth - 1, End(store, q).value)
  }

  /** The frontier is in the order of its manifests' least routes. */
  ghost predicate Routed(store: Store, frontier: seq<Text>, routes: seq<Route>, depth: nat) {
    && InOrder(store, frontier, routes, depth)
    && (forall q: Route | Shortest(store, depth, q) :: Covered(store, frontier, routes, q))
  }

  lemma RoutedStep(store: Store, frontier: seq<Text>, visited: set<Text>, depth: nat, routes: seq<Route>)
    returns (routes': seq<Route>)
    requires AtDepth(store, frontier, visited, depth) && Routed(store, frontier, routes, depth)
    ensures Routed(store, Advance(store, frontier, visited).next, routes', depth + 1)
  {
    var s, k;
    s, routes', k := AdvanceRoutes(store, frontier, visited, routes, depth);
    forall q: Route | Shortest(store, depth + 1, q)
      ensures Covered(store, s.next, routes', q)
    {
      CoveredNext(store, frontier, visited, depth, routes, s, routes', q);
    }
  }

  lemma CoveredNext(
    store: Store, frontier: seq<Text>, visited: set<Text>, depth: nat, routes: seq<Route>, s: Seen, routes': seq<Route>,
    q: Route)
    requires AtDepth(store, frontier, visited, depth) && Routed(store, frontier, routes, depth)
    requires HopsCovered(store, s, routes', visited, routes)
    requires Shortest(store, depth + 1, q)
    ensures Covered(store, s.next, routes', q)
  {
    var before, b := q[..depth], q[depth];
    assert q == before + [b];
    var p := End(store, before).value;
    NearestParent(store, depth, before, b, p);
    assert Shortest(store, depth, before);
    var a :| 0 <= a < |frontier| && p == frontier[a] && NotAfter(routes[a], before);
    EndSnoc(store, routes[a], b, p);
    EndSnoc(store, before, b, p);
    assert HopCovered(store, s, routes', visited, routes[a]);
    assert NewCovered(store, s, routes', visited, routes[a] + [b]);
    SameHop(routes[a], before, b);
    CoveredBefore(store, s.next, routes', routes[a] + [b], q);
  }

  /** What is not nearer has no nearer parent. */
  lemma NearestParent(store: Store, depth: nat, before: Route, b: nat, p: Text)
    requires End(store, before) == Some(p) && End(store, before + [b]).Some?
    requires !WithinHops(store, depth, End(store, before + [b]).value)
    ensures p in store.manifests && !WithinHops(store, depth - 1, p)
  {
    EndHops(store, before);
    EndSnoc(store, before, b, p);
    assert store.manifests[p].ingredients[b] in store.manifests[p].ingredients;
    if WithinHops(store, depth - 1, p) {
      WithinOn(store, depth - 1, p, End(store, before + [b]).value);
    }
  }

  lemma CoveredBefore(store: Store, labels: seq<Text>, routes: seq<Route>, p: Route, q: Route)
    requires Covered(store, labels, routes, p) && End(store, p) == End(store, q) && NotAfter(p, q)
    ensures Covered(store, labels, routes, q)
  {
    var i :| 0 <= i < |labels| && i < |routes| && End(store, p) == Some(labels[i]) && NotAfter(routes[i], p);
    NotAfterTwice(routes[i], p, q);
  }

  lemma {:induction false} FirstHitPosition(store: Store, frontier: seq<Text>) returns (i: nat)
    requires AllPresent(store, frontier) && FirstHit(store, frontier).Some?
    ensures i < |frontier| && FirstHit(store, frontier) == Declared(store, frontier[i])
    ensures forall j | 0 <= j < i :: Declared(store, frontier[j]).None?
  {
    var n := |frontier| - 1;
    if FirstHit(store, frontier[..n]).Some? {
      i := FirstHitPosition(store, frontier[..n]);
      assert forall j | 0 <= j <= i :: frontier[..n][j] == frontier[j];
    } else {
      i := n;
      FirstHitSpec(store, frontier[..n]);
      assert forall j | 0 <= j < n :: frontier[..n][j] == frontier[j];
    }
  }

  /** The route leads to this hit, and every other route to a declaration comes later. */
  ghost predicate LeastTo(store: Store, route: Route, s: Source) {
    && End(store, route) == Some(s.labelText)
    && forall other: Route | LeadsToDeclaration(store, other) :: other == route || Earlier(route, other)
  }

  lemma HitLeast(store: Store, frontier: seq<Text>, visited: set<Text>, depth: nat, routes: seq<Route>)
    returns (route: Route)
    requires AtDepth(store, frontier, visited, depth) && Routed(store, frontier, routes, depth)
    requires FirstHit(store, frontier).Some?
    ensures |route| == depth && LeastTo(store, route, FirstHit(store, frontier).value)
  {
    var i := FirstHitPosition(store, frontier);
    route := routes[i];
    DeclaredIffGenerative(store, frontier[i]);
    forall other: Route | LeadsToDeclaration(store, other)
      ensures other == route || Earlier(route, other)
    {
      OtherLater(store, frontier, visited, depth, routes, i, other);
    }
  }

  lemma OtherLater(
    store: Store, frontier: seq<Text>, visited: set<Text>, depth: nat, routes: seq<Route>, i: nat, other: Route)
    requires AtDepth(store, frontier, visited, depth) && Routed(store, frontier, routes, depth)
    requires i < |frontier| && forall j | 0 <= j < i :: Declared(store, frontier[j]).None?
    requires LeadsToDeclaration(store, other)
    ensures other == routes[i] || Earlier(routes[i], other)
  {
    EndHops(store, other);
    var l := End(store, other).value;
    DeclaredIffGenerative(store, l);
    assert !WithinHops(store, depth - 1, l);
    assert |other| >= depth;
    if |other| == depth {
      assert Shortest(store, depth, other);
      var j :| 0 <= j < |frontier| && l == frontier[j] && NotAfter(routes[j], other);
      assert j >= i;
      NotAfterTwice(routes[i], routes[j], other);
    }
  }

  lemma WalkSome(store: Store, frontier: seq<Text>, visited: set<Text>, depth: nat)
    requires AllPresent(store, frontier) && Walk(store, frontier, visited, depth).Some?
    ensures depth <= 16 && frontier != []
    ensures FirstHit(store, frontier).Some? ==> Walk(store, frontier, visited, depth) == FirstHit(store, frontier)
  {
  }

  lemma LevelStep(store: Store, frontier: seq<Text>, visited: set<Text>, depth: nat, routes: seq<Route>, hit: Source)
    returns (s: Seen, routes': seq<Route>)
    requires AtDepth(store, frontier, visited, depth) && Routed(store, frontier, routes, depth)
    requires Walk(store, frontier, visited, depth) == Some(hit) && FirstHit(store, frontier).None?
    ensures depth <= 16 && AtDepth(store, s.next, s.visited, depth + 1) && Routed(store, s.next, routes', depth + 1)
    ensures Walk(store, s.next, s.visited, depth + 1) == Some(hit)
  {
    WalkSome(store, frontier, visited, depth);
    s := Deeper(store, frontier, visited, depth);
    routes' := RoutedStep(store, frontier, visited, depth, routes);
  }

  lemma {:induction false} WalkLeast(
    store: Store, frontier: seq<Text>, visited: set<Text>, depth: nat, routes: seq<Route>, hit: Source)
    returns (route: Route)
    requires AtDepth(store, frontier, visited, depth) && Routed(store, frontier, routes, depth)
    requires Walk(store, frontier, visited, depth) == Some(hit)
    ensures |route| <= 16 && LeastTo(store, route, hit)
    decreases 17 - depth
  {
    WalkSome(store, frontier, visited, depth);
    if FirstHit(store, frontier).Some? {
      route := HitLeast(store, frontier, visited, depth, routes);
    } else {
      var s, routes' := LevelStep(store, frontier, visited, depth, routes, hit);
      route := WalkLeast(store, s.next, s.visited, depth + 1, routes', hit);
    }
  }

  lemma LeastFound(store: Store) returns (route: Route)
    requires Find(store).Some?
    ensures |route| <= 16 && LeastTo(store, route, Find(store).value)
  {
    var a := store.active.value;
    StartAtDepth(store);
    forall q: Route | Shortest(store, 0, q)
      ensures Covered(store, [a], [[]], q)
    {
      assert End(store, q) == Some([a][0]) && NotAfter([[]][0], q);
    }
    route := WalkLeast(store, [a], {a}, 0, [[]], Find(store).value);
  }

  /**
   Main result: the search reports the first declaration, in document order, of the manifest at the end of the least
   of all routes that lead to a declaration; and nothing exactly when no route of at most 16 hops does.
   */
  lemma FoundOnLeastRoute(store: Store)
    ensures match Find(store)
            case None => forall route: Route | |route| <= 16 :: !LeadsToDeclaration(store, route)
            case Some(s) =>
              && s.labelText in store.manifests
              && FirstDeclaration(store.manifests[s.labelText], s.action, s.sourceType)
              && exists route: Route :: |route| <= 16 && LeastTo(store, route, s) && LeadsToDeclaration(store, route)
  {
    FoundIffReachable(store);
    match Find(store)
    case None =>
      forall route: Route | |route| <= 16
        ensures !LeadsToDeclaration(store, route)
      {
        EndHops(store, route);
      }
    case Some(s) =>
      var route := LeastFound(store);
      FindCorrect(store);
      DeclaredIffGenerative(store, s.labelText);
  }
}
