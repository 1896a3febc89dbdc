/**
 The search for a generative-AI declaration: a breadth-first, cycle-guarded and depth-capped
 walk from the active manifest along ingredients. The loops are proved against `Find`, and
 `Find` against reachability.
 */
module GenerativeAi {
  import opened ActionEntries
  import opened Options
  import opened Texts

  datatype Store = Store(active: Option<Text>, manifests: map<Text, Manifest>)

  datatype Source = Source(labelText: Text, action: Text, sourceType: Text)

  const REACHABLE_MAX_DEPTH: nat := 16

  const HTTPS: Text := Units("https://")
  const HTTP: Text := Units("http://")
  const IPTC_DIGITAL_SOURCE_TYPE: string := "http://" + "cv.iptc.org/newscodes/digitalsourcetype/"
  const TRAINED: Text := Units(IPTC_DIGITAL_SOURCE_TYPE + "trainedAlgorithmicMedia")
  const COMPOSITE: Text := Units(IPTC_DIGITAL_SOURCE_TYPE + "compositeWithTrainedAlgorithmicMedia")

  function PlainHttp(uri: Text): Text {
    if HTTPS <= uri then HTTP + uri[|HTTPS|..] else uri
  }

  predicate IsGenerative(uri: Text) {
    PlainHttp(uri) == TRAINED || PlainHttp(uri) == COMPOSITE
  }

  predicate Listed(e: Entry) {
    e.sourceType.Some? && e.sourceType.value != [] && IsGenerative(e.sourceType.value)
  }

  /** The address of a page, in either spelling. */
  predicate IsAddressOf(uri: Text, page: string) {
    uri == Units("http://" + page) || uri == Units("https://" + page)
  }

  /** The two terms that mean generated content, each in both spellings of its address. */
  predicate IsGenerativeTerm(uri: Text) {
    || IsAddressOf(uri, "cv.iptc.org/newscodes/digitalsourcetype/" + "trainedAlgorithmicMedia")
    || IsAddressOf(uri, "cv.iptc.org/newscodes/digitalsourcetype/" + "compositeWithTrainedAlgorithmicMedia")
  }

  lemma UnitsAppend(a: string, b: string)
    ensures Units(a + b) == Units(a) + Units(b)
  {
  }

  /** An address becomes the plain one of this path exactly when it is that, in either spelling. */
  lemma PlainIff(uri: Text, path: string)
    ensures PlainHttp(uri) == HTTP + Units(path) <==> uri == Units("http://" + path) || uri == Units("https://" + path)
  {
    UnitsAppend("http://", path);
    UnitsAppend("https://", path);
    var plain, secure := HTTP + Units(path), HTTPS + Units(path);
    SchemesApart(plain);
    if HTTPS <= uri {
      var rest := uri[|HTTPS|..];
      assert uri == HTTPS + rest;
      assert (HTTP + rest)[|HTTP|..] == rest && plain[|HTTP|..] == Units(path);
      assert secure[|HTTPS|..] == Units(path);
    }
  }

  lemma SchemesApart(uri: Text)
    requires HTTP <= uri
    ensures !(HTTPS <= uri)
  {
    assert "http://"[4] == ':' && "https://"[4] == 's';
    assert uri[4] == HTTP[4] == 0x3A;
    assert HTTPS[4] == 0x73;
  }

  lemma TermSpelled(uri: Text, base: string, term: string)
    ensures PlainHttp(uri) == Units("http://" + base + term) <==> IsAddressOf(uri, base + term)
  {
    assert "http://" + base + term == "http://" + (base + term);
    PlainIff(uri, base + term);
    UnitsAppend("http://", base + term);
  }

  lemma GenerativeIff(uri: Text)
    ensures IsGenerative(uri) <==> IsGenerativeTerm(uri)
  {
    TermSpelled(uri, "cv.iptc.org/newscodes/digitalsourcetype/", "trainedAlgorithmicMedia");
    TermSpelled(uri, "cv.iptc.org/newscodes/digitalsourcetype/", "compositeWithTrainedAlgorithmicMedia");
  }

  /** Which entries count: those whose source type is one of the four spelled-out addresses. */
  ghost predicate IsGenerativeEntry(e: Entry) {
    e.sourceType.Some? && IsGenerativeTerm(e.sourceType.value)
  }

  lemma ListedIff(e: Entry)
    ensures Listed(e) <==> IsGenerativeEntry(e)
  {
    if e.sourceType.Some? {
      GenerativeIff(e.sourceType.value);
    }
  }

  /** The first listed entry. */
  function FirstListed(entries: seq<Entry>): Option<Entry> {
    if entries == [] then None
    else
      var before := FirstListed(entries[..|entries| - 1]);
      if before.Some? then before
      else if Listed(entries[|entries| - 1]) then Some(entries[|entries| - 1])
      else None
  }

  lemma {:induction false} FirstListedSpec(entries: seq<Entry>)
    ensures FirstListed(entries).None? <==> forall e | e in entries :: !Listed(e)
    ensures FirstListed(entries).Some? ==> FirstListed(entries).value in entries && Listed(FirstListed(entries).value)
  {
    if entries != [] {
      var before, last := entries[..|entries| - 1], entries[|entries| - 1];
      FirstListedSpec(before);
      assert entries == before + [last];
    }
  }

  lemma FirstListedNext(entries: seq<Entry>, i: nat)
    requires i < |entries| && FirstListed(entries[..i]).None?
    ensures FirstListed(entries[..i + 1]) == if Listed(entries[i]) then Some(entries[i]) else None
  {
    assert entries[..i + 1][..i] == entries[..i];
  }

  lemma {:induction false} FirstListedStays(entries: seq<Entry>, i: nat)
    requires i <= |entries| && FirstListed(entries[..i]).Some?
    ensures FirstListed(entries) == FirstListed(entries[..i])
    decreases |entries|
  {
    if i == |entries| {
      assert entries[..i] == entries;
    } else {
      var before := entries[..|entries| - 1];
      assert before[..i] == entries[..i];
      FirstListedStays(before, i);
    }
  }

  // ---------------------------------------------------------------------------
  // The walk on values
  // ---------------------------------------------------------------------------

  function SourceIn(l: Text, entries: seq<Entry>): Option<Source> {
    var e := FirstListed(entries);
    if e.Some? && e.value.sourceType.Some?
    then Some(Source(l, e.value.action, e.value.sourceType.value)) else None
  }

  function Declared(store: Store, l: Text): Option<Source>
    requires l in store.manifests
  {
    SourceIn(l, ManifestEntries(store.manifests[l]))
  }

  /** Labels already seen, and the manifests to visit next. */
  datatype Seen = Seen(visited: set<Text>, next: seq<Text>)

  function Note(store: Store, s: Seen, i: Ingredient): Seen {
    if i.activeManifest.None? || i.activeManifest.value in s.visited then s
    else
      var ref := i.activeManifest.value;
      Seen(s.visited + {ref}, if ref in store.manifests then s.next + [ref] else s.next)
  }

  function NoteAll(store: Store, s: Seen, ingredients: seq<Ingredient>): Seen {
    if ingredients == [] then s
    else Note(store, NoteAll(store, s, ingredients[..|ingredients| - 1]), ingredients[|ingredients| - 1])
  }

  predicate AllPresent(store: Store, frontier: seq<Text>) {
    forall i | 0 <= i < |frontier| :: frontier[i] in store.manifests
  }

  function Advance(store: Store, frontier: seq<Text>, visited: set<Text>): (r: Seen)
    requires AllPresent(store, frontier)
  {
    if frontier == [] then Seen(visited, [])
    else
      var before, last := frontier[..|frontier| - 1], frontier[|frontier| - 1];
      NoteAll(store, Advance(store, before, visited), store.manifests[last].ingredients)
  }

  function FirstHit(store: Store, frontier: seq<Text>): Option<Source>
    requires AllPresent(store, frontier)
  {
    if frontier == [] then None
    else
      var before, last := frontier[..|frontier| - 1], frontier[|frontier| - 1];
      var hit := FirstHit(store, before);
      if hit.Some? then hit else Declared(store, last)
  }

  lemma {:induction false} NoteAllPresent(store: Store, s: Seen, ingredients: seq<Ingredient>)
    requires AllPresent(store, s.next)
    ensures AllPresent(store, NoteAll(store, s, ingredients).next)
  {
    if ingredients != [] {
      NoteAllPresent(store, s, ingredients[..|ingredients| - 1]);
    }
  }

  lemma {:induction false} AdvancePresent(store: Store, frontier: seq<Text>, visited: set<Text>)
    requires AllPresent(store, frontier)
    ensures AllPresent(store, Advance(store, frontier, visited).next)
  {
    if frontier != [] {
      var before, last := frontier[..|frontier| - 1], frontier[|frontier| - 1];
      AdvancePresent(store, before, visited);
      NoteAllPresent(store, Advance(store, before, visited), store.manifests[last].ingredients);
    }
  }

  function Walk(store: Store, frontier: seq<Text>, visited: set<Text>, depth: nat): Option<Source>
    requires AllPresent(store, frontier)
    decreases REACHABLE_MAX_DEPTH + 1 - depth
  {
    if depth > REACHABLE_MAX_DEPTH || frontier == [] then None
    else
      var hit := FirstHit(store, frontier);
      if hit.Some? then hit
      else
        AdvancePresent(store, frontier, visited);
        var seen := Advance(store, frontier, visited);
        Walk(store, seen.next, seen.visited, depth + 1)
  }

  function Find(store: Store): Option<Source> {
    if store.active.None? || store.active.value !in store.manifests then None
    else Walk(store, [store.active.value], {store.active.value}, 0)
  }

  lemma {:induction false} FirstHitStays(store: Store, frontier: seq<Text>, i: nat)
    requires AllPresent(store, frontier) && i <= |frontier| && FirstHit(store, frontier[..i]).Some?
    ensures FirstHit(store, frontier) == FirstHit(store, frontier[..i])
    decreases |frontier|
  {
    if i == |frontier| {
      assert frontier[..i] == frontier;
    } else {
      var before := frontier[..|frontier| - 1];
      assert before[..i] == frontier[..i];
      FirstHitStays(store, before, i);
    }
  }

  // ---------------------------------------------------------------------------
  // The loops
  // ---------------------------------------------------------------------------

  method FindInEntries(l: Text, m: Manifest) returns (r: Option<Source>)
    ensures r == SourceIn(l, ManifestEntries(m))
  {
    var entries := ExtractActionEntries(m);
    var i := 0;
    while i < |entries|
      invariant 0 <= i <= |entries|
      invariant FirstListed(entries[..i]).None?
    {
      var e := entries[i];
      FirstListedNext(entries, i);
      if Listed(e) {
        FirstListedStays(entries, i + 1);
        return Some(Source(l, e.action, e.sourceType.value));
      }
      i := i + 1;
    }
    assert entries[..i] == entries;
    r := None;
  }

  /** The loop over one manifest's ingredients. */
  method NoteIngredients(store: Store, ingredients: seq<Ingredient>, seen: set<Text>, found: seq<Text>)
    returns (visited: set<Text>, next: seq<Text>)
    ensures Seen(visited, next) == NoteAll(store, Seen(seen, found), ingredients)
  {
    visited, next := seen, found;
    var j := 0;
    assert ingredients[..0] == [];
    while j < |ingredients|
      invariant 0 <= j <= |ingredients|
      invariant Seen(visited, next) == NoteAll(store, Seen(seen, found), ingredients[..j])
    {
      var ref := ingredients[j].activeManifest;
      assert ingredients[..j + 1][..j] == ingredients[..j];
      if ref.Some? && ref.value !in visited {
        visited := visited + {ref.value};
        if ref.value in store.manifests {
          next := next + [ref.value];
        }
      }
      j := j + 1;
    }
    assert ingredients[..j] == ingredients;
  }

  method FindGenerativeAiSource(store: Store) returns (r: Option<Source>)
    ensures r == Find(store)
  {
    if store.active.None? || store.active.value !in store.manifests {
      return None;
    }
    var visited, frontier := {store.active.value}, [store.active.value];
    var depth := 0;
    while depth <= REACHABLE_MAX_DEPTH && |frontier| > 0
      invariant 0 <= depth <= REACHABLE_MAX_DEPTH + 1
      invariant AllPresent(store, frontier)
      invariant Find(store) == Walk(store, frontier, visited, depth)
    {
      ghost var before := visited;
      var next: seq<Text> := [];
      var i := 0;
      while i < |frontier|
        invariant 0 <= i <= |frontier|
        invariant FirstHit(store, frontier[..i]).None?
        invariant Seen(visited, next) == Advance(store, frontier[..i], before)
      {
        var l := frontier[i];
        var m := store.manifests[l];
        assert frontier[..i + 1][..i] == frontier[..i];
        r := FindInEntries(l, m);
        if r.Some? {
          FirstHitStays(store, frontier, i + 1);
          return r;
        }
        visited, next := NoteIngredients(store, m.ingredients, visited, next);
        i := i + 1;
      }
      assert frontier[..i] == frontier;
      AdvancePresent(store, frontier, before);
      frontier := next;
      depth := depth + 1;
    }
    r := None;
  }

  // ---------------------------------------------------------------------------
  // Reachability
  // ---------------------------------------------------------------------------

  predicate RefersTo(m: Manifest, l: Text) {
    exists i | i in m.ingredients :: i.activeManifest == Some(l)
  }

  ghost predicate HasParent(store: Store, parents: set<Text>, l: Text) {
    exists p | p in parents :: p in store.manifests && RefersTo(store.manifests[p], l)
  }

  /** The manifests exactly `n` ingredient hops from the active one, along some chain. */
  ghost function Hops(store: Store, n: nat): set<Text> {
    if n == 0 then
      if store.active.Some? && store.active.value in store.manifests then {store.active.value} else {}
    else
      set l | l in store.manifests && HasParent(store, Hops(store, n - 1), l)
  }

  ghost predicate WithinHops(store: Store, n: int, l: Text) {
    exists m: nat :: m <= n && l in Hops(store, m)
  }

  /** Some action of the manifest, to the nesting depth that is read, declares one of the four addresses. */
  ghost predicate DeclaresGenerative(m: Manifest) {
    exists e :: Declares(m, e) && IsGenerativeEntry(e)
  }

  /** The first entry of the manifest, in document order, with such an address has this action and type. */
  ghost predicate FirstDeclaration(m: Manifest, action: Text, sourceType: Text) {
    exists k: nat | k < |ManifestEntries(m)| ::
      && ManifestEntries(m)[k].action == action && ManifestEntries(m)[k].sourceType == Some(sourceType)
      && IsGenerativeTerm(sourceType)
      && forall j | 0 <= j < k :: !IsGenerativeEntry(ManifestEntries(m)[j])
  }

  lemma {:induction false} FirstListedPosition(entries: seq<Entry>) returns (k: nat)
    requires FirstListed(entries).Some?
    ensures k < |entries| && entries[k] == FirstListed(entries).value
    ensures forall j | 0 <= j < k :: !Listed(entries[j])
  {
    var n := |entries| - 1;
    var before := entries[..n];
    if FirstListed(before).Some? {
      k := FirstListedPosition(before);
      assert forall j | 0 <= j <= k :: before[j] == entries[j];
    } else {
      k := n;
      FirstListedSpec(before);
      forall j | 0 <= j < n
        ensures !Listed(entries[j])
      {
        assert before[j] in before;
      }
    }
  }

  lemma FirstIsDeclaration(m: Manifest)
    requires FirstListed(ManifestEntries(m)).Some?
    ensures var e := FirstListed(ManifestEntries(m)).value;
            e.sourceType.Some? && FirstDeclaration(m, e.action, e.sourceType.value)
  {
    var entries := ManifestEntries(m);
    var k := FirstListedPosition(entries);
    FirstListedSpec(entries);
    ListedIff(entries[k]);
    forall j | 0 <= j < k
      ensures !IsGenerativeEntry(entries[j])
    {
      ListedIff(entries[j]);
    }
  }

  lemma ListedEntryDeclared(m: Manifest)
    ensures FirstListed(ManifestEntries(m)).Some? <==> DeclaresGenerative(m)
    ensures FirstListed(ManifestEntries(m)).Some? ==>
              var e := FirstListed(ManifestEntries(m)).value;
              Declares(m, e) && e.sourceType.Some? && FirstDeclaration(m, e.action, e.sourceType.value)
  {
    FirstListedSpec(ManifestEntries(m));
    var found := FirstListed(ManifestEntries(m));
    if found.Some? {
      EntriesAreDeclared(m, found.value);
      ListedIff(found.value);
      FirstIsDeclaration(m);
    }
    if DeclaresGenerative(m) {
      var e :| Declares(m, e) && IsGenerativeEntry(e);
      EntriesAreDeclared(m, e);
      ListedIff(e);
    }
  }

  lemma DeclaredIffGenerative(store: Store, l: Text)
    requires l in store.manifests
    ensures Declared(store, l).Some? <==> DeclaresGenerative(store.manifests[l])
    ensures Declared(store, l).Some? ==>
              var s := Declared(store, l).value;
              s.labelText == l && FirstDeclaration(store.manifests[l], s.action, s.sourceType)
  {
    ListedEntryDeclared(store.manifests[l]);
  }

  lemma {:induction false} NoteAllSpec(store: Store, s: Seen, ingredients: seq<Ingredient>)
    ensures var r := NoteAll(store, s, ingredients);
            && (forall l :: l in r.visited <==> l in s.visited || exists i | i in ingredients :: i.activeManifest == Some(l))
            && (forall l :: l in r.next <==> l in s.next || (l in r.visited && l !in s.visited && l in store.manifests))
  {
    if ingredients != [] {
      var before, last := ingredients[..|ingredients| - 1], ingredients[|ingredients| - 1];
      NoteAllSpec(store, s, before);
      assert ingredients == before + [last];
      var r := NoteAll(store, s, ingredients);
      forall l
        ensures l in r.visited <==> l in s.visited || exists i | i in ingredients :: i.activeManifest == Some(l)
      {
        if exists i | i in before :: i.activeManifest == Some(l) {
          var i :| i in before && i.activeManifest == Some(l);
          assert i in ingredients;
        }
        if last.activeManifest == Some(l) {
          assert last in ingredients;
        }
      }
    }
  }

  /** What one level finds: everything its manifests refer to becomes visited, and what is new
      and present is next. */
  lemma {:induction false} AdvanceSpec(store: Store, frontier: seq<Text>, visited: set<Text>)
    requires AllPresent(store, frontier)
    ensures var r := Advance(store, frontier, visited);
            && (forall l :: l in r.visited <==>
                  l in visited || exists i | 0 <= i < |frontier| :: RefersTo(store.manifests[frontier[i]], l))
            && (forall l :: l in r.next <==> l in r.visited && l !in visited && l in store.manifests)
  {
    if frontier != [] {
      var before, last := frontier[..|frontier| - 1], frontier[|frontier| - 1];
      AdvanceSpec(store, before, visited);
      var s := Advance(store, before, visited);
      NoteAllSpec(store, s, store.manifests[last].ingredients);
      var r := Advance(store, frontier, visited);
      forall l
        ensures l in r.visited <==>
                  l in visited || exists i | 0 <= i < |frontier| :: RefersTo(store.manifests[frontier[i]], l)
      {
        if exists i | 0 <= i < |before| :: RefersTo(store.manifests[before[i]], l) {
          var i :| 0 <= i < |before| && RefersTo(store.manifests[before[i]], l);
          assert RefersTo(store.manifests[frontier[i]], l);
        }
        if RefersTo(store.manifests[last], l) {
          assert RefersTo(store.manifests[frontier[|frontier| - 1]], l);
        }
        if exists i | 0 <= i < |frontier| :: RefersTo(store.manifests[frontier[i]], l) {
          var i :| 0 <= i < |frontier| && RefersTo(store.manifests[frontier[i]], l);
          if i < |before| {
            assert RefersTo(store.manifests[before[i]], l);
          }
        }
      }
    }
  }

  lemma {:induction false} FirstHitSpec(store: Store, frontier: seq<Text>)
    requires AllPresent(store, frontier)
    ensures var hit := FirstHit(store, frontier);
            && (hit.None? <==> forall i | 0 <= i < |frontier| :: Declared(store, frontier[i]).None?)
            && (hit.Some? ==> hit.value.labelText in frontier && Declared(store, hit.value.labelText) == hit)
  {
    if frontier != [] {
      FirstHitSpec(store, frontier[..|frontier| - 1]);
    }
  }

  /** The state of the walk at a depth: the frontier is the manifests at exactly that distance,
      what is visited and present is within it, and nothing nearer declares. */
  ghost predicate AtDepth(store: Store, frontier: seq<Text>, visited: set<Text>, depth: nat) {
    && AllPresent(store, frontier)
    && (forall l :: l in frontier <==> l in Hops(store, depth) && !WithinHops(store, depth - 1, l))
    && (forall l | l in store.manifests :: l in visited <==> WithinHops(store, depth, l))
    && (forall l | WithinHops(store, depth - 1, l) && l in store.manifests :: Declared(store, l).None?)
  }

  lemma {:induction false} HopsPresent(store: Store, n: nat)
    ensures forall l | l in Hops(store, n) :: l in store.manifests
  {
  }

  lemma WithinStep(store: Store, n: nat, l: Text)
    ensures WithinHops(store, n, l) <==> WithinHops(store, n - 1, l) || l in Hops(store, n)
  {
    if WithinHops(store, n, l) {
      var m: nat :| m <= n && l in Hops(store, m);
    }
  }

  lemma HopOn(store: Store, n: nat, p: Text, l: Text)
    requires p in Hops(store, n) && p in store.manifests && l in store.manifests && RefersTo(store.manifests[p], l)
    ensures l in Hops(store, n + 1)
  {
    assert HasParent(store, Hops(store, n), l);
  }

  lemma HopBack(store: Store, n: nat, l: Text) returns (p: Text)
    requires n > 0 && l in Hops(store, n)
    ensures l in store.manifests
    ensures p in Hops(store, n - 1) && p in store.manifests && RefersTo(store.manifests[p], l)
  {
    assert HasParent(store, Hops(store, n - 1), l);
    p :| p in Hops(store, n - 1) && p in store.manifests && RefersTo(store.manifests[p], l);
  }

  lemma WithinOn(store: Store, n: int, p: Text, l: Text)
    requires WithinHops(store, n, p) && p in store.manifests && l in store.manifests
    requires RefersTo(store.manifests[p], l)
    ensures WithinHops(store, n + 1, l)
  {
    var m: nat :| m <= n && p in Hops(store, m);
    HopOn(store, m, p, l);
  }

  lemma NextDepth(store: Store, frontier: seq<Text>, visited: set<Text>, depth: nat, l: Text)
    requires AtDepth(store, frontier, visited, depth) && l in store.manifests
    ensures l in Advance(store, frontier, visited).visited <==> WithinHops(store, depth + 1, l)
  {
    AdvanceSpec(store, frontier, visited);
    WithinStep(store, depth + 1, l);
    if exists i | 0 <= i < |frontier| :: RefersTo(store.manifests[frontier[i]], l) {
      var i :| 0 <= i < |frontier| && RefersTo(store.manifests[frontier[i]], l);
      assert frontier[i] in frontier;
      HopOn(store, depth, frontier[i], l);
    }
    if l in Hops(store, depth + 1) && !WithinHops(store, depth, l) {
      NewHasFrontierParent(store, frontier, visited, depth, l);
    }
  }

  lemma NewHasFrontierParent(store: Store, frontier: seq<Text>, visited: set<Text>, depth: nat, l: Text)
    requires AtDepth(store, frontier, visited, depth)
    requires l in Hops(store, depth + 1) && !WithinHops(store, depth, l)
    ensures exists i | 0 <= i < |frontier| :: RefersTo(store.manifests[frontier[i]], l)
  {
    var p := HopBack(store, depth + 1, l);
    if WithinHops(store, depth - 1, p) {
      WithinOn(store, depth - 1, p, l);
    }
    assert p in frontier;
    var i :| 0 <= i < |frontier| && frontier[i] == p;
  }

  lemma DepthStep(store: Store, frontier: seq<Text>, visited: set<Text>, depth: nat)
    requires AtDepth(store, frontier, visited, depth) && FirstHit(store, frontier).None?
    ensures var s := Advance(store, frontier, visited);
            AtDepth(store, s.next, s.visited, depth + 1)
  {
    var s := Advance(store, frontier, visited);
    AdvancePresent(store, frontier, visited);
    AdvanceSpec(store, frontier, visited);
    FirstHitSpec(store, frontier);
    HopsPresent(store, depth + 1);
    HopsPresent(store, depth);
    forall l | l in store.manifests
      ensures l in s.visited <==> WithinHops(store, depth + 1, l)
    {
      NextDepth(store, frontier, visited, depth, l);
    }
    forall l
      ensures l in s.next <==> l in Hops(store, depth + 1) && !WithinHops(store, depth, l)
    {
      WithinStep(store, depth + 1, l);
    }
    forall l | WithinHops(store, depth, l) && l in store.manifests
      ensures Declared(store, l).None?
    {
      WithinStep(store, depth, l);
      if !WithinHops(store, depth - 1, l) {
        assert l in frontier;
      }
    }
  }

  /** Past an empty level there is nothing further away. */
  lemma {:induction false} NothingFurther(store: Store, depth: nat, n: nat, l: Text)
    requires depth <= n && l in Hops(store, n)
    requires forall p | p in Hops(store, depth) :: WithinHops(store, depth - 1, p)
    ensures WithinHops(store, depth - 1, l)
    decreases n
  {
    if n > depth {
      var p := HopBack(store, n, l);
      NothingFurther(store, depth, n - 1, p);
      WithinOn(store, depth - 1, p, l);
      WithinStep(store, depth, l);
    }
  }

  /** What a search result promises. */
  ghost predicate Correct(store: Store, r: Option<Source>) {
    match r
    case None => forall l, n: nat | n <= REACHABLE_MAX_DEPTH && l in Hops(store, n) ::
                   l in store.manifests ==> Declared(store, l).None?
    case Some(s) =>
      && s.labelText in store.manifests
      && Declared(store, s.labelText) == r
      && exists n: nat ::
           && n <= REACHABLE_MAX_DEPTH
           && s.labelText in Hops(store, n)
           && forall l, m: nat | m < n && l in Hops(store, m) :: l in store.manifests ==> Declared(store, l).None?
  }

  lemma NothingNearer(store: Store, frontier: seq<Text>, visited: set<Text>, depth: nat, l: Text, m: nat)
    requires AtDepth(store, frontier, visited, depth) && m < depth
    requires l in Hops(store, m) && l in store.manifests
    ensures Declared(store, l).None?
  {
    assert WithinHops(store, depth - 1, l);
  }

  lemma NothingAnywhere(store: Store, frontier: seq<Text>, visited: set<Text>, depth: nat, l: Text, n: nat)
    requires AtDepth(store, frontier, visited, depth) && (depth > REACHABLE_MAX_DEPTH || frontier == [])
    requires n <= REACHABLE_MAX_DEPTH && l in Hops(store, n) && l in store.manifests
    ensures Declared(store, l).None?
  {
    if n >= depth {
      NothingFurther(store, depth, n, l);
    } else {
      NothingNearer(store, frontier, visited, depth, l, n);
    }
  }

  lemma EndCorrect(store: Store, frontier: seq<Text>, visited: set<Text>, depth: nat)
    requires AtDepth(store, frontier, visited, depth) && (depth > REACHABLE_MAX_DEPTH || frontier == [])
    requires depth <= REACHABLE_MAX_DEPTH + 1
    ensures Correct(store, Walk(store, frontier, visited, depth))
  {
    forall l, n: nat | n <= REACHABLE_MAX_DEPTH && l in Hops(store, n) && l in store.manifests
      ensures Declared(store, l).None?
    {
      NothingAnywhere(store, frontier, visited, depth, l, n);
    }
  }

  lemma HitCorrect(store: Store, frontier: seq<Text>, visited: set<Text>, depth: nat)
    requires AtDepth(store, frontier, visited, depth) && depth <= REACHABLE_MAX_DEPTH
    requires FirstHit(store, frontier).Some?
    ensures Correct(store, Walk(store, frontier, visited, depth))
  {
    assert Walk(store, frontier, visited, depth) == FirstHit(store, frontier);
    FirstHitSpec(store, frontier);
    var s := FirstHit(store, frontier).value;
    assert s.labelText in Hops(store, depth);
    forall l, m: nat | m < depth && l in Hops(store, m) && l in store.manifests
      ensures Declared(store, l).None?
    {
      NothingNearer(store, frontier, visited, depth, l, m);
    }
  }

  lemma WalkOn(store: Store, frontier: seq<Text>, visited: set<Text>, depth: nat)
    requires AllPresent(store, frontier)
    requires depth <= REACHABLE_MAX_DEPTH && frontier != [] && FirstHit(store, frontier).None?
    ensures var s := Advance(store, frontier, visited);
            AllPresent(store, s.next)
            && Walk(store, frontier, visited, depth) == Walk(store, s.next, s.visited, depth + 1)
  {
    AdvancePresent(store, frontier, visited);
  }

  lemma {:induction false} WalkCorrect(store: Store, frontier: seq<Text>, visited: set<Text>, depth: nat)
    requires AtDepth(store, frontier, visited, depth) && depth <= REACHABLE_MAX_DEPTH + 1
    ensures Correct(store, Walk(store, frontier, visited, depth))
    decreases REACHABLE_MAX_DEPTH + 1 - depth
  {
    if depth > REACHABLE_MAX_DEPTH || frontier == [] {
      EndCorrect(store, frontier, visited, depth);
    } else if FirstHit(store, frontier).Some? {
      HitCorrect(store, frontier, visited, depth);
    } else {
      var s := Deeper(store, frontier, visited, depth);
      WalkCorrect(store, s.next, s.visited, depth + 1);
    }
  }

  /** Without a hit the walk goes on at the next depth. */
  lemma Deeper(store: Store, frontier: seq<Text>, visited: set<Text>, depth: nat) returns (s: Seen)
    requires AtDepth(store, frontier, visited, depth)
    requires depth <= REACHABLE_MAX_DEPTH && frontier != [] && FirstHit(store, frontier).None?
    ensures s == Advance(store, frontier, visited) && AtDepth(store, s.next, s.visited, depth + 1)
    ensures Walk(store, frontier, visited, depth) == Walk(store, s.next, s.visited, depth + 1)
  {
    s := Advance(store, frontier, visited);
    DepthStep(store, frontier, visited, depth);
    WalkOn(store, frontier, visited, depth);
  }

  lemma StartAtDepth(store: Store)
    requires store.active.Some? && store.active.value in store.manifests
    ensures AtDepth(store, [store.active.value], {store.active.value}, 0)
  {
    var a := store.active.value;
    forall l | l in store.manifests
      ensures l in {a} <==> WithinHops(store, 0, l)
    {
      if l == a {
        assert l in Hops(store, 0);
      }
    }
  }

  lemma FindCorrect(store: Store)
    ensures Correct(store, Find(store))
  {
    if store.active.Some? && store.active.value in store.manifests {
      var a := store.active.value;
      StartAtDepth(store);
      WalkCorrect(store, [a], {a}, 0);
    } else {
      NoActive(store);
    }
  }

  lemma NoActive(store: Store)
    requires store.active.None? || store.active.value !in store.manifests
    ensures forall n: nat :: Hops(store, n) == {}
  {
    forall n: nat
      ensures Hops(store, n) == {}
    {
      NoActiveAt(store, n);
    }
  }

  lemma {:induction false} NoActiveAt(store: Store, n: nat)
    requires store.active.None? || store.active.value !in store.manifests
    ensures Hops(store, n) == {}
  {
    if n > 0 {
      NoActiveAt(store, n - 1);
    }
  }

  /**
   Main result: on any store, cyclic or not, there is a hit exactly when some manifest within 16
   ingredient hops of the active one declares a listed source type, to the nesting depth that is
   read. The hit names such a manifest at the smallest distance at which there is one, and the first of
   its declarations in document order.
   */
  lemma FoundIffReachable(store: Store)
    ensures Find(store).Some? <==>
            exists l, n: nat :: n <= 16 && l in Hops(store, n) && l in store.manifests
                                && DeclaresGenerative(store.manifests[l])
    ensures Find(store).Some? ==>
              var s := Find(store).value;
              && s.labelText in store.manifests
              && FirstDeclaration(store.manifests[s.labelText], s.action, s.sourceType)
              && exists n: nat ::
                   && n <= 16
                   && s.labelText in Hops(store, n)
                   && forall l, m: nat | m < n && l in Hops(store, m) ::
                        l in store.manifests ==> !DeclaresGenerative(store.manifests[l])
  {
    FindCorrect(store);
    match Find(store)
    case None =>
      forall l, n: nat | n <= REACHABLE_MAX_DEPTH && l in Hops(store, n) && l in store.manifests
        ensures !DeclaresGenerative(store.manifests[l])
      {
        DeclaredIffGenerative(store, l);
      }
    case Some(s) =>
      DeclaredIffGenerative(store, s.labelText);
      var n := FoundAt(store, s);
      forall l, m: nat | m < n && l in Hops(store, m) && l in store.manifests
        ensures !DeclaresGenerative(store.manifests[l])
      {
        DeclaredIffGenerative(store, l);
      }
  }

  lemma FoundAt(store: Store, s: Source) returns (n: nat)
    requires Correct(store, Some(s))
    ensures n <= REACHABLE_MAX_DEPTH && s.labelText in Hops(store, n)
    ensures forall l, m: nat | m < n && l in Hops(store, m) :: l in store.manifests ==> Declared(store, l).None?
  {
    n :| && n <= REACHABLE_MAX_DEPTH
         && s.labelText in Hops(store, n)
         && forall l, m: nat | m < n && l in Hops(store, m) :: l in store.manifests ==> Declared(store, l).None?;
  }

  // ---------------------------------------------------------------------------
  // Manifests nothing refers to
  // ---------------------------------------------------------------------------

  /** The active label, and everything manifests nearer than the depth cap refer to. */
  ghost predicate Mentioned(store: Store, l: Text) {
    || store.active == Some(l)
    || exists n: nat, p :: n < REACHABLE_MAX_DEPTH && p in Hops(store, n) && p in store.manifests
                           && RefersTo(store.manifests[p], l)
  }

  /** The stores have the same active label and agree on every mentioned label, missing ones
      included. */
  ghost predicate AgreeWhereMentioned(store: Store, other: Store) {
    && store.active == other.active
    && forall l {:trigger Mentioned(store, l)} | Mentioned(store, l) ::
         && (l in store.manifests <==> l in other.manifests)
         && (l in store.manifests ==> store.manifests[l] == other.manifests[l])
  }

  lemma HopsMentioned(store: Store, n: nat, l: Text)
    requires n <= REACHABLE_MAX_DEPTH && l in Hops(store, n)
    ensures Mentioned(store, l)
  {
    if n > 0 {
      var p := HopBack(store, n, l);
    }
  }

  lemma {:induction false} SameHit(store: Store, other: Store, frontier: seq<Text>, depth: nat)
    requires AgreeWhereMentioned(store, other) && depth <= REACHABLE_MAX_DEPTH && AllPresent(store, frontier)
    requires forall i | 0 <= i < |frontier| :: frontier[i] in Hops(store, depth)
    ensures AllPresent(other, frontier)
    ensures FirstHit(store, frontier) == FirstHit(other, frontier)
  {
    forall i | 0 <= i < |frontier|
      ensures frontier[i] in other.manifests && store.manifests[frontier[i]] == other.manifests[frontier[i]]
    {
      HopsMentioned(store, depth, frontier[i]);
    }
    if frontier != [] {
      SameHit(store, other, frontier[..|frontier| - 1], depth);
    }
  }

  lemma {:induction false} SameNotes(store: Store, other: Store, s: Seen, ingredients: seq<Ingredient>)
    requires forall i | i in ingredients && i.activeManifest.Some? ::
               i.activeManifest.value in store.manifests <==> i.activeManifest.value in other.manifests
    ensures NoteAll(store, s, ingredients) == NoteAll(other, s, ingredients)
  {
    if ingredients != [] {
      assert ingredients[|ingredients| - 1] in ingredients;
      SameNotes(store, other, s, ingredients[..|ingredients| - 1]);
    }
  }

  lemma {:induction false} SameAdvance(
    store: Store, other: Store, frontier: seq<Text>, visited: set<Text>, depth: nat)
    requires AgreeWhereMentioned(store, other) && depth < REACHABLE_MAX_DEPTH
    requires AllPresent(store, frontier) && AllPresent(other, frontier)
    requires forall i | 0 <= i < |frontier| :: frontier[i] in Hops(store, depth)
    ensures Advance(store, frontier, visited) == Advance(other, frontier, visited)
  {
    if frontier != [] {
      var before, last := frontier[..|frontier| - 1], frontier[|frontier| - 1];
      SameAdvance(store, other, before, visited, depth);
      HopsMentioned(store, depth, last);
      var ingredients := store.manifests[last].ingredients;
      forall i | i in ingredients && i.activeManifest.Some?
        ensures i.activeManifest.value in store.manifests <==> i.activeManifest.value in other.manifests
      {
        assert RefersTo(store.manifests[last], i.activeManifest.value);
        assert Mentioned(store, i.activeManifest.value);
      }
      SameNotes(store, other, Advance(store, before, visited), ingredients);
    }
  }

  lemma SameLevel(store: Store, other: Store, frontier: seq<Text>, visited: set<Text>, depth: nat)
    requires AgreeWhereMentioned(store, other) && depth <= REACHABLE_MAX_DEPTH
    requires AtDepth(store, frontier, visited, depth)
    ensures AllPresent(other, frontier)
    ensures FirstHit(store, frontier) == FirstHit(other, frontier)
    ensures depth < REACHABLE_MAX_DEPTH ==> Advance(store, frontier, visited) == Advance(other, frontier, visited)
  {
    FrontierAtDepth(store, frontier, visited, depth);
    SameHit(store, other, frontier, depth);
    if depth < REACHABLE_MAX_DEPTH {
      SameAdvance(store, other, frontier, visited, depth);
    }
  }

  lemma {:induction false} SameWalk(store: Store, other: Store, frontier: seq<Text>, visited: set<Text>, depth: nat)
    requires AgreeWhereMentioned(store, other) && depth <= REACHABLE_MAX_DEPTH
    requires AtDepth(store, frontier, visited, depth)
    ensures AllPresent(other, frontier)
    ensures Walk(store, frontier, visited, depth) == Walk(other, frontier, visited, depth)
    decreases REACHABLE_MAX_DEPTH + 1 - depth
  {
    SameLevel(store, other, frontier, visited, depth);
    if frontier == [] || FirstHit(store, frontier).Some? || depth == REACHABLE_MAX_DEPTH {
      if frontier != [] && FirstHit(store, frontier).None? {
        LastLevel(store, frontier, visited);
        LastLevel(other, frontier, visited);
      }
    } else {
      DepthStep(store, frontier, visited, depth);
      var s := Advance(store, frontier, visited);
      SameWalk(store, other, s.next, s.visited, depth + 1);
      WalkOn(store, frontier, visited, depth);
      WalkOn(other, frontier, visited, depth);
    }
  }

  lemma LastLevel(store: Store, frontier: seq<Text>, visited: set<Text>)
    requires AllPresent(store, frontier) && frontier != [] && FirstHit(store, frontier).None?
    ensures Walk(store, frontier, visited, REACHABLE_MAX_DEPTH) == None
  {
    WalkOn(store, frontier, visited, REACHABLE_MAX_DEPTH);
  }

  lemma FrontierAtDepth(store: Store, frontier: seq<Text>, visited: set<Text>, depth: nat)
    requires AtDepth(store, frontier, visited, depth)
    ensures forall i | 0 <= i < |frontier| :: frontier[i] in Hops(store, depth)
  {
    forall i | 0 <= i < |frontier|
      ensures frontier[i] in Hops(store, depth)
    {
      assert frontier[i] in frontier;
    }
  }

  /** Manifests that nothing within reach refers to cannot change the result. */
  lemma StrayManifestsIgnored(store: Store, other: Store)
    requires AgreeWhereMentioned(store, other)
    ensures Find(store) == Find(other)
  {
    if store.active.Some? && store.active.value in store.manifests {
      var a := store.active.value;
      assert Mentioned(store, a);
      StartAtDepth(store);
      SameWalk(store, other, [a], {a}, 0);
    } else if store.active.Some? {
      assert Mentioned(store, store.active.value);
    }
  }
}
