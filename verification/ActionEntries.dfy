/**
 Reading the actions a manifest declares: every well-formed entry of every actions assertion,
 with related sub-actions flattened right after their parent down to a fixed depth.
 */
module ActionEntries {
  import opened CanonicalJson
  import opened Collections
  import opened Options
  import opened Texts

  /** An element of an action list. `Malformed` is anything but an object; a name or a source
      type that is not a string is `None`. */
  datatype Item =
    | Malformed
    | Action(name: Option<Text>, parameters: Json, sourceType: Option<Text>, related: ActionList)

  datatype ActionList = NotAList | Items(items: seq<Item>)

  datatype AssertionData = NotAnObject | Data(actions: ActionList)

  datatype Assertion = NoAssertion | Assertion(labelText: Option<Text>, data: AssertionData)

  datatype Ingredient = Ingredient(activeManifest: Option<Text>)

  datatype Manifest = Manifest(labelText: Option<Text>, assertions: seq<Assertion>, ingredients: seq<Ingredient>)

  datatype Entry = Entry(action: Text, parameters: Json, sourceType: Option<Text>)

  const RELATED_MAX_DEPTH: nat := 4

  const ACTIONS: Text := Units("c2pa.actions")
  const ACTIONS_V2: Text := Units("c2pa.actions.v2")

  /** The entry an item contributes itself, if it is well formed. */
  function Own(item: Item): seq<Entry> {
    if item.Action? && item.name.Some? && item.name.value != [] then
      [Entry(item.name.value, item.parameters,
             if item.sourceType.Some? && item.sourceType.value != [] then item.sourceType else None)]
    else []
  }

  function ItemEntries(item: Item, depth: nat): seq<Entry>
    decreases item, 1
  {
    Own(item) + if item.Action? && depth < RELATED_MAX_DEPTH then ListEntries(item.related, depth + 1) else []
  }

  function ListEntries(list: ActionList, depth: nat): seq<Entry>
    decreases list, 1
  {
    if list.NotAList? then [] else AllEntries(list.items, depth)
  }

  function AllEntries(items: seq<Item>, depth: nat): seq<Entry>
    decreases items, 0
  {
    if items == [] then [] else ItemEntries(items[0], depth) + AllEntries(items[1..], depth)
  }

  function AssertionEntries(a: Assertion): seq<Entry> {
    if a.Assertion? && (a.labelText == Some(ACTIONS) || a.labelText == Some(ACTIONS_V2)) && a.data.Data?
    then ListEntries(a.data.actions, 0) else []
  }

  function AssertionsEntries(assertions: seq<Assertion>): seq<Entry> {
    if assertions == [] then [] else AssertionEntries(assertions[0]) + AssertionsEntries(assertions[1..])
  }

  function ManifestEntries(m: Manifest): seq<Entry> {
    AssertionsEntries(m.assertions)
  }

  lemma AllEntriesCons(x: Item, rest: seq<Item>, depth: nat)
    ensures AllEntries([x] + rest, depth) == ItemEntries(x, depth) + AllEntries(rest, depth)
  {
    assert ([x] + rest)[1..] == rest;
  }

  lemma {:induction false} AllEntriesAppend(xs: seq<Item>, ys: seq<Item>, depth: nat)
    ensures AllEntries(xs + ys, depth) == AllEntries(xs, depth) + AllEntries(ys, depth)
    decreases |xs|
  {
    if xs == [] {
      assert xs + ys == ys;
    } else {
      var x, rest := xs[0], xs[1..];
      AllEntriesAppend(rest, ys, depth);
      AllEntriesCons(x, rest, depth);
      AllEntriesCons(x, rest + ys, depth);
      assert xs == [x] + rest && xs + ys == [x] + (rest + ys);
    }
  }

  lemma AllEntriesSnoc(items: seq<Item>, i: nat, depth: nat)
    requires i < |items|
    ensures AllEntries(items[..i + 1], depth) == AllEntries(items[..i], depth) + ItemEntries(items[i], depth)
  {
    AllEntriesAppend(items[..i], [items[i]], depth);
    AllEntriesCons(items[i], [], depth);
    assert items[..i + 1] == items[..i] + [items[i]] && [items[i]] + [] == [items[i]];
  }

  lemma {:induction false} AssertionsEntriesAppend(xs: seq<Assertion>, ys: seq<Assertion>)
    ensures AssertionsEntries(xs + ys) == AssertionsEntries(xs) + AssertionsEntries(ys)
  {
    if xs == [] {
      assert xs + ys == ys;
    } else {
      AssertionsEntriesAppend(xs[1..], ys);
      assert (xs + ys)[1..] == xs[1..] + ys;
      Associative(AssertionEntries(xs[0]), AssertionsEntries(xs[1..]), AssertionsEntries(ys));
    }
  }

  lemma ReplaceItems(xs: seq<Item>, old': seq<Item>, new': seq<Item>, ys: seq<Item>, depth: nat)
    requires AllEntries(old', depth) == AllEntries(new', depth)
    ensures AllEntries(xs + old' + ys, depth) == AllEntries(xs + new' + ys, depth)
  {
    AllEntriesAppend(xs + old', ys, depth);
    AllEntriesAppend(xs, old', depth);
    AllEntriesAppend(xs + new', ys, depth);
    AllEntriesAppend(xs, new', depth);
  }

  lemma ReplaceAssertions(xs: seq<Assertion>, old': seq<Assertion>, new': seq<Assertion>, ys: seq<Assertion>)
    requires AssertionsEntries(old') == AssertionsEntries(new')
    ensures AssertionsEntries(xs + old' + ys) == AssertionsEntries(xs + new' + ys)
  {
    AssertionsEntriesAppend(xs + old', ys);
    AssertionsEntriesAppend(xs, old');
    AssertionsEntriesAppend(xs + new', ys);
    AssertionsEntriesAppend(xs, new');
  }

  /** The visitor that collects entries into one shared list. */
  class Collector {
    var out: seq<Entry>

    constructor ()
      ensures out == []
    {
      out := [];
    }

    method Visit(list: ActionList, depth: nat)
      modifies this
      ensures out == old(out) + ListEntries(list, depth)
      decreases list
    {
      if list.NotAList? {
        return;
      }
      ghost var before := out;
      var i := 0;
      assert list.items[..0] == [];
      while i < |list.items|
        invariant 0 <= i <= |list.items|
        invariant out == before + AllEntries(list.items[..i], depth)
      {
        AllEntriesSnoc(list.items, i, depth);
        Associative(before, AllEntries(list.items[..i], depth), ItemEntries(list.items[i], depth));
        VisitItem(list.items[i], depth);
        i := i + 1;
      }
      assert list.items[..i] == list.items;
    }

    /** One element of a list: its own entry, then its related ones. */
    method VisitItem(item: Item, depth: nat)
      modifies this
      ensures out == old(out) + ItemEntries(item, depth)
      decreases item
    {
      if item.Action? {
        Push(item);
        if depth < RELATED_MAX_DEPTH {
          Associative(old(out), Own(item), ListEntries(item.related, depth + 1));
          Visit(item.related, depth + 1);
        }
      }
    }

    method Push(item: Item)
      requires item.Action?
      modifies this
      ensures out == old(out) + Own(item)
    {
      if item.name.Some? && |item.name.value| > 0 {
        var sourceType := None;
        if item.sourceType.Some? && |item.sourceType.value| > 0 {
          sourceType := item.sourceType;
        }
        out := out + [Entry(item.name.value, item.parameters, sourceType)];
      }
    }
  }

  method ExtractActionEntries(m: Manifest) returns (entries: seq<Entry>)
    ensures entries == ManifestEntries(m)
  {
    var c := new Collector();
    var i := 0;
    assert m.assertions[..0] == [];
    while i < |m.assertions|
      invariant 0 <= i <= |m.assertions|
      invariant c.out == AssertionsEntries(m.assertions[..i])
    {
      var a := m.assertions[i];
      AssertionsEntriesAppend(m.assertions[..i], [a]);
      assert m.assertions[..i + 1] == m.assertions[..i] + [a];
      assert AssertionsEntries([a]) == AssertionEntries(a);
      if a.Assertion? && (a.labelText == Some(ACTIONS) || a.labelText == Some(ACTIONS_V2)) && a.data.Data? {
        c.Visit(a.data.actions, 0);
      }
      i := i + 1;
    }
    assert m.assertions[..i] == m.assertions;
    entries := c.out;
  }

  // ---------------------------------------------------------------------------
  // Which entries are found
  // ---------------------------------------------------------------------------

  /** The item at the end of a path of positions, through `related` lists. */
  function ItemAt(list: ActionList, path: seq<nat>): Item
    decreases |path|
  {
    if list.NotAList? || path == [] || path[0] >= |list.items| then Malformed
    else if |path| == 1 then list.items[path[0]]
    else if list.items[path[0]].Malformed? then Malformed
    else ItemAt(list.items[path[0]].related, path[1..])
  }

  /** The entry an item gives: its own non-empty name, its own parameters, whatever they are, and its own source
      type unless that is empty. */
  predicate Contributes(item: Item, e: Entry) {
    && item.Action? && e.action != []
    && item.name == Some(e.action)
    && item.parameters == e.parameters
    && (if e.sourceType == None then item.sourceType == None || item.sourceType == Some([])
        else item.sourceType == e.sourceType && e.sourceType != Some([]))
  }

  lemma ContributesIff(item: Item, e: Entry)
    ensures e in Own(item) <==> Contributes(item, e)
    ensures |Own(item)| <= 1
  {
  }

  /** Some item reached by at most four steps into `related` contributes `e`. */
  ghost predicate DeclaredIn(list: ActionList, e: Entry) {
    exists path: seq<nat> :: 1 <= |path| <= 5 && Contributes(ItemAt(list, path), e)
  }

  lemma {:induction false} FoundIsDeclared(list: ActionList, e: Entry, depth: nat) returns (path: seq<nat>)
    requires depth <= RELATED_MAX_DEPTH && e in ListEntries(list, depth)
    ensures 1 <= |path| <= RELATED_MAX_DEPTH + 1 - depth && e in Own(ItemAt(list, path))
    decreases list
  {
    var i := FoundInItem(list.items, e, depth);
    var item := list.items[i];
    if e in Own(item) {
      path := [i];
    } else {
      var rest := FoundIsDeclared(item.related, e, depth + 1);
      path := [i] + rest;
      assert path[1..] == rest;
    }
  }

  lemma {:induction false} FoundInItem(items: seq<Item>, e: Entry, depth: nat) returns (i: nat)
    requires e in AllEntries(items, depth)
    ensures i < |items| && e in ItemEntries(items[i], depth)
  {
    if e in ItemEntries(items[0], depth) {
      i := 0;
    } else {
      var j := FoundInItem(items[1..], e, depth);
      i := j + 1;
    }
  }

  lemma {:induction false} ItemInAll(items: seq<Item>, i: nat, e: Entry, depth: nat)
    requires i < |items| && e in ItemEntries(items[i], depth)
    ensures e in AllEntries(items, depth)
  {
    if i > 0 {
      ItemInAll(items[1..], i - 1, e, depth);
    }
  }

  lemma {:induction false} DeclaredIsFound(list: ActionList, path: seq<nat>, e: Entry, depth: nat)
    requires depth <= RELATED_MAX_DEPTH
    requires 1 <= |path| <= RELATED_MAX_DEPTH + 1 - depth && e in Own(ItemAt(list, path))
    ensures e in ListEntries(list, depth)
    decreases |path|
  {
    var i := path[0];
    if |path| > 1 {
      DeclaredIsFound(list.items[i].related, path[1..], e, depth + 1);
    }
    ItemInAll(list.items, i, e, depth);
  }

  /** Main result on reading: an entry is collected from a list exactly when some item within
      the nesting bound contributes it, however malformed the list is elsewhere. */
  lemma ListedIffDeclared(list: ActionList, e: Entry)
    ensures e in ListEntries(list, 0) <==> DeclaredIn(list, e)
  {
    if e in ListEntries(list, 0) {
      var path := FoundIsDeclared(list, e, 0);
      ContributesIff(ItemAt(list, path), e);
    }
    if DeclaredIn(list, e) {
      var path: seq<nat> :| 1 <= |path| <= 5 && Contributes(ItemAt(list, path), e);
      ContributesIff(ItemAt(list, path), e);
      DeclaredIsFound(list, path, e, 0);
    }
  }

  /** An actions assertion, in either spelling, declares the entry. */
  ghost predicate Declares(m: Manifest, e: Entry) {
    exists a | a in m.assertions ::
      a.Assertion? && (a.labelText == Some(Units("c2pa.actions")) || a.labelText == Some(Units("c2pa.actions.v2")))
      && a.data.Data? && DeclaredIn(a.data.actions, e)
  }

  lemma {:induction false} InSomeAssertion(assertions: seq<Assertion>, e: Entry)
    ensures e in AssertionsEntries(assertions) <==> exists i | 0 <= i < |assertions| :: e in AssertionEntries(assertions[i])
  {
    if assertions != [] {
      InSomeAssertion(assertions[1..], e);
      if e in AssertionEntries(assertions[0]) {
      } else if e in AssertionsEntries(assertions[1..]) {
        var j :| 0 <= j < |assertions[1..]| && e in AssertionEntries(assertions[1..][j]);
        assert e in AssertionEntries(assertions[j + 1]);
      }
      if exists i | 0 <= i < |assertions| :: e in AssertionEntries(assertions[i]) {
        var i :| 0 <= i < |assertions| && e in AssertionEntries(assertions[i]);
        if i > 0 {
          assert e in AssertionEntries(assertions[1..][i - 1]);
        }
      }
    }
  }

  lemma EntriesAreDeclared(m: Manifest, e: Entry)
    ensures e in ManifestEntries(m) <==> Declares(m, e)
  {
    InSomeAssertion(m.assertions, e);
    forall a | a in m.assertions && a.Assertion? && a.data.Data? {
      ListedIffDeclared(a.data.actions, e);
    }
  }
}
