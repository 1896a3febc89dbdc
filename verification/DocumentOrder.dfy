/**
 The entries read from a manifest, as a whole: one for each item that contributes, in document order, parents
 before their related items, and nothing else. A place is the position of an assertion followed by the positions
 that lead to an item; places are compared like words.
 */
module DocumentOrder {
  import opened ActionEntries
  import opened Options
  import opened Texts

  type Place = seq<nat>

  /** Word order: a proper prefix comes first. */
  predicate Before(p: Place, q: Place) {
    if q == [] then false
    else if p == [] then true
    else p[0] < q[0] || (p[0] == q[0] && Before(p[1..], q[1..]))
  }

  predicate Increasing(ps: seq<Place>) {
    forall i, j | 0 <= i < j < |ps| :: Before(ps[i], ps[j])
  }

  /** Each place put below position `i`. */
  function Below(i: nat, ps: seq<Place>): (r: seq<Place>)
    ensures |r| == |ps| && forall k | 0 <= k < |r| :: r[k] == [i] + ps[k]
  {
    seq(|ps|, k requires 0 <= k < |ps| => [i] + ps[k])
  }

  lemma BelowIncreasing(i: nat, ps: seq<Place>)
    requires Increasing(ps)
    ensures Increasing(Below(i, ps))
  {
    var r := Below(i, ps);
    forall a, b | 0 <= a < b < |r|
      ensures Before(r[a], r[b])
    {
      assert r[a][1..] == ps[a] && r[b][1..] == ps[b];
    }
  }

  /** All places start at position `from` or later. */
  predicate StartFrom(ps: seq<Place>, from: nat) {
    forall k | 0 <= k < |ps| :: ps[k] != [] && ps[k][0] >= from
  }

  lemma AppendIncreasing(i: nat, ps: seq<Place>, qs: seq<Place>)
    requires Increasing(ps) && Increasing(qs) && StartFrom(qs, i + 1)
    ensures Increasing(Below(i, ps) + qs) && StartFrom(Below(i, ps) + qs, i)
  {
    BelowIncreasing(i, ps);
    var r := Below(i, ps) + qs;
    forall a, b | 0 <= a < b < |r|
      ensures Before(r[a], r[b])
    {
      if a < |ps| && b >= |ps| {
        assert r[a] == [i] + ps[a] && r[b] == qs[b - |ps|];
      }
    }
  }

  // ---------------------------------------------------------------------------
  // Places of one list
  // ---------------------------------------------------------------------------

  /** The item at a place, counted from an item and from a list of items. */
  function At(item: Item, p: Place): Item
    decreases |p|
  {
    if p == [] then item
    else if item.Malformed? || item.related.NotAList? then Malformed
    else Among(item.related.items, p)
  }

  function Among(items: seq<Item>, p: Place): Item
    requires p != []
    decreases |p|, 0
  {
    if p[0] < |items| then At(items[p[0]], p[1..]) else Malformed
  }

  function ItemPlaces(item: Item, depth: nat): seq<Place>
    decreases item, 1
  {
    (if Own(item) != [] then [[]] else [])
    + if item.Action? && depth < RELATED_MAX_DEPTH then ListPlaces(item.related, depth + 1) else []
  }

  function ListPlaces(list: ActionList, depth: nat): seq<Place>
    decreases list, 1
  {
    if list.NotAList? then [] else AllPlaces(list.items, 0, depth)
  }

  function AllPlaces(items: seq<Item>, from: nat, depth: nat): seq<Place>
    decreases items, 0
  {
    if items == [] then [] else Below(from, ItemPlaces(items[0], depth)) + AllPlaces(items[1..], from + 1, depth)
  }

  lemma {:induction false} ItemIncreasing(item: Item, depth: nat)
    ensures Increasing(ItemPlaces(item, depth))
    decreases item, 1
  {
    if item.Action? && depth < RELATED_MAX_DEPTH && item.related.Items? {
      AllIncreasing(item.related.items, 0, depth + 1);
    }
  }

  lemma {:induction false} AllIncreasing(items: seq<Item>, from: nat, depth: nat)
    ensures Increasing(AllPlaces(items, from, depth)) && StartFrom(AllPlaces(items, from, depth), from)
    decreases items, 0
  {
    if items != [] {
      ItemIncreasing(items[0], depth);
      AllIncreasing(items[1..], from + 1, depth);
      AppendIncreasing(from, ItemPlaces(items[0], depth), AllPlaces(items[1..], from + 1, depth));
    }
  }

  /** Entry by entry, the item at the place is the one that contributes it. */
  ghost predicate Matches(item: Item, ps: seq<Place>, es: seq<Entry>) {
    |ps| == |es| && forall k | 0 <= k < |ps| :: Contributes(At(item, ps[k]), es[k])
  }

  ghost predicate AllMatch(items: seq<Item>, ps: seq<Place>, from: nat, es: seq<Entry>) {
    && |ps| == |es| && StartFrom(ps, from)
    && forall k | 0 <= k < |ps| :: Contributes(Among(items, [ps[k][0] - from] + ps[k][1..]), es[k])
  }

  lemma {:induction false} ItemMatches(item: Item, depth: nat)
    ensures Matches(item, ItemPlaces(item, depth), ItemEntries(item, depth))
    decreases item, 1
  {
    var own := Own(item);
    if own != [] {
      assert own == [own[0]];
      ContributesIff(item, own[0]);
    }
    if item.Action? && depth < RELATED_MAX_DEPTH && item.related.Items? {
      var items := item.related.items;
      AllMatches(items, 0, depth + 1);
      var ps, es := AllPlaces(items, 0, depth + 1), AllEntries(items, depth + 1);
      forall k | 0 <= k < |ps|
        ensures Contributes(At(item, ps[k]), es[k])
      {
        assert [ps[k][0] - 0] + ps[k][1..] == ps[k];
      }
    }
  }

  lemma {:induction false} AllMatches(items: seq<Item>, from: nat, depth: nat)
    ensures AllMatch(items, AllPlaces(items, from, depth), from, AllEntries(items, depth))
    decreases items, 0
  {
    AllIncreasing(items, from, depth);
    if items != [] {
      ItemMatches(items[0], depth);
      AllMatches(items[1..], from + 1, depth);
      MatchAppend(items, from, ItemPlaces(items[0], depth), ItemEntries(items[0], depth),
                  AllPlaces(items[1..], from + 1, depth), AllEntries(items[1..], depth));
    }
  }

  lemma MatchAppend(items: seq<Item>, from: nat, ps: seq<Place>, es: seq<Entry>, qs: seq<Place>, fs: seq<Entry>)
    requires items != [] && Matches(items[0], ps, es) && AllMatch(items[1..], qs, from + 1, fs)
    ensures AllMatch(items, Below(from, ps) + qs, from, es + fs)
  {
    var r := Below(from, ps) + qs;
    forall k | 0 <= k < |r|
      ensures r[k] != [] && r[k][0] >= from && Contributes(Among(items, [r[k][0] - from] + r[k][1..]), (es + fs)[k])
    {
      if k < |ps| {
        assert r[k] == [from] + ps[k] && r[k][1..] == ps[k];
        assert ([r[k][0] - from] + r[k][1..])[1..] == ps[k];
      } else {
        var q := qs[k - |ps|];
        assert ([q[0] - from] + q[1..])[1..] == q[1..] && ([q[0] - (from + 1)] + q[1..])[1..] == q[1..];
      }
    }
  }

  // ---------------------------------------------------------------------------
  // No place is too deep
  // ---------------------------------------------------------------------------

  predicate NoLonger(ps: seq<Place>, n: nat) {
    forall k | 0 <= k < |ps| :: |ps[k]| <= n
  }

  lemma {:induction false} ItemBounded(item: Item, depth: nat)
    requires depth <= RELATED_MAX_DEPTH
    ensures NoLonger(ItemPlaces(item, depth), RELATED_MAX_DEPTH - depth)
    decreases item, 1
  {
    if item.Action? && depth < RELATED_MAX_DEPTH && item.related.Items? {
      AllBounded(item.related.items, 0, depth + 1);
    }
  }

  lemma {:induction false} AllBounded(items: seq<Item>, from: nat, depth: nat)
    requires depth <= RELATED_MAX_DEPTH
    ensures NoLonger(AllPlaces(items, from, depth), RELATED_MAX_DEPTH + 1 - depth)
    decreases items, 0
  {
    if items != [] {
      ItemBounded(items[0], depth);
      AllBounded(items[1..], from + 1, depth);
    }
  }

  // ---------------------------------------------------------------------------
  // No place is missed
  // ---------------------------------------------------------------------------

  lemma {:induction false} ItemComplete(item: Item, p: Place, depth: nat)
    requires depth + |p| <= RELATED_MAX_DEPTH && Own(At(item, p)) != []
    ensures p in ItemPlaces(item, depth)
    decreases |p|, 1
  {
    if p != [] {
      AllComplete(item.related.items, p, 0, depth + 1);
      assert [p[0] - 0] + p[1..] == p;
    } else {
      assert ItemPlaces(item, depth)[0] == [];
    }
  }

  lemma {:induction false} AllComplete(items: seq<Item>, p: Place, from: nat, depth: nat)
    requires p != [] && p[0] >= from && depth + |p| <= RELATED_MAX_DEPTH + 1
    requires p[0] - from < |items| && Own(At(items[p[0] - from], p[1..])) != []
    ensures p in AllPlaces(items, from, depth)
    decreases |p|, 0, |items|
  {
    if p[0] == from {
      ItemComplete(items[0], p[1..], depth);
      var ps := ItemPlaces(items[0], depth);
      var k :| 0 <= k < |ps| && ps[k] == p[1..];
      assert p == [from] + p[1..];
      assert (Below(from, ps) + AllPlaces(items[1..], from + 1, depth))[k] == p;
    } else {
      AllComplete(items[1..], p, from + 1, depth);
    }
  }

  // ---------------------------------------------------------------------------
  // A manifest
  // ---------------------------------------------------------------------------

  /** The actions of an assertion that is one of the two spellings and holds an object. */
  function ActionsOf(a: Assertion): ActionList {
    if a.Assertion? && (a.labelText == Some(Units("c2pa.actions")) || a.labelText == Some(Units("c2pa.actions.v2")))
       && a.data.Data?
    then a.data.actions else NotAList
  }

  /** The item at a place of a manifest: in which assertion, and where in its actions. */
  function PlaceIn(assertions: seq<Assertion>, p: Place): Item {
    if |p| < 2 || p[0] >= |assertions| then Malformed
    else
      var list := ActionsOf(assertions[p[0]]);
      if list.NotAList? then Malformed else Among(list.items, p[1..])
  }

  function Places(assertions: seq<Assertion>, from: nat): seq<Place> {
    if assertions == [] then []
    else Below(from, ListPlaces(ActionsOf(assertions[0]), 0)) + Places(assertions[1..], from + 1)
  }

  lemma AssertionIs(a: Assertion)
    ensures AssertionEntries(a) == ListEntries(ActionsOf(a), 0)
  {
  }

  lemma {:induction false} PlacesIncreasing(assertions: seq<Assertion>, from: nat)
    ensures Increasing(Places(assertions, from)) && StartFrom(Places(assertions, from), from)
  {
    if assertions != [] {
      var list := ActionsOf(assertions[0]);
      if list.Items? {
        AllIncreasing(list.items, 0, 0);
      }
      PlacesIncreasing(assertions[1..], from + 1);
      AppendIncreasing(from, ListPlaces(list, 0), Places(assertions[1..], from + 1));
    }
  }

  /** The item at the place, counted from assertion `from`, contributes the entry. */
  predicate MatchesAt(assertions: seq<Assertion>, p: Place, from: nat, e: Entry)
    requires p != [] && p[0] >= from
  {
    Contributes(PlaceIn(assertions, [p[0] - from] + p[1..]), e)
  }

  ghost predicate PlacesMatch(assertions: seq<Assertion>, ps: seq<Place>, from: nat, es: seq<Entry>) {
    && |ps| == |es| && StartFrom(ps, from)
    && forall k | 0 <= k < |ps| :: MatchesAt(assertions, ps[k], from, es[k])
  }

  lemma {:induction false} PlacesMatched(assertions: seq<Assertion>, from: nat)
    ensures PlacesMatch(assertions, Places(assertions, from), from, AssertionsEntries(assertions))
  {
    PlacesIncreasing(assertions, from);
    if assertions != [] {
      PlacesMatched(assertions[1..], from + 1);
      if ActionsOf(assertions[0]).Items? {
        AllMatches(ActionsOf(assertions[0]).items, 0, 0);
      }
      SameNumber(assertions, from);
      forall k | 0 <= k < |Places(assertions, from)|
        ensures MatchesAt(assertions, Places(assertions, from)[k], from, AssertionsEntries(assertions)[k])
      {
        PlaceMatched(assertions, from, k);
      }
    }
  }

  lemma SameNumber(assertions: seq<Assertion>, from: nat)
    requires assertions != []
    requires var list := ActionsOf(assertions[0]);
             list.Items? ==> |AllPlaces(list.items, 0, 0)| == |AllEntries(list.items, 0)|
    requires |Places(assertions[1..], from + 1)| == |AssertionsEntries(assertions[1..])|
    ensures |AssertionsEntries(assertions)| == |Places(assertions, from)|
  {
    AssertionIs(assertions[0]);
  }

  lemma {:induction false} PlacesBounded(assertions: seq<Assertion>, from: nat)
    ensures forall k | 0 <= k < |Places(assertions, from)| :: 2 <= |Places(assertions, from)[k]| <= 6
  {
    if assertions != [] {
      PlacesBounded(assertions[1..], from + 1);
      var list := ActionsOf(assertions[0]);
      if list.Items? {
        AllBounded(list.items, 0, 0);
        AllIncreasing(list.items, 0, 0);
      }
    }
  }

  lemma PlaceMatched(assertions: seq<Assertion>, from: nat, k: nat)
    requires assertions != [] && k < |Places(assertions, from)| && StartFrom(Places(assertions, from), from)
    requires var list := ActionsOf(assertions[0]);
             list.Items? ==> AllMatch(list.items, AllPlaces(list.items, 0, 0), 0, AllEntries(list.items, 0))
    requires PlacesMatch(assertions[1..], Places(assertions[1..], from + 1), from + 1, AssertionsEntries(assertions[1..]))
    ensures |AssertionsEntries(assertions)| == |Places(assertions, from)|
    ensures MatchesAt(assertions, Places(assertions, from)[k], from, AssertionsEntries(assertions)[k])
  {
    var list := ActionsOf(assertions[0]);
    AssertionIs(assertions[0]);
    var ps, qs := ListPlaces(list, 0), Places(assertions[1..], from + 1);
    var p := Places(assertions, from)[k];
    if k < |ps| {
      assert p == [from] + ps[k];
      assert [ps[k][0] - 0] + ps[k][1..] == ps[k];
      assert ([p[0] - from] + p[1..])[1..] == ps[k];
    } else {
      var q := qs[k - |ps|];
      assert p == q;
      assert ([q[0] - from] + q[1..])[1..] == q[1..] && ([q[0] - (from + 1)] + q[1..])[1..] == q[1..];
    }
  }

  lemma {:induction false} PlacesComplete(assertions: seq<Assertion>, p: Place, from: nat)
    requires 2 <= |p| <= RELATED_MAX_DEPTH + 2 && p[0] >= from
    requires Own(PlaceIn(assertions, [p[0] - from] + p[1..])) != []
    ensures p in Places(assertions, from)
  {
    var q := [p[0] - from] + p[1..];
    assert q[1..] == p[1..];
    if p[0] == from {
      var list := ActionsOf(assertions[0]);
      AllComplete(list.items, p[1..], 0, 0);
      var ps := ListPlaces(list, 0);
      var k :| 0 <= k < |ps| && ps[k] == p[1..];
      assert p == [from] + p[1..];
      assert Places(assertions, from)[k] == p;
    } else {
      assert ([p[0] - (from + 1)] + p[1..])[1..] == p[1..];
      PlacesComplete(assertions[1..], p, from + 1);
      assert p in Places(assertions[1..], from + 1);
    }
  }

  /** `places` lists, in document order and once each, exactly the places of items that contribute an entry, at
      most four steps into `related`, and `entries` their entries. */
  ghost predicate InDocumentOrder(m: Manifest, places: seq<Place>, entries: seq<Entry>) {
    && |places| == |entries|
    && Increasing(places)
    && (forall k | 0 <= k < |places| ::
          2 <= |places[k]| <= 6 && Contributes(PlaceIn(m.assertions, places[k]), entries[k]))
    && (forall p: Place | 2 <= |p| <= 6 && (exists e :: Contributes(PlaceIn(m.assertions, p), e)) :: p in places)
  }

  /** Main result on reading: the entries of a manifest are those of its contributing items, one each, in document
      order. */
  lemma EntriesInDocumentOrder(m: Manifest)
    ensures exists places :: InDocumentOrder(m, places, ManifestEntries(m))
  {
    var places := Places(m.assertions, 0);
    PlacesIncreasing(m.assertions, 0);
    PlacesMatched(m.assertions, 0);
    PlacesBounded(m.assertions, 0);
    forall k | 0 <= k < |places|
      ensures Contributes(PlaceIn(m.assertions, places[k]), ManifestEntries(m)[k])
    {
      assert MatchesAt(m.assertions, places[k], 0, ManifestEntries(m)[k]);
      assert [places[k][0] - 0] + places[k][1..] == places[k];
    }
    forall p: Place | 2 <= |p| <= 6 && exists e :: Contributes(PlaceIn(m.assertions, p), e)
      ensures p in places
    {
      var e :| Contributes(PlaceIn(m.assertions, p), e);
      ContributesIff(PlaceIn(m.assertions, p), e);
      assert [p[0] - 0] + p[1..] == p;
      PlacesComplete(m.assertions, p, 0);
    }
    assert InDocumentOrder(m, places, ManifestEntries(m));
  }
}
