/**
 Recorded ingredient results: the failures a signer recorded about its parents, less those the
 verifier's own report shows to be false alarms about a parent it trusts.
 */
module RecordedResults {
  import opened Collections
  import opened Options
  import opened Texts

  /** A validation entry; a code or url that is not a string is `None`. */
  datatype Entry = Entry(code: Option<Text>, url: Option<Text>, explanation: Option<Text>)

  datatype Buckets = Buckets(success: seq<Entry>, informational: seq<Entry>, failure: seq<Entry>)

  datatype Delta = Delta(uri: Option<Text>, buckets: Buckets)

  datatype Report = Report(active: Buckets, deltas: seq<Delta>)

  /** `status` is the older form of the report, read when `results` is absent. */
  datatype Ingredient = Ingredient(
    activeManifest: Option<Text>, labelText: Option<Text>, results: Option<Report>, status: seq<Entry>)

  datatype Holder = Holder(labelText: Text, ingredients: seq<Ingredient>)

  datatype Store = Store(holders: seq<Holder>, liveDeltas: seq<Delta>)

  /** The codes that matter: which count as failures, which a trusted parent clears, and the code that
      says a parent is trusted. */
  datatype Codes = Codes(isFailure: Text -> bool, isCleared: Text -> bool, trusted: Text)

  const MANIFEST_PREFIX: Text := Units("self#jumbf=/c2pa/")
  const ASSERTIONS: Text := Units("/c2pa.assertions/")
  const SLASH: CodeUnit := 0x2F

  function ManifestUrl(l: Text): Text {
    MANIFEST_PREFIX + l + [SLASH]
  }

  function IngredientUri(holder: Text, ingredient: Text): Text {
    MANIFEST_PREFIX + holder + ASSERTIONS + ingredient
  }

  function BucketEntries(b: Buckets): seq<Entry> {
    b.success + b.informational + b.failure
  }

  function DeltaEntries(d: Delta): seq<Entry> {
    BucketEntries(d.buckets)
  }

  /** The statuses recorded on an ingredient. */
  function Recorded(i: Ingredient): seq<Entry> {
    if i.results.Some? then BucketEntries(i.results.value.active) + FlatMap(DeltaEntries, i.results.value.deltas)
    else i.status
  }

  // ---------------------------------------------------------------------------
  // What the verifier itself trusts
  // ---------------------------------------------------------------------------

  /** The live report says, of this ingredient, that `url` is trusted. */
  predicate LiveTrusts(store: Store, trusted: Text, uri: Text, url: Text) {
    exists d | d in store.liveDeltas :: d.uri == Some(uri)
      && exists e | e in d.buckets.success :: e.code == Some(trusted) && e.url == Some(url)
  }

  type Urls = map<Text, seq<Text>>

  ghost predicate Lists(urls: Urls, uri: Text, url: Text) {
    uri in urls && url in urls[uri]
  }

  method AddTrusted(urls: Urls, uri: Text, success: seq<Entry>, trusted: Text) returns (out: Urls)
    ensures forall u, url :: Lists(out, u, url) <==>
              Lists(urls, u, url)
              || (u == uri && exists e | e in success :: e.code == Some(trusted) && e.url == Some(url))
  {
    out := urls;
    var i := 0;
    while i < |success|
      invariant 0 <= i <= |success|
      invariant forall u, url :: Lists(out, u, url) <==>
                  Lists(urls, u, url)
                  || (u == uri && exists e | e in success[..i] :: e.code == Some(trusted) && e.url == Some(url))
    {
      var e := success[i];
      assert success[..i + 1] == success[..i] + [e];
      ghost var before := out;
      if e.code == Some(trusted) && e.url.Some? {
        out := out[uri := (if uri in out then out[uri] else []) + [e.url.value]];
      }
      forall u, url
        ensures Lists(out, u, url) <==> Lists(before, u, url) || (u == uri && e.code == Some(trusted) && e.url == Some(url))
      {
      }
      i := i + 1;
    }
    assert success[..i] == success;
  }

  method LiveTrustedUrls(store: Store, trusted: Text) returns (urls: Urls)
    ensures forall uri, url :: Lists(urls, uri, url) <==> LiveTrusts(store, trusted, uri, url)
  {
    urls := map[];
    var i := 0;
    while i < |store.liveDeltas|
      invariant 0 <= i <= |store.liveDeltas|
      invariant forall uri, url :: Lists(urls, uri, url)
                  <==> LiveTrusts(store.(liveDeltas := store.liveDeltas[..i]), trusted, uri, url)
    {
      var d := store.liveDeltas[i];
      ghost var before := urls;
      if d.uri.Some? {
        urls := AddTrusted(urls, d.uri.value, d.buckets.success, trusted);
      }
      forall uri, url
        ensures Lists(urls, uri, url)
                <==> LiveTrusts(store.(liveDeltas := store.liveDeltas[..i + 1]), trusted, uri, url)
      {
        TrustsSnoc(store, trusted, uri, url, i);
      }
      i := i + 1;
    }
    assert store.(liveDeltas := store.liveDeltas[..i]) == store by {
      assert store.liveDeltas[..i] == store.liveDeltas;
    }
  }

  lemma TrustsSnoc(store: Store, trusted: Text, uri: Text, url: Text, i: nat)
    requires i < |store.liveDeltas|
    ensures LiveTrusts(store.(liveDeltas := store.liveDeltas[..i + 1]), trusted, uri, url)
            <==> LiveTrusts(store.(liveDeltas := store.liveDeltas[..i]), trusted, uri, url)
                 || (store.liveDeltas[i].uri == Some(uri)
                     && exists e | e in store.liveDeltas[i].buckets.success :: e.code == Some(trusted) && e.url == Some(url))
  {
    var last := store.liveDeltas[i];
    assert store.liveDeltas[..i + 1] == store.liveDeltas[..i] + [last];
    assert last in store.liveDeltas[..i + 1];
  }

  // ---------------------------------------------------------------------------
  // Clearing
  // ---------------------------------------------------------------------------

  /** The verifier trusts the chain of this ingredient's own parent manifest. */
  ghost predicate ParentTrusted(store: Store, trusted: Text, holder: Text, i: Ingredient) {
    && i.activeManifest.Some? && i.labelText.Some?
    && exists url :: LiveTrusts(store, trusted, IngredientUri(holder, i.labelText.value), url)
                     && ManifestUrl(i.activeManifest.value) <= url
  }

  /** An entry that a trusted parent clears: of a clearable code, and about that very parent. */
  predicate Clearable(codes: Codes, i: Ingredient, e: Entry) {
    && i.activeManifest.Some? && e.code.Some? && codes.isCleared(e.code.value)
    && e.url.Some? && ManifestUrl(i.activeManifest.value) <= e.url.value
  }

  function KeepEntry(codes: Codes, i: Ingredient, parentTrusted: bool, e: Entry): seq<Entry> {
    if e.code.None? || !codes.isFailure(e.code.value) then []
    else if parentTrusted && Clearable(codes, i, e) then []
    else [e]
  }

  function KeepEntries(codes: Codes, i: Ingredient, parentTrusted: bool): seq<Entry> {
    FlatMap(e => KeepEntry(codes, i, parentTrusted, e), Recorded(i))
  }

  ghost function IngredientFailures(store: Store, codes: Codes, holder: Text, i: Ingredient): seq<Entry> {
    KeepEntries(codes, i, ParentTrusted(store, codes.trusted, holder, i))
  }

  ghost function IngredientsFailures(store: Store, codes: Codes, holder: Text, ingredients: seq<Ingredient>): seq<Entry> {
    if ingredients == [] then []
    else IngredientsFailures(store, codes, holder, ingredients[..|ingredients| - 1])
         + IngredientFailures(store, codes, holder, ingredients[|ingredients| - 1])
  }

  ghost function HoldersFailures(store: Store, codes: Codes, holders: seq<Holder>): seq<Entry> {
    if holders == [] then []
    else
      var last := holders[|holders| - 1];
      HoldersFailures(store, codes, holders[..|holders| - 1])
      + IngredientsFailures(store, codes, last.labelText, last.ingredients)
  }

  /** Does some url start with the prefix? */
  method SomeStarts(urls: seq<Text>, prefix: Text) returns (found: bool)
    ensures found <==> exists url | url in urls :: prefix <= url
  {
    var i := 0;
    while i < |urls|
      invariant 0 <= i <= |urls|
      invariant forall j | 0 <= j < i :: !(prefix <= urls[j])
    {
      if prefix <= urls[i] {
        assert urls[i] in urls;
        return true;
      }
      i := i + 1;
    }
    found := false;
  }

  method IsParentTrusted(urls: Urls, holder: Text, i: Ingredient, ghost store: Store, trusted: Text) returns (r: bool)
    requires forall uri, url :: Lists(urls, uri, url) <==> LiveTrusts(store, trusted, uri, url)
    ensures r <==> ParentTrusted(store, trusted, holder, i)
  {
    if i.activeManifest.None? || i.labelText.None? {
      return false;
    }
    var uri := IngredientUri(holder, i.labelText.value);
    var known := if uri in urls then urls[uri] else [];
    r := SomeStarts(known, ManifestUrl(i.activeManifest.value));
    assert forall url :: url in known <==> Lists(urls, uri, url);
  }

  method KeepFrom(codes: Codes, i: Ingredient, parentTrusted: bool, before: seq<Entry>) returns (out: seq<Entry>)
    ensures out == before + KeepEntries(codes, i, parentTrusted)
  {
    var entries := Recorded(i);
    ghost var f := e => KeepEntry(codes, i, parentTrusted, e);
    out := before;
    var k := 0;
    assert entries[..0] == [];
    while k < |entries|
      invariant 0 <= k <= |entries|
      invariant out == before + FlatMap(f, entries[..k])
    {
      var e := entries[k];
      FlatMapAppend(f, entries[..k], [e]);
      FlatMapOne(f, e);
      assert entries[..k + 1] == entries[..k] + [e];
      if e.code.Some? && codes.isFailure(e.code.value) {
        if !(parentTrusted && Clearable(codes, i, e)) {
          out := out + [e];
        }
      }
      k := k + 1;
    }
    assert entries[..k] == entries;
  }

  method FindUnverifiedRecordedFailures(store: Store, codes: Codes) returns (out: seq<Entry>)
    ensures out == HoldersFailures(store, codes, store.holders)
  {
    var urls := LiveTrustedUrls(store, codes.trusted);
    out := [];
    var h := 0;
    while h < |store.holders|
      invariant 0 <= h <= |store.holders|
      invariant out == HoldersFailures(store, codes, store.holders[..h])
    {
      out := KeepFromAll(codes, store.holders[h], urls, out, store);
      assert store.holders[..h + 1][..h] == store.holders[..h];
      h := h + 1;
    }
    assert store.holders[..h] == store.holders;
  }

  method KeepFromAll(codes: Codes, holder: Holder, urls: Urls, before: seq<Entry>, ghost store: Store)
    returns (out: seq<Entry>)
    requires forall uri, url :: Lists(urls, uri, url) <==> LiveTrusts(store, codes.trusted, uri, url)
    ensures out == before + IngredientsFailures(store, codes, holder.labelText, holder.ingredients)
  {
    out := before;
    var k := 0;
    while k < |holder.ingredients|
      invariant 0 <= k <= |holder.ingredients|
      invariant out == before + IngredientsFailures(store, codes, holder.labelText, holder.ingredients[..k])
    {
      IngredientsSnoc(store, codes, holder.labelText, holder.ingredients, k);
      Associative(before, IngredientsFailures(store, codes, holder.labelText, holder.ingredients[..k]),
                  IngredientFailures(store, codes, holder.labelText, holder.ingredients[k]));
      out := KeepFromOne(codes, holder.labelText, holder.ingredients[k], urls, out, store);
      k := k + 1;
    }
    assert holder.ingredients[..k] == holder.ingredients;
  }

  lemma IngredientsSnoc(store: Store, codes: Codes, holder: Text, ingredients: seq<Ingredient>, k: nat)
    requires k < |ingredients|
    ensures IngredientsFailures(store, codes, holder, ingredients[..k + 1])
            == IngredientsFailures(store, codes, holder, ingredients[..k])
               + IngredientFailures(store, codes, holder, ingredients[k])
  {
    assert ingredients[..k + 1][..k] == ingredients[..k];
  }

  method KeepFromOne(codes: Codes, holder: Text, i: Ingredient, urls: Urls, before: seq<Entry>, ghost store: Store)
    returns (out: seq<Entry>)
    requires forall uri, url :: Lists(urls, uri, url) <==> LiveTrusts(store, codes.trusted, uri, url)
    ensures out == before + IngredientFailures(store, codes, holder, i)
  {
    var parentTrusted := IsParentTrusted(urls, holder, i, store, codes.trusted);
    out := KeepFrom(codes, i, parentTrusted, before);
  }

  // ---------------------------------------------------------------------------
  // Properties
  // ---------------------------------------------------------------------------

  lemma {:induction false} FlatMapMember<A, B>(f: A -> seq<B>, s: seq<A>, y: B)
    ensures y in FlatMap(f, s) <==> exists x | x in s :: y in f(x)
  {
    if s != [] {
      FlatMapMember(f, s[1..], y);
      assert s == [s[0]] + s[1..];
      if exists x | x in s :: y in f(x) {
        var x :| x in s && y in f(x);
        assert x == s[0] || x in s[1..];
      }
    }
  }

  // What was recorded and what is trusted, spelled out

  predicate InBuckets(b: Buckets, e: Entry) {
    e in b.success || e in b.informational || e in b.failure
  }

  /** The report files the entry in some bucket, its own or of one of its deltas; without a report, the older
      list has it. */
  ghost predicate IsRecorded(i: Ingredient, e: Entry) {
    match i.results
    case Some(r) => InBuckets(r.active, e) || exists d | d in r.deltas :: InBuckets(d.buckets, e)
    case None => e in i.status
  }

  lemma RecordedIff(i: Ingredient, e: Entry)
    ensures e in Recorded(i) <==> IsRecorded(i, e)
  {
    if i.results.Some? {
      FlatMapMember(DeltaEntries, i.results.value.deltas, e);
    }
  }

  /** How often each entry is filed. */
  function Filed(b: Buckets): multiset<Entry> {
    multiset(b.success) + multiset(b.informational) + multiset(b.failure)
  }

  function FiledInAll(deltas: seq<Delta>): multiset<Entry> {
    if deltas == [] then multiset{} else Filed(deltas[0].buckets) + FiledInAll(deltas[1..])
  }

  function FiledIn(i: Ingredient): multiset<Entry> {
    match i.results
    case Some(r) => Filed(r.active) + FiledInAll(r.deltas)
    case None => multiset(i.status)
  }

  lemma {:induction false} FiledInDeltas(deltas: seq<Delta>)
    ensures multiset(FlatMap(DeltaEntries, deltas)) == FiledInAll(deltas)
  {
    if deltas != [] {
      FiledInDeltas(deltas[1..]);
    }
  }

  lemma RecordedCounts(i: Ingredient)
    ensures multiset(Recorded(i)) == FiledIn(i)
  {
    if i.results.Some? {
      FiledInDeltas(i.results.value.deltas);
    }
  }

  /** The entry's url lies under the ingredient's own parent manifest. */
  predicate AboutParent(i: Ingredient, e: Entry) {
    && i.activeManifest.Some? && e.url.Some?
    && Units("self#jumbf=/c2pa/") + i.activeManifest.value + Units("/") <= e.url.value
  }

  /** The live report says, in the delta of this very ingredient, that something under its parent is trusted. */
  ghost predicate LiveTrustsParent(store: Store, trusted: Text, holder: Text, i: Ingredient) {
    && i.labelText.Some?
    && exists d, t | d in store.liveDeltas && t in d.buckets.success ::
         && d.uri == Some(Units("self#jumbf=/c2pa/") + holder + Units("/c2pa.assertions/") + i.labelText.value)
         && t.code == Some(trusted) && AboutParent(i, t)
  }

  lemma UrlsSpelled(l: Text, holder: Text, ingredient: Text)
    ensures ManifestUrl(l) == Units("self#jumbf=/c2pa/") + l + Units("/")
    ensures IngredientUri(holder, ingredient) == Units("self#jumbf=/c2pa/") + holder + Units("/c2pa.assertions/") + ingredient
  {
    assert Units("/") == [SLASH];
  }

  lemma TrustsIff(store: Store, trusted: Text, holder: Text, i: Ingredient)
    ensures ParentTrusted(store, trusted, holder, i) <==> LiveTrustsParent(store, trusted, holder, i)
  {
    if i.activeManifest.Some? && i.labelText.Some? {
      UrlsSpelled(i.activeManifest.value, holder, i.labelText.value);
      var uri := IngredientUri(holder, i.labelText.value);
      if ParentTrusted(store, trusted, holder, i) {
        var url :| LiveTrusts(store, trusted, uri, url) && ManifestUrl(i.activeManifest.value) <= url;
        var d :| d in store.liveDeltas && d.uri == Some(uri)
                 && exists e | e in d.buckets.success :: e.code == Some(trusted) && e.url == Some(url);
        var t :| t in d.buckets.success && t.code == Some(trusted) && t.url == Some(url);
        assert AboutParent(i, t);
      }
      if LiveTrustsParent(store, trusted, holder, i) {
        var d, t :| d in store.liveDeltas && t in d.buckets.success
                    && d.uri == Some(uri) && t.code == Some(trusted) && AboutParent(i, t);
        assert LiveTrusts(store, trusted, uri, t.url.value);
      }
    }
  }

  lemma ClearableIff(codes: Codes, i: Ingredient, e: Entry)
    ensures Clearable(codes, i, e) <==> e.code.Some? && codes.isCleared(e.code.value) && AboutParent(i, e)
  {
    if i.activeManifest.Some? {
      UrlsSpelled(i.activeManifest.value, [], []);
    }
  }

  /** Which recorded entries of an ingredient are reported: every failure, except one of a clearable code
      that is about the ingredient's own parent when the live report trusts that parent's chain. */
  lemma ReportedIff(store: Store, codes: Codes, holder: Text, i: Ingredient, e: Entry)
    ensures e in IngredientFailures(store, codes, holder, i) <==> Reports(store, codes, holder, i, e)
  {
    var t := ParentTrusted(store, codes.trusted, holder, i);
    FlatMapMember(x => KeepEntry(codes, i, t, x), Recorded(i), e);
    RecordedIff(i, e);
    TrustsIff(store, codes.trusted, holder, i);
    ClearableIff(codes, i, e);
  }

  /** `more` records everything `less` does, about the same parent, in whichever buckets and deltas. */
  ghost predicate RecordsAsMuch(less: Ingredient, more: Ingredient) {
    && less.activeManifest == more.activeManifest && less.labelText == more.labelText
    && FiledIn(less) <= FiledIn(more)
  }

  ghost predicate TrustsAsMuch(less: Store, more: Store, trusted: Text) {
    forall uri, url | LiveTrusts(less, trusted, uri, url) :: LiveTrusts(more, trusted, uri, url)
  }

  lemma {:induction false} SameKeep(codes: Codes, i: Ingredient, j: Ingredient, t: bool, entries: seq<Entry>)
    requires i.activeManifest == j.activeManifest
    ensures FlatMap(e => KeepEntry(codes, i, t, e), entries) == FlatMap(e => KeepEntry(codes, j, t, e), entries)
  {
    if entries != [] {
      SameKeep(codes, i, j, t, entries[1..]);
    }
  }

  lemma {:induction false} TrustKeepsLess(codes: Codes, i: Ingredient, t: bool, u: bool, entries: seq<Entry>)
    requires t ==> u
    ensures multiset(FlatMap(e => KeepEntry(codes, i, u, e), entries))
            <= multiset(FlatMap(e => KeepEntry(codes, i, t, e), entries))
  {
    if entries != [] {
      TrustKeepsLess(codes, i, t, u, entries[1..]);
    }
  }

  /** Of one ingredient: recording more, or trusting less, can only report more. */
  lemma IngredientMonotone(store: Store, more: Store, codes: Codes, holder: Text, i: Ingredient, j: Ingredient)
    requires TrustsAsMuch(store, more, codes.trusted) && RecordsAsMuch(i, j)
    ensures multiset(IngredientFailures(more, codes, holder, i)) <= multiset(IngredientFailures(store, codes, holder, j))
  {
    var t, u := ParentTrusted(store, codes.trusted, holder, j), ParentTrusted(more, codes.trusted, holder, i);
    RecordedCounts(i);
    RecordedCounts(j);
    FlatMapMonotone(e => KeepEntry(codes, i, u, e), Recorded(i), Recorded(j));
    SameKeep(codes, i, j, u, Recorded(j));
    TrustKeepsLess(codes, j, t, u, Recorded(j));
  }

  /** The same holders with the same ingredients in the same order, each recording at least as much. */
  ghost predicate HoldersRecordAsMuch(less: seq<Holder>, more: seq<Holder>) {
    && |less| == |more|
    && forall h | 0 <= h < |less| :: HolderRecordsAsMuch(less[h], more[h])
  }

  ghost predicate HolderRecordsAsMuch(less: Holder, more: Holder) {
    less.labelText == more.labelText && IngredientsRecordAsMuch(less.ingredients, more.ingredients)
  }

  ghost predicate IngredientsRecordAsMuch(less: seq<Ingredient>, more: seq<Ingredient>) {
    |less| == |more| && forall k | 0 <= k < |less| :: RecordsAsMuch(less[k], more[k])
  }

  lemma {:induction false} IngredientsMonotone(
    store: Store, more: Store, codes: Codes, holder: Text, a: seq<Ingredient>, b: seq<Ingredient>)
    requires TrustsAsMuch(store, more, codes.trusted) && IngredientsRecordAsMuch(a, b)
    ensures multiset(IngredientsFailures(more, codes, holder, a)) <= multiset(IngredientsFailures(store, codes, holder, b))
  {
    if a != [] {
      var n := |a| - 1;
      IngredientsMonotone(store, more, codes, holder, a[..n], b[..n]);
      IngredientMonotone(store, more, codes, holder, a[n], b[n]);
    }
  }

  /** Main result: over a whole store, recording more or trusting less can only report more; nothing
      reported before is lost, however often it was reported. */
  lemma {:induction false} ReportMonotone(store: Store, more: Store, codes: Codes, a: seq<Holder>, b: seq<Holder>)
    requires TrustsAsMuch(store, more, codes.trusted) && HoldersRecordAsMuch(a, b)
    ensures multiset(HoldersFailures(more, codes, a)) <= multiset(HoldersFailures(store, codes, b))
  {
    if a != [] {
      var n := |a| - 1;
      ReportMonotone(store, more, codes, a[..n], b[..n]);
      IngredientsMonotone(store, more, codes, a[n].labelText, a[n].ingredients, b[n].ingredients);
    }
  }

  /** Main result: how a store's recorded entries are spread over buckets and deltas makes no difference to
      what is reported, counting repeats. */
  lemma BucketsIgnored(codes: Codes, a: Store, b: Store)
    requires a.liveDeltas == b.liveDeltas
    requires HoldersRecordAsMuch(a.holders, b.holders) && HoldersRecordAsMuch(b.holders, a.holders)
    ensures multiset(HoldersFailures(a, codes, a.holders)) == multiset(HoldersFailures(b, codes, b.holders))
  {
    assert TrustsAsMuch(a, b, codes.trusted) && TrustsAsMuch(b, a, codes.trusted);
    ReportMonotone(b, a, codes, a.holders, b.holders);
    ReportMonotone(a, b, codes, b.holders, a.holders);
  }

  // ---------------------------------------------------------------------------
  // What more trust takes away
  // ---------------------------------------------------------------------------

  function ClearEntry(codes: Codes, i: Ingredient, e: Entry): seq<Entry> {
    if e.code.Some? && codes.isFailure(e.code.value) && Clearable(codes, i, e) then [e] else []
  }

  /** The entries of an ingredient that `more` clears and `store` does not: its clearable failures about its
      own parent, when that parent is newly trusted. */
  ghost function NewlyCleared(store: Store, more: Store, codes: Codes, holder: Text, i: Ingredient): seq<Entry> {
    if ParentTrusted(more, codes.trusted, holder, i) && !ParentTrusted(store, codes.trusted, holder, i)
    then FlatMap(e => ClearEntry(codes, i, e), Recorded(i)) else []
  }

  ghost function IngredientsCleared(
    store: Store, more: Store, codes: Codes, holder: Text, ingredients: seq<Ingredient>): seq<Entry>
  {
    if ingredients == [] then []
    else IngredientsCleared(store, more, codes, holder, ingredients[..|ingredients| - 1])
         + NewlyCleared(store, more, codes, holder, ingredients[|ingredients| - 1])
  }

  ghost function HoldersCleared(store: Store, more: Store, codes: Codes, holders: seq<Holder>): seq<Entry> {
    if holders == [] then []
    else
      var last := holders[|holders| - 1];
      HoldersCleared(store, more, codes, holders[..|holders| - 1])
      + IngredientsCleared(store, more, codes, last.labelText, last.ingredients)
  }

  lemma {:induction false} KeptOrCleared(codes: Codes, i: Ingredient, entries: seq<Entry>)
    ensures multiset(FlatMap(e => KeepEntry(codes, i, false, e), entries))
            == multiset(FlatMap(e => KeepEntry(codes, i, true, e), entries))
               + multiset(FlatMap(e => ClearEntry(codes, i, e), entries))
  {
    if entries != [] {
      KeptOrCleared(codes, i, entries[1..]);
    }
  }

  lemma IngredientLost(store: Store, more: Store, codes: Codes, holder: Text, i: Ingredient)
    requires TrustsAsMuch(store, more, codes.trusted)
    ensures multiset(IngredientFailures(store, codes, holder, i))
            == multiset(IngredientFailures(more, codes, holder, i)) + multiset(NewlyCleared(store, more, codes, holder, i))
  {
    KeptOrCleared(codes, i, Recorded(i));
  }

  lemma {:induction false} IngredientsLost(
    store: Store, more: Store, codes: Codes, holder: Text, ingredients: seq<Ingredient>)
    requires TrustsAsMuch(store, more, codes.trusted)
    ensures multiset(IngredientsFailures(store, codes, holder, ingredients))
            == multiset(IngredientsFailures(more, codes, holder, ingredients))
               + multiset(IngredientsCleared(store, more, codes, holder, ingredients))
  {
    if ingredients != [] {
      var n := |ingredients| - 1;
      IngredientsLost(store, more, codes, holder, ingredients[..n]);
      IngredientLost(store, more, codes, holder, ingredients[n]);
    }
  }

  /** Main result: of a whole store's report, more trust takes away exactly the clearable failures about
      parents that are newly trusted, each as often as it was reported. */
  lemma {:induction false} LostOnlyByClearing(store: Store, more: Store, codes: Codes, holders: seq<Holder>)
    requires TrustsAsMuch(store, more, codes.trusted)
    ensures multiset(HoldersFailures(store, codes, holders))
            == multiset(HoldersFailures(more, codes, holders)) + multiset(HoldersCleared(store, more, codes, holders))
  {
    if holders != [] {
      var n := |holders| - 1;
      LostOnlyByClearing(store, more, codes, holders[..n]);
      IngredientsLost(store, more, codes, holders[n].labelText, holders[n].ingredients);
    }
  }

  /** What a cleared entry is. */
  lemma ClearedIff(store: Store, more: Store, codes: Codes, holder: Text, i: Ingredient, e: Entry)
    ensures e in NewlyCleared(store, more, codes, holder, i) <==>
              && IsRecorded(i, e) && e.code.Some? && codes.isFailure(e.code.value)
              && codes.isCleared(e.code.value) && AboutParent(i, e)
              && LiveTrustsParent(more, codes.trusted, holder, i) && !LiveTrustsParent(store, codes.trusted, holder, i)
  {
    RecordedIff(i, e);
    TrustsIff(more, codes.trusted, holder, i);
    TrustsIff(store, codes.trusted, holder, i);
    ClearableIff(codes, i, e);
    FlatMapMember(x => ClearEntry(codes, i, x), Recorded(i), e);
  }

  // ---------------------------------------------------------------------------
  // The whole report
  // ---------------------------------------------------------------------------

  /** Ingredient `i` of some holder has a reported entry `e`. */
  ghost predicate Reports(store: Store, codes: Codes, holder: Text, i: Ingredient, e: Entry) {
    && IsRecorded(i, e)
    && e.code.Some? && codes.isFailure(e.code.value)
    && !(codes.isCleared(e.code.value) && LiveTrustsParent(store, codes.trusted, holder, i) && AboutParent(i, e))
  }

  ghost predicate SomeReports(store: Store, codes: Codes, holders: seq<Holder>, e: Entry) {
    exists h, k | 0 <= h < |holders| && 0 <= k < |holders[h].ingredients| ::
      Reports(store, codes, holders[h].labelText, holders[h].ingredients[k], e)
  }

  lemma {:induction false} IngredientsReported(
    store: Store, codes: Codes, holder: Text, ingredients: seq<Ingredient>, e: Entry)
    ensures e in IngredientsFailures(store, codes, holder, ingredients)
            <==> exists k | 0 <= k < |ingredients| :: Reports(store, codes, holder, ingredients[k], e)
  {
    if ingredients != [] {
      var n := |ingredients| - 1;
      IngredientsReported(store, codes, holder, ingredients[..n], e);
      ReportedIff(store, codes, holder, ingredients[n], e);
      assert forall k | 0 <= k < n :: ingredients[..n][k] == ingredients[k];
    }
  }

  /** Main result: an entry is reported exactly when some ingredient of some holder recorded it as a
      failure, and it is not a clearable one about a parent that the live report trusts. */
  lemma {:induction false} ReportIff(store: Store, codes: Codes, holders: seq<Holder>, e: Entry)
    ensures e in HoldersFailures(store, codes, holders) <==> SomeReports(store, codes, holders, e)
  {
    if holders != [] {
      var n := |holders| - 1;
      ReportIff(store, codes, holders[..n], e);
      IngredientsReported(store, codes, holders[n].labelText, holders[n].ingredients, e);
      SomeReportsSnoc(store, codes, holders, e, n);
    }
  }

  lemma SomeReportsSnoc(store: Store, codes: Codes, holders: seq<Holder>, e: Entry, n: nat)
    requires |holders| == n + 1
    ensures SomeReports(store, codes, holders, e) <==>
              || SomeReports(store, codes, holders[..n], e)
              || exists k | 0 <= k < |holders[n].ingredients| ::
                   Reports(store, codes, holders[n].labelText, holders[n].ingredients[k], e)
  {
    if SomeReports(store, codes, holders[..n], e) {
      var h, k :| 0 <= h < n && 0 <= k < |holders[..n][h].ingredients|
                  && Reports(store, codes, holders[..n][h].labelText, holders[..n][h].ingredients[k], e);
      assert Reports(store, codes, holders[h].labelText, holders[h].ingredients[k], e);
    }
    if SomeReports(store, codes, holders, e) {
      var h, k :| 0 <= h <= n && 0 <= k < |holders[h].ingredients|
                  && Reports(store, codes, holders[h].labelText, holders[h].ingredients[k], e);
      assert h < n ==> Reports(store, codes, holders[..n][h].labelText, holders[..n][h].ingredients[k], e);
    }
  }

  // ---------------------------------------------------------------------------
  // The order of the report
  // ---------------------------------------------------------------------------

  lemma HoldersAddOne(store: Store, codes: Codes, s: seq<Holder>, x: Holder)
    ensures HoldersFailures(store, codes, s + [x])
            == HoldersFailures(store, codes, s) + IngredientsFailures(store, codes, x.labelText, x.ingredients)
  {
    assert (s + [x])[..|s|] == s;
  }

  lemma IngredientsAddOne(store: Store, codes: Codes, holder: Text, s: seq<Ingredient>, x: Ingredient)
    ensures IngredientsFailures(store, codes, holder, s + [x])
            == IngredientsFailures(store, codes, holder, s) + IngredientFailures(store, codes, holder, x)
  {
    assert (s + [x])[..|s|] == s;
  }

  lemma Snoc<T>(s: seq<T>)
    requires s != []
    ensures s == s[..|s| - 1] + [s[|s| - 1]]
  {
  }

  /** What stands first is reported first: holders and, in each, ingredients in the order of the store; in each
      ingredient its own buckets before its deltas, and in each group successes, informational entries and failures. */
  lemma {:induction false} HoldersInOrder(store: Store, codes: Codes, a: seq<Holder>, b: seq<Holder>)
    ensures HoldersFailures(store, codes, a + b) == HoldersFailures(store, codes, a) + HoldersFailures(store, codes, b)
  {
    if b == [] {
      assert a + b == a;
    } else {
      HoldersInOrder(store, codes, a, b[..|b| - 1]);
      HoldersOneMore(store, codes, a, b[..|b| - 1], b[|b| - 1]);
      Snoc(b);
    }
  }

  lemma HoldersOneMore(store: Store, codes: Codes, a: seq<Holder>, b: seq<Holder>, x: Holder)
    requires HoldersFailures(store, codes, a + b) == HoldersFailures(store, codes, a) + HoldersFailures(store, codes, b)
    ensures HoldersFailures(store, codes, a + (b + [x]))
            == HoldersFailures(store, codes, a) + HoldersFailures(store, codes, b + [x])
  {
    HoldersAddOne(store, codes, a + b, x);
    HoldersAddOne(store, codes, b, x);
    Associative(a, b, [x]);
    Associative(HoldersFailures(store, codes, a), HoldersFailures(store, codes, b),
                IngredientsFailures(store, codes, x.labelText, x.ingredients));
  }

  lemma {:induction false} IngredientsInOrder(
    store: Store, codes: Codes, holder: Text, a: seq<Ingredient>, b: seq<Ingredient>)
    ensures IngredientsFailures(store, codes, holder, a + b)
            == IngredientsFailures(store, codes, holder, a) + IngredientsFailures(store, codes, holder, b)
  {
    if b == [] {
      assert a + b == a;
    } else {
      IngredientsInOrder(store, codes, holder, a, b[..|b| - 1]);
      IngredientsOneMore(store, codes, holder, a, b[..|b| - 1], b[|b| - 1]);
      Snoc(b);
    }
  }

  lemma IngredientsOneMore(
    store: Store, codes: Codes, holder: Text, a: seq<Ingredient>, b: seq<Ingredient>, x: Ingredient)
    requires IngredientsFailures(store, codes, holder, a + b)
             == IngredientsFailures(store, codes, holder, a) + IngredientsFailures(store, codes, holder, b)
    ensures IngredientsFailures(store, codes, holder, a + (b + [x]))
            == IngredientsFailures(store, codes, holder, a) + IngredientsFailures(store, codes, holder, b + [x])
  {
    IngredientsAddOne(store, codes, holder, a + b, x);
    IngredientsAddOne(store, codes, holder, b, x);
    Associative(a, b, [x]);
    Associative(IngredientsFailures(store, codes, holder, a), IngredientsFailures(store, codes, holder, b),
                IngredientFailures(store, codes, holder, x));
  }

  /** One ingredient of one holder, whatever else is in the store. */
  lemma OneIngredient(store: Store, codes: Codes, holder: Text, i: Ingredient)
    ensures HoldersFailures(store, codes, [Holder(holder, [i])]) == IngredientFailures(store, codes, holder, i)
  {
    IngredientsInOrder(store, codes, holder, [], [i]);
    assert [i][..0] == [] && [Holder(holder, [i])][..0] == [];
  }

  /** An ingredient's report on a list of entries. */
  ghost function ReportOn(store: Store, codes: Codes, holder: Text, i: Ingredient, entries: seq<Entry>): seq<Entry> {
    IngredientFailures(store, codes, holder, i.(results := None, status := entries))
  }

  lemma ReportOnIs(store: Store, codes: Codes, holder: Text, i: Ingredient, entries: seq<Entry>)
    ensures ReportOn(store, codes, holder, i, entries)
            == FlatMap(e => KeepEntry(codes, i, ParentTrusted(store, codes.trusted, holder, i), e), entries)
  {
    var j := i.(results := None, status := entries);
    SameKeep(codes, j, i, ParentTrusted(store, codes.trusted, holder, i), entries);
  }

  lemma EntriesInOrder(store: Store, codes: Codes, holder: Text, i: Ingredient, a: seq<Entry>, b: seq<Entry>)
    ensures ReportOn(store, codes, holder, i, a + b)
            == ReportOn(store, codes, holder, i, a) + ReportOn(store, codes, holder, i, b)
  {
    ReportOnIs(store, codes, holder, i, a);
    ReportOnIs(store, codes, holder, i, b);
    ReportOnIs(store, codes, holder, i, a + b);
    FlatMapAppend(e => KeepEntry(codes, i, ParentTrusted(store, codes.trusted, holder, i), e), a, b);
  }

  function AllOf(deltas: seq<Delta>): seq<Entry> {
    if deltas == [] then []
    else deltas[0].buckets.success + deltas[0].buckets.informational + deltas[0].buckets.failure + AllOf(deltas[1..])
  }

  lemma {:induction false} DeltasInOrder(deltas: seq<Delta>)
    ensures FlatMap(DeltaEntries, deltas) == AllOf(deltas)
  {
    if deltas != [] {
      DeltasInOrder(deltas[1..]);
    }
  }

  lemma BucketsInOrder(store: Store, codes: Codes, holder: Text, i: Ingredient)
    ensures i.results.Some? ==>
              var active := i.results.value.active;
              IngredientFailures(store, codes, holder, i)
              == ReportOn(store, codes, holder, i,
                          active.success + active.informational + active.failure + AllOf(i.results.value.deltas))
    ensures i.results.None? ==> IngredientFailures(store, codes, holder, i) == ReportOn(store, codes, holder, i, i.status)
  {
    if i.results.Some? {
      DeltasInOrder(i.results.value.deltas);
    }
    ReportOnIs(store, codes, holder, i, Recorded(i));
  }

  // ---------------------------------------------------------------------------
  // Labels are not confused
  // ---------------------------------------------------------------------------

  predicate SlashFree(t: Text) {
    forall i | 0 <= i < |t| :: t[i] != SLASH
  }

  lemma {:induction false} UpToSlashUnique(a: Text, x: Text, b: Text, y: Text)
    requires SlashFree(a) && SlashFree(b) && a + [SLASH] + x == b + [SLASH] + y
    ensures a == b && x == y
  {
    var l, r := a + [SLASH] + x, b + [SLASH] + y;
    assert l[0] == if a == [] then SLASH else a[0];
    assert r[0] == if b == [] then SLASH else b[0];
    if a == [] {
      assert b == [];
      assert x == l[1..] && y == r[1..];
    } else {
      assert b != [];
      assert l[1..] == a[1..] + [SLASH] + x && r[1..] == b[1..] + [SLASH] + y;
      UpToSlashUnique(a[1..], x, b[1..], y);
      assert a == [a[0]] + a[1..] && b == [b[0]] + b[1..];
    }
  }

  /** A url lies under the manifests of at most one label without a slash, even where one label is the
      start of another. */
  lemma UnderOneManifest(a: Text, b: Text, url: Text)
    requires SlashFree(a) && SlashFree(b)
    requires ManifestUrl(a) <= url && ManifestUrl(b) <= url
    ensures a == b
  {
    var n := |MANIFEST_PREFIX|;
    var x, y := url[|ManifestUrl(a)|..], url[|ManifestUrl(b)|..];
    assert url == ManifestUrl(a) + x && url == ManifestUrl(b) + y;
    assert url[n..] == a + [SLASH] + x && url[n..] == b + [SLASH] + y;
    UpToSlashUnique(a, x, b, y);
  }

  /** An assertion URI belongs to one ingredient of one holder. */
  lemma UriUnique(holder: Text, ingredient: Text, other: Text, otherIngredient: Text)
    requires SlashFree(holder) && SlashFree(other)
    requires IngredientUri(holder, ingredient) == IngredientUri(other, otherIngredient)
    ensures holder == other && ingredient == otherIngredient
  {
    var n := |MANIFEST_PREFIX|;
    AssertionsSlash();
    var x, y := ASSERTIONS[1..] + ingredient, ASSERTIONS[1..] + otherIngredient;
    var l, r := IngredientUri(holder, ingredient), IngredientUri(other, otherIngredient);
    assert l[n..] == holder + [SLASH] + x && r[n..] == other + [SLASH] + y;
    UpToSlashUnique(holder, x, other, y);
    assert ingredient == x[|ASSERTIONS| - 1..] && otherIngredient == y[|ASSERTIONS| - 1..];
  }

  lemma AssertionsSlash()
    ensures ASSERTIONS != [] && ASSERTIONS[0] == SLASH && ASSERTIONS == [SLASH] + ASSERTIONS[1..]
  {
    assert "/c2pa.assertions/"[0] == '/';
  }

  /** Trust in one parent clears nothing about another: an entry cleared for an ingredient is about a
      manifest that no other slash-free parent label shares. */
  lemma ClearedIsAboutParent(codes: Codes, i: Ingredient, e: Entry, other: Text)
    requires Clearable(codes, i, e) && SlashFree(i.activeManifest.value) && SlashFree(other)
    requires ManifestUrl(other) <= e.url.value
    ensures other == i.activeManifest.value
  {
    UnderOneManifest(i.activeManifest.value, other, e.url.value);
  }
}
