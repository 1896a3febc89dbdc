/**
 What the scan of timestamp-authority names reads: which entries it looks at, which text of a url is the label and
 which text of an explanation is the name, each said without the functions that find it.
 */
module TsaReading {
  import opened Collections
  import opened Options
  import opened Texts
  import opened TsaNames

  // ---------------------------------------------------------------------------
  // Searching
  // ---------------------------------------------------------------------------

  predicate OccursAt(t: Text, p: Text, i: nat) {
    i + |p| <= |t| && t[i..i + |p|] == p
  }

  lemma OccursInRest(t: Text, p: Text, i: nat)
    requires t != []
    ensures OccursAt(t[1..], p, i) <==> OccursAt(t, p, i + 1)
    ensures OccursAt(t, p, 0) <==> p <= t
  {
    if i + |p| <= |t| - 1 {
      assert t[1..][i..i + |p|] == t[i + 1..i + 1 + |p|];
    }
  }

  predicate IsFirst(t: Text, p: Text, i: nat) {
    OccursAt(t, p, i) && forall j | 0 <= j < i :: !OccursAt(t, p, j)
  }

  predicate IsLast(t: Text, p: Text, i: nat) {
    OccursAt(t, p, i) && forall j | i < j <= |t| :: !OccursAt(t, p, j)
  }

  lemma {:induction false} IndexOfIs(t: Text, p: Text)
    requires p != []
    ensures match IndexOf(t, p)
            case Some(i) => IsFirst(t, p, i)
            case None => forall i | 0 <= i <= |t| :: !OccursAt(t, p, i)
  {
    if t != [] {
      OccursInRest(t, p, 0);
      IndexOfIs(t[1..], p);
      forall i | 1 <= i <= |t|
        ensures OccursAt(t, p, i) <==> OccursAt(t[1..], p, i - 1)
      {
        OccursInRest(t, p, i - 1);
      }
    }
  }

  lemma {:induction false} LastIndexOfIs(t: Text, p: Text)
    requires p != []
    ensures match LastIndexOf(t, p)
            case Some(i) => IsLast(t, p, i)
            case None => forall i | 0 <= i <= |t| :: !OccursAt(t, p, i)
  {
    if t != [] {
      OccursInRest(t, p, 0);
      LastIndexOfIs(t[1..], p);
      forall i | 1 <= i <= |t|
        ensures OccursAt(t, p, i) <==> OccursAt(t[1..], p, i - 1)
      {
        OccursInRest(t, p, i - 1);
      }
    }
  }

  // ---------------------------------------------------------------------------
  // Names
  // ---------------------------------------------------------------------------

  /** The part of an explanation that is read: its first 277 code units. */
  function ReadPart(explanation: Text): Text {
    if |explanation| <= 277 then explanation else explanation[..277]
  }

  lemma LiteralLengths()
    ensures |Units(": ")| == 2 && |Units(", trust list:")| == 13
  {
  }

  /** Main result on names: the name is what follows the first `: ` of the part that is read, up to the last
      `, trust list:` after it if there is one, cleaned; without the first there is no name. */
  lemma NameIs(explanation: Text, i: nat, raw: Text)
    requires var w := ReadPart(explanation);
             IsFirst(w, Units(": "), i) && i + 2 <= |w| && raw == w[i + 2..]
    ensures (forall j | 0 <= j <= |raw| :: !OccursAt(raw, Units(", trust list:"), j)) ==> NameIn(explanation) == Cleaned(raw)
    ensures forall j | 0 <= j <= |raw| && IsLast(raw, Units(", trust list:"), j) :: NameIn(explanation) == Cleaned(raw[..j])
  {
    LiteralLengths();
    var w := ReadPart(explanation);
    IndexOfIs(w, SEPARATOR);
    LastIndexOfIs(raw, TRUST_LIST_SEP);
    FirstIsUnique(w, SEPARATOR, i, IndexOf(w, SEPARATOR).GetOr(i));
    forall j | 0 <= j <= |raw| && IsLast(raw, TRUST_LIST_SEP, j)
      ensures LastIndexOf(raw, TRUST_LIST_SEP) == Some(j)
    {
      LastIsUnique(raw, TRUST_LIST_SEP, j, LastIndexOf(raw, TRUST_LIST_SEP).GetOr(j));
    }
  }

  lemma FirstIsUnique(t: Text, p: Text, i: nat, j: nat)
    requires IsFirst(t, p, i) && IsFirst(t, p, j)
    ensures i == j
  {
  }

  lemma LastIsUnique(t: Text, p: Text, i: nat, j: nat)
    requires IsLast(t, p, i) && IsLast(t, p, j)
    ensures i == j
  {
  }

  lemma NoNameWithoutSeparator(explanation: Text)
    requires forall i | 0 <= i <= 277 :: !OccursAt(ReadPart(explanation), Units(": "), i)
    ensures NameIn(explanation) == []
  {
    LiteralLengths();
    IndexOfIs(ReadPart(explanation), SEPARATOR);
    CleanTextKept([]);
  }

  // ---------------------------------------------------------------------------
  // Cleaning
  // ---------------------------------------------------------------------------

  /** The control bytes that are removed: all below a blank but tab, line feed and carriage return, and delete. */
  predicate IsControlByte(u: nat) {
    (u < 0x20 && u != 0x09 && u != 0x0A && u != 0x0D) || u == 0x7F
  }

  /** Removing control bytes removes them wherever they stand, and nothing else. */
  lemma {:induction false} ControlsRemoved(a: Text, u: CodeUnit, b: Text)
    ensures WithoutControls([]) == []
    ensures WithoutControls(a + [u] + b)
            == WithoutControls(a) + (if IsControlByte(u) then [] else [u]) + WithoutControls(b)
  {
    if a == [] {
      assert [] + [u] + b == [u] + b;
      assert ([u] + b)[1..] == b;
    } else {
      var first := if IsControlByte(a[0]) then [] else [a[0]];
      var middle := if IsControlByte(u) then [] else [u];
      ControlsRemoved(a[1..], u, b);
      assert (a + [u] + b)[1..] == a[1..] + [u] + b;
      Associative(first, WithoutControls(a[1..]) + middle, WithoutControls(b));
      Associative(first, WithoutControls(a[1..]), middle);
    }
  }

  /** A high surrogate followed by a low one, or neither. */
  predicate IsPairedAt(t: Text, i: nat)
    requires i < |t|
  {
    && (0xD800 <= t[i] <= 0xDBFF ==> i + 1 < |t| && 0xDC00 <= t[i + 1] <= 0xDFFF)
    && (0xDC00 <= t[i] <= 0xDFFF ==> i > 0 && 0xD800 <= t[i - 1] <= 0xDBFF)
  }

  /** What may be stored: at most 200 code units, no control byte, and every surrogate in a pair. */
  predicate Storable(t: Text) {
    && |t| <= 200
    && (forall i | 0 <= i < |t| :: !IsControlByte(t[i]))
    && (forall i | 0 <= i < |t| :: IsPairedAt(t, i))
  }

  lemma StorableIff(t: Text)
    ensures Storable(t) <==> |t| <= MAX_TSA_NAME && ControlFree(t) && WellFormedUtf16(t)
  {
    forall i | 0 <= i < |t|
      ensures IsPairedAt(t, i) <==> !IsLone(t, i)
      ensures IsControlByte(t[i]) <==> IsControl(t[i])
    {
    }
  }

  /** Every name is storable. */
  lemma NameStorable(explanation: Text)
    ensures Storable(NameIn(explanation))
  {
    NamesAreSafe(explanation);
    StorableIff(NameIn(explanation));
  }

  /** A storable name without blank ends is read as it was written, whatever comes before the separator and
      whatever trust list comes behind. */
  lemma WrittenNameIsRead(prefix: Text, name: Text, list: Text)
    requires Storable(name) && (name != [] ==> !IsWhite(name[0]) && !IsWhite(name[|name| - 1]))
    requires var whole := prefix + Units(": ") + name + Units(", trust list:") + list;
             && |whole| <= 277
             && IsFirst(whole, Units(": "), |prefix|)
             && IsLast(name + Units(", trust list:") + list, Units(", trust list:"), |name|)
    ensures NameIn(prefix + Units(": ") + name + Units(", trust list:") + list) == name
  {
    LiteralLengths();
    WholeParts(prefix, Units(": "), name, Units(", trust list:"), list);
    NameIs(prefix + Units(": ") + name + Units(", trust list:") + list, |prefix|, name + Units(", trust list:") + list);
    StorableIff(name);
    CleanTextKept(name);
  }

  lemma WholeParts(prefix: Text, a: Text, name: Text, b: Text, list: Text)
    ensures (prefix + a + name + b + list)[|prefix| + |a|..] == name + b + list
    ensures (name + b + list)[..|name|] == name
  {
    assert prefix + a + name + b + list == (prefix + a) + (name + b + list);
  }

  // ---------------------------------------------------------------------------
  // Labels
  // ---------------------------------------------------------------------------

  /** At position `i` the url has a signature's path for this label. */
  predicate LabelAt(url: Text, i: nat, l: Text) {
    && l != [] && (forall k | 0 <= k < |l| :: l[k] != 0x2F)
    && OccursAt(url, Units("/c2pa/") + l + Units("/c2pa.signature"), i)
  }

  lemma {:induction false} UpToSlashIs(l: Text, rest: Text)
    requires (forall k | 0 <= k < |l| :: l[k] != 0x2F) && rest != [] && rest[0] == 0x2F
    ensures UpToSlash(l + rest) == l
  {
    if l == [] {
      assert l + rest == rest;
    } else {
      UpToSlashIs(l[1..], rest);
      assert (l + rest)[1..] == l[1..] + rest;
    }
  }

  lemma {:induction false} UpToSlashFree(t: Text)
    ensures forall k | 0 <= k < |UpToSlash(t)| :: UpToSlash(t)[k] != 0x2F
    ensures UpToSlash(t) <= t
  {
    if t != [] && t[0] != 0x2F {
      UpToSlashFree(t[1..]);
      assert t == [t[0]] + t[1..];
    }
  }

  lemma SlashStarts()
    ensures SIGNATURE_SEGMENT != [] && SIGNATURE_SEGMENT[0] == 0x2F && C2PA_SEGMENT != []
  {
    assert "/c2pa.signature"[0] == '/';
  }

  /** The label at the very start of a url, if there is one. */
  function LabelHere(url: Text): Option<Text> {
    if C2PA_SEGMENT <= url then
      var rest := url[|C2PA_SEGMENT|..];
      UpToSlashFits(rest);
      var l := UpToSlash(rest);
      if l != [] && SIGNATURE_SEGMENT <= rest[|l|..] then Some(l) else None
    else None
  }

  lemma LabelHereIs(url: Text, l: Text)
    ensures LabelHere(url) == Some(l) <==> LabelAt(url, 0, l)
  {
    if LabelHere(url) == Some(l) {
      LabelHereIsAtStart(url, l);
    }
    if LabelAt(url, 0, l) {
      LabelAtStartIsHere(url, l);
    }
  }

  lemma LabelHereIsAtStart(url: Text, l: Text)
    requires LabelHere(url) == Some(l)
    ensures LabelAt(url, 0, l)
  {
    SlashStarts();
    var whole := C2PA_SEGMENT + l + SIGNATURE_SEGMENT;
    var rest := url[|C2PA_SEGMENT|..];
    UpToSlashFree(rest);
    assert rest == l + rest[|l|..];
    assert url == C2PA_SEGMENT + (l + (SIGNATURE_SEGMENT + rest[|l|..][|SIGNATURE_SEGMENT|..]));
    assert url[0..|whole|] == whole;
  }

  lemma LabelAtStartIsHere(url: Text, l: Text)
    requires LabelAt(url, 0, l)
    ensures LabelHere(url) == Some(l)
  {
    SlashStarts();
    var whole := C2PA_SEGMENT + l + SIGNATURE_SEGMENT;
    var after := url[|whole|..];
    assert url == whole + after;
    assert url == C2PA_SEGMENT + (l + (SIGNATURE_SEGMENT + after));
    var rest := url[|C2PA_SEGMENT|..];
    assert rest == l + (SIGNATURE_SEGMENT + after);
    UpToSlashIs(l, SIGNATURE_SEGMENT + after);
    assert rest[|l|..] == SIGNATURE_SEGMENT + after;
  }

  lemma LabelInIs(url: Text)
    ensures LabelIn(url) == if url == [] then None else if LabelHere(url).Some? then LabelHere(url) else LabelIn(url[1..])
  {
  }

  /** Main result on labels: a url gives a label exactly when it has a signature's path for some label, and the label
      is that of the first such path. */
  lemma {:induction false} LabelIs(url: Text)
    ensures match LabelIn(url)
            case Some(l) => exists i: nat :: LabelAt(url, i, l) && forall j, m | 0 <= j < i :: !LabelAt(url, j, m)
            case None => forall i: nat, l :: !LabelAt(url, i, l)
  {
    LabelInIs(url);
    SlashStarts();
    if url != [] {
      if LabelHere(url).Some? {
        LabelHereIs(url, LabelHere(url).value);
      } else {
        forall l
          ensures !LabelAt(url, 0, l)
        {
          LabelHereIs(url, l);
        }
        LabelIs(url[1..]);
        Further(url);
      }
    }
  }

  lemma Further(url: Text)
    requires url != [] && forall l :: !LabelAt(url, 0, l)
    requires match LabelIn(url[1..])
             case Some(l) => exists i: nat :: LabelAt(url[1..], i, l) && forall j, m | 0 <= j < i :: !LabelAt(url[1..], j, m)
             case None => forall i: nat, l :: !LabelAt(url[1..], i, l)
    ensures match LabelIn(url[1..])
            case Some(l) => exists i: nat :: LabelAt(url, i, l) && forall j, m | 0 <= j < i :: !LabelAt(url, j, m)
            case None => forall i: nat, l :: !LabelAt(url, i, l)
  {
    forall i: nat, l
      ensures LabelAt(url, i + 1, l) <==> LabelAt(url[1..], i, l)
    {
      OccursInRest(url, Units("/c2pa/") + l + Units("/c2pa.signature"), i);
    }
    match LabelIn(url[1..])
    case Some(l) =>
      var i: nat :| LabelAt(url[1..], i, l) && forall j, m | 0 <= j < i :: !LabelAt(url[1..], j, m);
      assert LabelAt(url, i + 1, l);
      forall j, m | 0 <= j < i + 1
        ensures !LabelAt(url, j, m)
      {
        if j > 0 {
          assert LabelAt(url, (j - 1) + 1, m) <==> LabelAt(url[1..], j - 1, m);
        }
      }
    case None =>
      forall i: nat, l
        ensures !LabelAt(url, i, l)
      {
        if i > 0 {
          assert LabelAt(url, (i - 1) + 1, l) <==> LabelAt(url[1..], i - 1, l);
        }
      }
  }

  // ---------------------------------------------------------------------------
  // Entries
  // ---------------------------------------------------------------------------

  /** The reports that are looked at, in order: the active manifest's, the ingredient deltas', and those recorded
      with each manifest's ingredients. */
  function ReportsOf(s: Store): seq<Option<Buckets>> {
    [s.active] + s.deltas + FlatMap(m => m, s.manifests)
  }

  /** Of a report the successes and then the informational entries; its failures are not looked at. */
  function LookedAt(b: Option<Buckets>): seq<Entry> {
    match b
    case None => []
    case Some(Buckets(success, informational, _)) => success + informational
  }

  lemma {:induction false} SurfacedAllIs(bs: seq<Option<Buckets>>)
    ensures SurfacedAll(bs) == FlatMap(LookedAt, bs)
  {
    if bs != [] {
      var n := |bs| - 1;
      SurfacedAllIs(bs[..n]);
      FlatMapAppend(LookedAt, bs[..n], [bs[n]]);
      FlatMapOne(LookedAt, bs[n]);
      assert bs == bs[..n] + [bs[n]];
    }
  }

  lemma {:induction false} SurfacedInIs(manifests: seq<seq<Option<Buckets>>>)
    ensures SurfacedIn(manifests) == FlatMap(LookedAt, FlatMap(m => m, manifests))
  {
    var f := (m: seq<Option<Buckets>>) => m;
    if manifests != [] {
      var n := |manifests| - 1;
      SurfacedInIs(manifests[..n]);
      SurfacedAllIs(manifests[n]);
      FlatMapAppend(f, manifests[..n], [manifests[n]]);
      FlatMapOne(f, manifests[n]);
      FlatMapAppend(LookedAt, FlatMap(f, manifests[..n]), manifests[n]);
      assert manifests == manifests[..n] + [manifests[n]];
    }
  }

  /** Main result on scanning: the entries scanned are the successes and informational entries of the reports, in
      order. */
  lemma ScannedIs(s: Store)
    ensures Scanned(s) == FlatMap(LookedAt, ReportsOf(s))
  {
    SurfacedAllIs(s.deltas);
    SurfacedInIs(s.manifests);
    var rest := FlatMap(m => m, s.manifests);
    FlatMapAppend(LookedAt, [s.active] + s.deltas, rest);
    FlatMapAppend(LookedAt, [s.active], s.deltas);
    FlatMapOne(LookedAt, s.active);
  }

  /** What an entry offers, spelled out: one whose code starts with `timeStamp.`, the first label in its url, and the
      name in its explanation. */
  lemma OfferIs(e: Entry, l: Text, name: Text)
    ensures Offer(e) == Some((l, name)) <==>
              && e.code.Some? && Units("timeStamp.") <= e.code.value
              && e.url.Some? && LabelIn(e.url.value) == Some(l)
              && e.explanation.Some? && NameIn(e.explanation.value) == name && name != []
  {
    if e.explanation.None? {
      NoNameWithoutSeparator([]);
    }
    LabelIs([]);
    SlashStarts();
  }

  /** The entry is a timestamp one that names this authority for this label. */
  predicate Names(e: Entry, l: Text, name: Text) {
    && e.code.Some? && Units("timeStamp.") <= e.code.value
    && e.url.Some? && LabelIn(e.url.value) == Some(l)
    && e.explanation.Some? && NameIn(e.explanation.value) == name && name != []
  }

  /**
   Main result on the record: a label is in it exactly when it is not inherited and some entry looked at names an
   authority for it; the name is that of the first such entry, and may be stored.
   */
  lemma RecordIs(s: Store, inherited: Inherited, l: Text)
    ensures var entries := FlatMap(LookedAt, ReportsOf(s));
            var record := ConsiderAll(map[], Scanned(s), inherited);
            && (l in record <==> l !in inherited && exists e, name | e in entries :: Names(e, l, name))
            && (l in record ==>
                  && Storable(record[l])
                  && exists i | 0 <= i < |entries| ::
                       && Names(entries[i], l, record[l])
                       && forall j, name | 0 <= j < i :: !Names(entries[j], l, name))
  {
    var entries := Scanned(s);
    ScannedIs(s);
    FirstUsableWins(entries, inherited, l);
    forall e
      ensures OffersFor(e, l) <==> exists name :: Names(e, l, name)
      ensures forall name :: Names(e, l, name) <==> Offer(e) == Some((l, name))
    {
      forall name
        ensures Names(e, l, name) <==> Offer(e) == Some((l, name))
      {
        OfferIs(e, l, name);
      }
      if OffersFor(e, l) {
        assert Offer(e) == Some((l, Offer(e).value.1));
      }
    }
    var record := ConsiderAll(map[], entries, inherited);
    if l in record {
      var i: nat :| FirstOffers(entries, l, i) && Offer(entries[i]).value.1 == record[l];
      assert Names(entries[i], l, record[l]);
      NameStorable(entries[i].explanation.value);
    }
  }
}
