/**
 Timestamp-authority names lifted out of validation reports: which name each manifest label gets,
 and that every name kept is safe to store, being bounded, free of control bytes and well-formed
 UTF-16.
 */
module TsaNames {
  import opened Options
  import opened Texts

  const TIME_STAMP: Text := Units("timeStamp.")
  const SEPARATOR: Text := Units(": ")
  const TRUST_LIST_SEP: Text := Units(", trust list:")
  const C2PA_SEGMENT: Text := Units("/c2pa/")
  const SIGNATURE_SEGMENT: Text := Units("/c2pa.signature")
  const MAX_TSA_NAME: nat := 200
  const EXPLANATION_WINDOW: nat := 64 + MAX_TSA_NAME + |TRUST_LIST_SEP|

  /** A validation entry; fields that are not strings are `None`, as are all of a null entry's. */
  datatype Entry = Entry(code: Option<Text>, url: Option<Text>, explanation: Option<Text>)

  datatype Buckets = Buckets(success: seq<Entry>, informational: seq<Entry>, failure: seq<Entry>)

  /** The reports that are scanned: the active manifest's, its deltas', and per manifest those of its
      ingredients; absent ones are `None`. */
  datatype Store = Store(
    active: Option<Buckets>, deltas: seq<Option<Buckets>>, manifests: seq<seq<Option<Buckets>>>)

  // ---------------------------------------------------------------------------
  // Text operations
  // ---------------------------------------------------------------------------

  predicate IsControl(u: CodeUnit) {
    u <= 0x08 || u == 0x0B || u == 0x0C || 0x0E <= u <= 0x1F || u == 0x7F
  }

  function Slice(t: Text, n: nat): Text {
    if |t| <= n then t else t[..n]
  }

  function WithoutControls(t: Text): Text {
    if t == [] then [] else (if IsControl(t[0]) then [] else [t[0]]) + WithoutControls(t[1..])
  }

  /** Is the code unit at `i` a surrogate without its partner next to it? */
  predicate IsLone(t: Text, i: nat)
    requires i < |t|
  {
    (IsHigh(t[i]) && !(i + 1 < |t| && IsLow(t[i + 1]))) || (IsLow(t[i]) && !(i > 0 && IsHigh(t[i - 1])))
  }

  /** The part of `t` from `i` on, with the surrogates that are lone in `t` removed. */
  function PairedFrom(t: Text, i: nat): Text
    requires i <= |t|
    decreases |t| - i
  {
    if i == |t| then [] else (if IsLone(t, i) then [] else [t[i]]) + PairedFrom(t, i + 1)
  }

  function TrimStart(t: Text): Text {
    if t != [] && IsWhite(t[0]) then TrimStart(t[1..]) else t
  }

  function TrimEnd(t: Text): Text {
    if t != [] && IsWhite(t[|t| - 1]) then TrimEnd(t[..|t| - 1]) else t
  }

  function Trim(t: Text): Text {
    TrimEnd(TrimStart(t))
  }

  function IndexOf(t: Text, p: Text): Option<nat> {
    if p <= t then Some(0)
    else if t == [] then None
    else match IndexOf(t[1..], p)
         case None => None
         case Some(i) => Some(i + 1)
  }

  function LastIndexOf(t: Text, p: Text): Option<nat> {
    if t == [] then (if p == [] then Some(0) else None)
    else match LastIndexOf(t[1..], p)
         case Some(i) => Some(i + 1)
         case None => if p <= t then Some(0) else None
  }

  lemma {:induction false} IndexFits(t: Text, p: Text)
    ensures IndexOf(t, p).Some? ==> IndexOf(t, p).value + |p| <= |t|
    ensures LastIndexOf(t, p).Some? ==> LastIndexOf(t, p).value + |p| <= |t|
  {
    if t != [] {
      IndexFits(t[1..], p);
    }
  }

  /** What the name becomes: cut to length, repaired and trimmed. */
  function Cleaned(raw: Text): Text {
    Trim(PairedFrom(WithoutControls(Slice(raw, MAX_TSA_NAME)), 0))
  }

  /** The name an explanation carries: what follows the first separator, up to a trust-list suffix. */
  function NameIn(explanation: Text): Text {
    var window := Slice(explanation, EXPLANATION_WINDOW);
    IndexFits(window, SEPARATOR);
    var sep := IndexOf(window, SEPARATOR);
    var raw := if sep.Some? then window[sep.value + |SEPARATOR|..] else [];
    IndexFits(raw, TRUST_LIST_SEP);
    var list := LastIndexOf(raw, TRUST_LIST_SEP);
    Cleaned(if list.Some? then raw[..list.value] else raw)
  }

  function UpToSlash(t: Text): Text {
    if t == [] || t[0] == 0x2F then [] else [t[0]] + UpToSlash(t[1..])
  }

  lemma {:induction false} UpToSlashFits(t: Text)
    ensures |UpToSlash(t)| <= |t|
  {
    if t != [] && t[0] != 0x2F {
      UpToSlashFits(t[1..]);
    }
  }

  /** The first match of `/c2pa/<label>/c2pa.signature`. */
  function LabelIn(url: Text): Option<Text> {
    if url == [] then None
    else if C2PA_SEGMENT <= url then
      var rest := url[|C2PA_SEGMENT|..];
      UpToSlashFits(rest);
      var l := UpToSlash(rest);
      if l != [] && SIGNATURE_SEGMENT <= rest[|l|..] then Some(l) else LabelIn(url[1..])
    else LabelIn(url[1..])
  }

  // ---------------------------------------------------------------------------
  // Names are safe
  // ---------------------------------------------------------------------------

  /** Every surrogate has its partner next to it. */
  predicate WellFormedUtf16(t: Text) {
    forall i | 0 <= i < |t| :: !IsLone(t, i)
  }

  predicate ControlFree(t: Text) {
    forall i | 0 <= i < |t| :: !IsControl(t[i])
  }

  lemma {:induction false} ControlsGone(t: Text)
    ensures ControlFree(WithoutControls(t)) && |WithoutControls(t)| <= |t|
  {
    if t != [] {
      ControlsGone(t[1..]);
    }
  }

  /** What is kept from a position on is well formed, except that it may start with the low half of a
      pair whose high half stands just before that position. */
  lemma {:induction false} PairedIsWellFormed(t: Text, i: nat)
    requires i <= |t|
    ensures var r := PairedFrom(t, i);
            && |r| <= |t| - i
            && (ControlFree(t) ==> ControlFree(r))
            && (forall k | 1 <= k < |r| :: !IsLone(r, k))
            && (r != [] && IsHigh(r[0]) ==> !IsLone(r, 0))
            && (r != [] && IsLow(r[0]) ==> i > 0 && IsHigh(t[i - 1]) && i < |t| && r[0] == t[i])
            && (i > 0 && IsHigh(t[i - 1]) && i < |t| && IsLow(t[i]) ==> r != [] && r[0] == t[i])
    decreases |t| - i
  {
    if i < |t| {
      PairedIsWellFormed(t, i + 1);
      var rest, r := PairedFrom(t, i + 1), PairedFrom(t, i);
      if !IsLone(t, i) {
        assert r == [t[i]] + rest;
        forall k | 1 <= k < |r|
          ensures !IsLone(r, k)
        {
          assert r[k] == rest[k - 1];
          if k == 1 {
            assert IsLow(r[1]) ==> IsHigh(r[0]);
            assert IsHigh(r[1]) ==> !IsLone(rest, 0);
          } else {
            assert !IsLone(rest, k - 1);
          }
        }
      } else {
        assert r == rest;
      }
    }
  }

  lemma {:induction false} TrimKeeps(t: Text)
    requires WellFormedUtf16(t) && ControlFree(t)
    ensures WellFormedUtf16(Trim(t)) && ControlFree(Trim(t)) && |Trim(t)| <= |t|
  {
    TrimStartKeeps(t);
    TrimEndKeeps(TrimStart(t));
  }

  lemma {:induction false} TrimStartKeeps(t: Text)
    requires WellFormedUtf16(t) && ControlFree(t)
    ensures WellFormedUtf16(TrimStart(t)) && ControlFree(TrimStart(t)) && |TrimStart(t)| <= |t|
  {
    if t != [] && IsWhite(t[0]) {
      var rest := t[1..];
      forall i | 0 <= i < |rest|
        ensures !IsLone(rest, i)
      {
        assert !IsLone(t, i + 1);
      }
      TrimStartKeeps(rest);
    }
  }

  lemma {:induction false} TrimEndKeeps(t: Text)
    requires WellFormedUtf16(t) && ControlFree(t)
    ensures WellFormedUtf16(TrimEnd(t)) && ControlFree(TrimEnd(t)) && |TrimEnd(t)| <= |t|
  {
    if t != [] && IsWhite(t[|t| - 1]) {
      var rest := t[..|t| - 1];
      forall i | 0 <= i < |rest|
        ensures !IsLone(rest, i)
      {
        assert !IsLone(t, i);
      }
      TrimEndKeeps(rest);
    }
  }

  /** Main result on names: whatever the explanation, the name is at most 200 code units, free of
      control bytes and well-formed UTF-16, although cutting and deleting make new neighbours. */
  lemma NamesAreSafe(explanation: Text)
    ensures var name := NameIn(explanation);
            |name| <= MAX_TSA_NAME && ControlFree(name) && WellFormedUtf16(name)
  {
    var window := Slice(explanation, EXPLANATION_WINDOW);
    IndexFits(window, SEPARATOR);
    var sep := IndexOf(window, SEPARATOR);
    var raw := if sep.Some? then window[sep.value + |SEPARATOR|..] else [];
    IndexFits(raw, TRUST_LIST_SEP);
    var list := LastIndexOf(raw, TRUST_LIST_SEP);
    CleanedIsSafe(if list.Some? then raw[..list.value] else raw);
  }

  lemma CleanedIsSafe(raw: Text)
    ensures |Cleaned(raw)| <= MAX_TSA_NAME && ControlFree(Cleaned(raw)) && WellFormedUtf16(Cleaned(raw))
  {
    var cut := Slice(raw, MAX_TSA_NAME);
    ControlsGone(cut);
    var t := WithoutControls(cut);
    PairedIsWellFormed(t, 0);
    TrimKeeps(PairedFrom(t, 0));
  }

  /** Text that is already bounded, clean, well formed and trimmed is kept as it is. */
  lemma CleanTextKept(t: Text)
    requires |t| <= MAX_TSA_NAME && ControlFree(t) && WellFormedUtf16(t)
    requires t != [] ==> !IsWhite(t[0]) && !IsWhite(t[|t| - 1])
    ensures Cleaned(t) == t
  {
    NoControlsToRemove(t);
    NothingLone(t, 0);
  }

  lemma {:induction false} NoControlsToRemove(t: Text)
    requires ControlFree(t)
    ensures WithoutControls(t) == t
  {
    if t != [] {
      NoControlsToRemove(t[1..]);
    }
  }

  lemma {:induction false} NothingLone(t: Text, i: nat)
    requires i <= |t| && WellFormedUtf16(t)
    ensures PairedFrom(t, i) == t[i..]
    decreases |t| - i
  {
    if i < |t| {
      NothingLone(t, i + 1);
    }
  }

  // ---------------------------------------------------------------------------
  // Scanning
  // ---------------------------------------------------------------------------

  /** The label and name an entry offers, if it offers a usable one. */
  function Offer(e: Entry): Option<(Text, Text)> {
    if e.code.None? || !(TIME_STAMP <= e.code.value) then None
    else
      var l := LabelIn(e.url.GetOr([]));
      var name := NameIn(e.explanation.GetOr([]));
      if l.None? || name == [] then None else Some((l.value, name))
  }

  /** Labels a fresh record already answers for, through its prototype. */
  type Inherited = set<Text>

  function Consider(names: map<Text, Text>, e: Entry, inherited: Inherited): map<Text, Text> {
    var o := Offer(e);
    if o.None? || o.value.0 in inherited || o.value.0 in names then names else names[o.value.0 := o.value.1]
  }

  function ConsiderAll(names: map<Text, Text>, entries: seq<Entry>, inherited: Inherited): map<Text, Text> {
    if entries == [] then names
    else Consider(ConsiderAll(names, entries[..|entries| - 1], inherited), entries[|entries| - 1], inherited)
  }

  function Surfaced(b: Option<Buckets>): seq<Entry> {
    if b.None? then [] else b.value.success + b.value.informational
  }

  function SurfacedAll(bs: seq<Option<Buckets>>): seq<Entry> {
    if bs == [] then [] else SurfacedAll(bs[..|bs| - 1]) + Surfaced(bs[|bs| - 1])
  }

  function SurfacedIn(manifests: seq<seq<Option<Buckets>>>): seq<Entry> {
    if manifests == [] then [] else SurfacedIn(manifests[..|manifests| - 1]) + SurfacedAll(manifests[|manifests| - 1])
  }

  /** Every entry that is looked at, in scan order; failure buckets are not among them. */
  function Scanned(s: Store): seq<Entry> {
    Surfaced(s.active) + SurfacedAll(s.deltas) + SurfacedIn(s.manifests)
  }

  lemma {:induction false} ConsiderAppend(names: map<Text, Text>, a: seq<Entry>, b: seq<Entry>, inherited: Inherited)
    ensures ConsiderAll(names, a + b, inherited) == ConsiderAll(ConsiderAll(names, a, inherited), b, inherited)
  {
    if b == [] {
      assert a + b == a;
    } else {
      ConsiderAppend(names, a, b[..|b| - 1], inherited);
      assert (a + b)[..|a + b| - 1] == a + b[..|b| - 1];
    }
  }

  class Scanner {
    const inherited: Inherited
    var names: map<Text, Text>

    constructor (inherited: Inherited)
      ensures this.inherited == inherited && names == map[]
    {
      this.inherited := inherited;
      names := map[];
    }

    method ConsiderEntries(entries: seq<Entry>)
      modifies this
      ensures names == ConsiderAll(old(names), entries, inherited)
    {
      var i := 0;
      assert entries[..0] == [];
      while i < |entries|
        invariant 0 <= i <= |entries|
        invariant names == ConsiderAll(old(names), entries[..i], inherited)
      {
        var e := entries[i];
        assert entries[..i + 1][..i] == entries[..i];
        if e.code.Some? && TIME_STAMP <= e.code.value {
          var l := LabelIn(e.url.GetOr([]));
          if l.Some? && l.value !in inherited && l.value !in names {
            var name := NameIn(e.explanation.GetOr([]));
            if |name| > 0 {
              names := names[l.value := name];
            }
          }
        }
        i := i + 1;
      }
      assert entries[..i] == entries;
    }

    method Scan(b: Option<Buckets>)
      modifies this
      ensures names == ConsiderAll(old(names), Surfaced(b), inherited)
    {
      if b.Some? {
        ConsiderEntries(b.value.success);
        ConsiderEntries(b.value.informational);
        ConsiderAppend(old(names), b.value.success, b.value.informational, inherited);
      }
    }

    method ScanAll(bs: seq<Option<Buckets>>)
      modifies this
      ensures names == ConsiderAll(old(names), SurfacedAll(bs), inherited)
    {
      var i := 0;
      assert bs[..0] == [];
      while i < |bs|
        invariant 0 <= i <= |bs|
        invariant names == ConsiderAll(old(names), SurfacedAll(bs[..i]), inherited)
      {
        Scan(bs[i]);
        assert bs[..i + 1][..i] == bs[..i];
        ConsiderAppend(old(names), SurfacedAll(bs[..i]), Surfaced(bs[i]), inherited);
        i := i + 1;
      }
      assert bs[..i] == bs;
    }

    method ScanManifests(manifests: seq<seq<Option<Buckets>>>)
      modifies this
      ensures names == ConsiderAll(old(names), SurfacedIn(manifests), inherited)
    {
      var i := 0;
      assert manifests[..0] == [];
      while i < |manifests|
        invariant 0 <= i <= |manifests|
        invariant names == ConsiderAll(old(names), SurfacedIn(manifests[..i]), inherited)
      {
        ScanAll(manifests[i]);
        assert manifests[..i + 1][..i] == manifests[..i];
        ConsiderAppend(old(names), SurfacedIn(manifests[..i]), SurfacedAll(manifests[i]), inherited);
        i := i + 1;
      }
      assert manifests[..i] == manifests;
    }
  }

  method ExtractTsaByLabel(s: Store, inherited: Inherited) returns (byLabel: map<Text, Text>)
    ensures byLabel == ConsiderAll(map[], Scanned(s), inherited)
  {
    var scanner := new Scanner(inherited);
    scanner.Scan(s.active);
    scanner.ScanAll(s.deltas);
    scanner.ScanManifests(s.manifests);
    ConsiderAppend(map[], Surfaced(s.active), SurfacedAll(s.deltas), inherited);
    ConsiderAppend(map[], Surfaced(s.active) + SurfacedAll(s.deltas), SurfacedIn(s.manifests), inherited);
    byLabel := scanner.names;
  }

  predicate OffersFor(e: Entry, l: Text) {
    Offer(e).Some? && Offer(e).value.0 == l
  }

  predicate FirstOffers(entries: seq<Entry>, l: Text, i: nat) {
    && i < |entries| && OffersFor(entries[i], l)
    && forall j | 0 <= j < i :: !OffersFor(entries[j], l)
  }

  lemma ConsiderOne(names: map<Text, Text>, e: Entry, inherited: Inherited, l: Text)
    requires l in names ==> l !in inherited
    ensures var after := Consider(names, e, inherited);
            && (l in after <==> l in names || (l !in inherited && OffersFor(e, l)))
            && (l in names ==> after[l] == names[l])
            && (l in after && l !in names ==> after[l] == Offer(e).value.1)
  {
  }

  lemma StillFirst(before: seq<Entry>, last: Entry, l: Text, i: nat)
    requires FirstOffers(before, l, i)
    ensures FirstOffers(before + [last], l, i)
  {
    assert forall j | 0 <= j <= i :: (before + [last])[j] == before[j];
  }

  lemma LastIsFirst(before: seq<Entry>, last: Entry, l: Text)
    requires OffersFor(last, l) && forall j | 0 <= j < |before| :: !OffersFor(before[j], l)
    ensures FirstOffers(before + [last], l, |before|)
  {
    assert forall j | 0 <= j < |before| :: (before + [last])[j] == before[j];
  }

  /**
   Main result on scanning: a label has a name exactly when it is not inherited and some scanned entry
   offers one for it, and the name is the first such entry's.
   */
  lemma {:induction false} FirstUsableWins(entries: seq<Entry>, inherited: Inherited, l: Text)
    ensures var names := ConsiderAll(map[], entries, inherited);
            && (l in names <==> l !in inherited && exists e | e in entries :: OffersFor(e, l))
            && (l in names ==>
                  exists i: nat :: FirstOffers(entries, l, i) && Offer(entries[i]).value.1 == names[l])
  {
    if entries != [] {
      var before, last := entries[..|entries| - 1], entries[|entries| - 1];
      FirstUsableWins(before, inherited, l);
      assert entries == before + [last];
      var names := ConsiderAll(map[], before, inherited);
      ConsiderOne(names, last, inherited, l);
      if l in names {
        var i: nat :| FirstOffers(before, l, i) && Offer(before[i]).value.1 == names[l];
        StillFirst(before, last, l, i);
      } else if l !in inherited && OffersFor(last, l) {
        LastIsFirst(before, last, l);
      }
    }
  }

  /** Main result on what is kept: every name in the record is non-empty, at most 200 code units, free of
      control bytes and well-formed UTF-16, and some surfaced entry offers it for that very label. */
  lemma KeptNamesAreSafe(s: Store, inherited: Inherited, l: Text)
    requires l in ConsiderAll(map[], Scanned(s), inherited)
    ensures var name := ConsiderAll(map[], Scanned(s), inherited)[l];
            && name != [] && |name| <= MAX_TSA_NAME && ControlFree(name) && WellFormedUtf16(name)
            && exists e | e in Scanned(s) :: Offer(e) == Some((l, name))
  {
    var names := ConsiderAll(map[], Scanned(s), inherited);
    FirstUsableWins(Scanned(s), inherited, l);
    var i: nat :| FirstOffers(Scanned(s), l, i) && Offer(Scanned(s)[i]).value.1 == names[l];
    NamesAreSafe(Scanned(s)[i].explanation.GetOr([]));
  }
}
