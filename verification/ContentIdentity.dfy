/**
 The dedup identity of an upload: the capture's label and, for trimmed video, the trim
 parameters in canonical form. The main result is that two uploads share an identity exactly when
 they share the capture and, up to key order, the multiset of trim parameters, or one is untrimmed
 and labelled with the other's whole identity, which no label without a bar can be.
 */
module ContentIdentity {
  import opened ActionEntries
  import opened CanonicalJson
  import opened Collections
  import opened Options
  import opened QuotedBars
  import opened Texts

  const TRIMMED: Text := Units("c2pa.trimmed")

  function TrimOf(e: Entry): seq<Json> {
    if e.action == TRIMMED then [e.parameters] else []
  }

  /** The parameters of the extent-defining actions, in document order. */
  function TrimsOf(entries: seq<Entry>): seq<Json> {
    FlatMap(TrimOf, entries)
  }

  function Trims(m: Manifest): seq<Json> {
    TrimsOf(ManifestEntries(m))
  }

  function Part(parameters: Json): Text {
    TRIMMED + [COLON] + Canonical(parameters)
  }

  function Parts(trims: seq<Json>): (r: seq<Text>)
    ensures |r| == |trims| && forall i | 0 <= i < |r| :: r[i] == Part(trims[i])
  {
    seq(|trims|, i requires 0 <= i < |trims| => Part(trims[i]))
  }

  function Extent(active: Manifest): Text {
    Join(Sort(Parts(Trims(active))), SEMICOLON)
  }

  function Identity(labelText: Text, extent: Text): Text {
    if extent != [] then labelText + [BAR] + extent else labelText
  }

  method ExtractContentExtent(active: Manifest) returns (extent: Text)
    ensures extent == Extent(active)
  {
    var entries := ExtractActionEntries(active);
    var parts: seq<Text> := [];
    var i := 0;
    assert entries[..0] == [];
    while i < |entries|
      invariant 0 <= i <= |entries|
      invariant parts == Parts(TrimsOf(entries[..i]))
    {
      var e := entries[i];
      FlatMapAppend(TrimOf, entries[..i], [e]);
      assert entries[..i + 1] == entries[..i] + [e];
      FlatMapOne(TrimOf, e);
      if e.action == TRIMMED {
        parts := parts + [TRIMMED + [COLON] + Canonical(e.parameters)];
      }
      i := i + 1;
    }
    assert entries[..i] == entries;
    extent := Join(Sort(parts), SEMICOLON);
  }

  /** `None` for a capture without a label. */
  method BuildContentIdentity(capture: Manifest, active: Manifest) returns (identity: Option<Text>)
    ensures identity == if capture.labelText.GetOr([]) == [] then None
                        else Some(Identity(capture.labelText.value, Extent(active)))
  {
    if capture.labelText.None? || |capture.labelText.value| == 0 {
      return None;
    }
    var extent := ExtractContentExtent(active);
    identity := Some(if |extent| != 0 then capture.labelText.value + [BAR] + extent else capture.labelText.value);
  }

  // ---------------------------------------------------------------------------
  // Equal extents
  // ---------------------------------------------------------------------------

  predicate AllWellFormed(trims: seq<Json>) {
    forall i | 0 <= i < |trims| :: WellFormed(trims[i])
  }

  /** How many of the values equal `v` up to key order. */
  function CountOf(trims: seq<Json>, v: Json): nat {
    if trims == [] then 0 else CountOf(trims[1..], v) + if Equivalent(trims[0], v) then 1 else 0
  }

  /** The same values the same number of times, up to key order. */
  ghost predicate SameTrims(a: seq<Json>, b: seq<Json>) {
    forall v | WellFormed(v) :: CountOf(a, v) == CountOf(b, v)
  }

  lemma PartEqual(v: Json, w: Json)
    requires WellFormed(v) && WellFormed(w)
    ensures Part(v) == Part(w) <==> Equivalent(v, w)
  {
    CanonicalEqualIff(v, w);
    var n := |TRIMMED + [COLON]|;
    assert Part(v)[n..] == Canonical(v) && Part(w)[n..] == Canonical(w);
  }

  lemma {:induction false} CountIsMultiplicity(trims: seq<Json>, v: Json)
    requires AllWellFormed(trims) && WellFormed(v)
    ensures CountOf(trims, v) == multiset(Parts(trims))[Part(v)]
  {
    if trims != [] {
      CountIsMultiplicity(trims[1..], v);
      PartEqual(trims[0], v);
      assert Parts(trims) == [Part(trims[0])] + Parts(trims[1..]);
    }
  }

  lemma SameTrimsSameParts(a: seq<Json>, b: seq<Json>)
    requires AllWellFormed(a) && AllWellFormed(b)
    ensures SameTrims(a, b) <==> multiset(Parts(a)) == multiset(Parts(b))
  {
    if multiset(Parts(a)) == multiset(Parts(b)) {
      forall v | WellFormed(v)
        ensures CountOf(a, v) == CountOf(b, v)
      {
        CountIsMultiplicity(a, v);
        CountIsMultiplicity(b, v);
      }
    }
    if SameTrims(a, b) {
      forall p
        ensures multiset(Parts(a))[p] == multiset(Parts(b))[p]
      {
        if p in Parts(a) {
          SameMultiplicity(a, b, a, p);
        } else if p in Parts(b) {
          SameMultiplicity(a, b, b, p);
        }
      }
    }
  }

  lemma SameMultiplicity(a: seq<Json>, b: seq<Json>, c: seq<Json>, p: Text)
    requires AllWellFormed(a) && AllWellFormed(b) && AllWellFormed(c)
    requires SameTrims(a, b) && p in Parts(c)
    ensures multiset(Parts(a))[p] == multiset(Parts(b))[p]
  {
    var i :| 0 <= i < |c| && Parts(c)[i] == p;
    CountIsMultiplicity(a, c[i]);
    CountIsMultiplicity(b, c[i]);
  }

  lemma AfterPrefix(prefix: Text, t: Text, x: Text)
    ensures (prefix + t + x)[|prefix|..] == t + x
  {
    assert prefix + t + x == prefix + (t + x);
  }

  lemma PartsReadApart(v: Json, w: Json)
    requires WellFormed(v) && WellFormed(w)
    ensures ReadApart(Part(v), Part(w))
  {
    var prefix := TRIMMED + [COLON];
    forall x, y | Ends(x) && Ends(y) && Part(v) + x == Part(w) + y
      ensures Part(v) == Part(w) && x == y
    {
      AfterPrefix(prefix, Canonical(v), x);
      AfterPrefix(prefix, Canonical(w), y);
      CanonicalUnique(v, w, x, y);
    }
  }

  lemma SortedParts(trims: seq<Json>)
    ensures forall i | 0 <= i < |trims| :: Sort(Parts(trims))[i] in Parts(trims) && Opens(Sort(Parts(trims))[i])
  {
    var sorted := Sort(Parts(trims));
    forall i | 0 <= i < |trims|
      ensures sorted[i] in Parts(trims) && Opens(sorted[i])
    {
      assert sorted[i] in multiset(sorted);
      var j :| 0 <= j < |trims| && Parts(trims)[j] == sorted[i];
      TrimmedStarts();
      assert Part(trims[j])[0] == TRIMMED[0];
    }
  }

  lemma TrimmedStarts()
    ensures TRIMMED != [] && TRIMMED[0] == 0x63
  {
    assert "c2pa.trimmed"[0] == 'c';
  }

  /** The extent determines the sorted parts it was joined from. */
  lemma JoinedPartsUnique(a: seq<Json>, b: seq<Json>)
    requires AllWellFormed(a) && AllWellFormed(b)
    requires Join(Sort(Parts(a)), SEMICOLON) == Join(Sort(Parts(b)), SEMICOLON)
    ensures Sort(Parts(a)) == Sort(Parts(b))
  {
    var ps, qs := Sort(Parts(a)), Sort(Parts(b));
    SortedParts(a);
    SortedParts(b);
    forall i | 0 <= i < |ps| && i < |qs|
      ensures ReadApart(ps[i], qs[i])
    {
      var j :| 0 <= j < |a| && Parts(a)[j] == ps[i];
      var k :| 0 <= k < |b| && Parts(b)[k] == qs[i];
      PartsReadApart(a[j], b[k]);
    }
    assert Join(ps, SEMICOLON) + [] == Join(qs, SEMICOLON) + [];
    JoinUnique(ps, qs, SEMICOLON, [], []);
  }

  /** Two uploads publish the same extent exactly when their trim parameters are the same, as a
      multiset up to key order. */
  lemma ExtentEqualIff(a: Manifest, b: Manifest)
    requires AllWellFormed(Trims(a)) && AllWellFormed(Trims(b))
    ensures Extent(a) == Extent(b) <==> SameTrims(Trims(a), Trims(b))
  {
    SameTrimsSameParts(Trims(a), Trims(b));
    SortEqualIff(Parts(Trims(a)), Parts(Trims(b)));
    if Extent(a) == Extent(b) {
      JoinedPartsUnique(Trims(a), Trims(b));
    }
  }

  /** An untrimmed upload, and only that, has the empty extent. */
  lemma ExtentEmptyIff(m: Manifest)
    ensures Extent(m) == [] <==> Trims(m) == []
  {
    var parts := Sort(Parts(Trims(m)));
    SortedParts(Trims(m));
    if Trims(m) != [] {
      assert Opens(parts[0]);
    }
  }

  // ---------------------------------------------------------------------------
  // Equal identities
  // ---------------------------------------------------------------------------

  /** An extent is balanced text: every bar in it stands inside a string. */
  lemma ExtentBalanced(m: Manifest)
    ensures Balanced(Extent(m), OUT)
  {
    var parts := Parts(Trims(m));
    SortedParts(Trims(m));
    forall i | 0 <= i < |parts|
      ensures Balanced(Sort(parts)[i], OUT)
    {
      var j :| 0 <= j < |parts| && parts[j] == Sort(parts)[i];
      PartBalanced(Trims(m)[j]);
    }
    JoinBalanced(Sort(parts), SEMICOLON);
  }

  lemma PartBalanced(v: Json)
    ensures Balanced(Part(v), OUT)
  {
    MarkerPlain();
    PlainBalanced(MARKER, OUT);
    CanonicalBalanced(v);
    BalancedAppend(MARKER, Canonical(v), OUT);
  }

  /** What every non-empty extent starts with. */
  const MARKER: Text := TRIMMED + [COLON]

  lemma MarkerPlain()
    ensures Plain(MARKER)
  {
    var s := "c2pa.trimmed";
    forall i | 0 <= i < |s|
      ensures TRIMMED[i] != QUOTE && TRIMMED[i] != BACKSLASH && TRIMMED[i] != BAR
    {
      assert s[i] in ['c', '2', 'p', 'a', '.', 't', 'r', 'i', 'm', 'e', 'd'];
    }
  }

  lemma ExtentStarts(m: Manifest)
    requires Trims(m) != []
    ensures MARKER <= Extent(m)
  {
    SortedParts(Trims(m));
    var parts := Sort(Parts(Trims(m)));
    var j :| 0 <= j < |Trims(m)| && Parts(Trims(m))[j] == parts[0];
    assert MARKER <= parts[0];
  }

  /** A bar is never followed by a whole extent within another extent, and no extent ends in a bar. */
  lemma ExtentAfterBar(a: Manifest, b: Manifest, rest: Text)
    ensures Extent(b) != rest + [BAR] + Extent(a)
  {
    ExtentBalanced(a);
    ExtentBalanced(b);
    NothingAfterBar(Extent(b), rest, Extent(a));
  }

  /** The longer label is the shorter one, a bar, and then text that the shorter one's extent
      carries on from there. */
  predicate Swallows(longer: Text, longerExtent: Text, shorter: Text, shorterExtent: Text) {
    && |shorter| < |longer|
    && longer[..|shorter|] == shorter
    && longer[|shorter|] == BAR
    && shorterExtent == Identity(longer[|shorter| + 1..], longerExtent)
    && shorterExtent != []
  }

  /** An extent is never swallowed in part: the other upload is untrimmed, and its label is the whole
      identity of the trimmed one. */
  lemma SwallowsIff(l: Text, a: Manifest, m: Text, b: Manifest)
    ensures Swallows(l, Extent(a), m, Extent(b))
            <==> Trims(a) == [] && Trims(b) != [] && l == Identity(m, Extent(b))
  {
    ExtentEmptyIff(a);
    ExtentEmptyIff(b);
    if Swallows(l, Extent(a), m, Extent(b)) {
      ExtentAfterBar(a, b, l[|m| + 1..]);
      WholeLabel(l, m);
    }
    if Trims(a) == [] && Trims(b) != [] && l == Identity(m, Extent(b)) {
      assert l[..|m|] == m && l[|m| + 1..] == Extent(b);
    }
  }

  lemma WholeLabel(l: Text, m: Text)
    requires |m| < |l| && l[..|m|] == m && l[|m|] == BAR
    ensures l == m + [BAR] + l[|m| + 1..]
  {
  }

  /**
   Main result, for labels of any form: two uploads have the same identity exactly when they come from
   the same capture and have the same trim parameters, or one of them is untrimmed and its label
   literally is the whole identity of the other, trimmed one.
   */
  lemma IdentityCollidesIff(labelText: Text, a: Manifest, other: Text, b: Manifest)
    requires AllWellFormed(Trims(a)) && AllWellFormed(Trims(b))
    ensures Identity(labelText, Extent(a)) == Identity(other, Extent(b))
            <==> (labelText == other && SameTrims(Trims(a), Trims(b)))
                 || (Trims(a) == [] && Trims(b) != [] && labelText == Identity(other, Extent(b)))
                 || (Trims(b) == [] && Trims(a) != [] && other == Identity(labelText, Extent(a)))
  {
    ExtentEqualIff(a, b);
    CollidesIff(labelText, Extent(a), other, Extent(b));
    SwallowsIff(labelText, a, other, b);
    SwallowsIff(other, b, labelText, a);
  }

  lemma CollidesIff(l: Text, e: Text, m: Text, f: Text)
    ensures Identity(l, e) == Identity(m, f)
            <==> (l == m && e == f) || Swallows(l, e, m, f) || Swallows(m, f, l, e)
  {
    if |l| == |m| {
      SameLength(l, e, m, f);
    } else if |l| < |m| {
      LongerSwallows(m, f, l, e);
    } else {
      LongerSwallows(l, e, m, f);
    }
  }

  lemma SameLength(l: Text, e: Text, m: Text, f: Text)
    requires |l| == |m|
    ensures Identity(l, e) == Identity(m, f) <==> l == m && e == f
  {
    if Identity(l, e) == Identity(m, f) {
      assert l == Identity(l, e)[..|l|] && m == Identity(m, f)[..|l|];
      if e != [] && f != [] {
        assert e == Identity(l, e)[|l| + 1..] && f == Identity(m, f)[|l| + 1..];
      }
    }
  }

  lemma LongerSwallows(l: Text, e: Text, m: Text, f: Text)
    requires |m| < |l|
    ensures Identity(l, e) == Identity(m, f) <==> Swallows(l, e, m, f)
  {
    var rest := l[|m| + 1..];
    if Identity(l, e) == Identity(m, f) {
      var whole := Identity(m, f);
      assert f != [];
      assert whole[|m|] == BAR && whole[..|m|] == m && whole[|m| + 1..] == f;
      assert Identity(l, e)[|m|] == l[|m|] && Identity(l, e)[..|m|] == l[..|m|];
      assert Identity(l, e)[|m| + 1..] == Identity(rest, e);
    }
    if Swallows(l, e, m, f) {
      assert l == m + [BAR] + rest;
      assert Identity(l, e) == m + [BAR] + Identity(rest, e);
    }
  }

  /** A label that could be mistaken for a trimmed upload's identity: a bar in it is followed by what
      starts an extent. */
  predicate Ambiguous(labelText: Text) {
    exists i | 0 <= i < |labelText| :: labelText[i] == BAR && MARKER <= labelText[i + 1..]
  }

  lemma IdentityAmbiguous(labelText: Text, m: Manifest)
    requires Trims(m) != []
    ensures Ambiguous(Identity(labelText, Extent(m)))
  {
    ExtentStarts(m);
    ExtentEmptyIff(m);
    var whole := Identity(labelText, Extent(m));
    assert whole[|labelText|] == BAR && whole[|labelText| + 1..] == Extent(m);
  }

  /**
   Main result: for capture labels in which no bar is followed by `c2pa.trimmed:`, so for all labels
   without a bar, two uploads have the same identity exactly when they come from the same capture and
   have the same trim parameters.
   */
  lemma IdentityEqualIff(labelText: Text, a: Manifest, other: Text, b: Manifest)
    requires !Ambiguous(labelText) && !Ambiguous(other)
    requires AllWellFormed(Trims(a)) && AllWellFormed(Trims(b))
    ensures Identity(labelText, Extent(a)) == Identity(other, Extent(b))
            <==> labelText == other && SameTrims(Trims(a), Trims(b))
  {
    IdentityCollidesIff(labelText, a, other, b);
    if Trims(b) != [] {
      IdentityAmbiguous(other, b);
    }
    if Trims(a) != [] {
      IdentityAmbiguous(labelText, a);
    }
  }

  /** An upload of the capture `x` whose one action is a trim with these parameters, and one of a capture
      without any action. */
  function TrimmedUpload(x: Text, parameters: Json): Manifest {
    var trim := Action(Some(Units("c2pa.trimmed")), parameters, None, NotAList);
    Manifest(Some(x), [Assertion(Some(Units("c2pa.actions")), Data(Items([trim])))], [])
  }

  function UntrimmedUpload(x: Text): Manifest {
    Manifest(Some(x), [], [])
  }

  /** The identity of a trimmed upload, spelled out, and of an untrimmed one. */
  lemma IdentitySpelled(x: Text, parameters: Json)
    ensures Identity(x, Extent(TrimmedUpload(x, parameters))) == x + Units("|") + (Units("c2pa.trimmed:") + Canonical(parameters))
    ensures Identity(x, Extent(UntrimmedUpload(x))) == x
  {
    TrimmedExtent(x, parameters);
    MarkerSpelled();
    assert Trims(UntrimmedUpload(x)) == [];
    ExtentEmptyIff(UntrimmedUpload(x));
  }

  lemma MarkerSpelled()
    ensures MARKER == Units("c2pa.trimmed:") && MARKER != [] && [BAR] == Units("|")
  {
    assert "c2pa.trimmed:" == "c2pa.trimmed" + ":";
  }

  /** Two uploads of one capture whose one action is a trim are the same exactly when their parameters are, up
      to key order. */
  lemma TrimsApart(x: Text, p: Json, q: Json)
    requires WellFormed(p) && WellFormed(q)
    ensures Identity(x, Extent(TrimmedUpload(x, p))) == Identity(x, Extent(TrimmedUpload(x, q))) <==> Equivalent(p, q)
  {
    TrimmedExtent(x, p);
    TrimmedExtent(x, q);
    CanonicalEqualIff(p, q);
    var i, j := Identity(x, MARKER + Canonical(p)), Identity(x, MARKER + Canonical(q));
    MarkerSpelled();
    Behind(x, Canonical(p));
    Behind(x, Canonical(q));
  }

  lemma Behind(x: Text, t: Text)
    requires MARKER != []
    ensures Identity(x, MARKER + t)[|x| + 1 + |MARKER|..] == t
  {
    assert Identity(x, MARKER + t) == (x + [BAR] + MARKER) + t;
  }

  /** An ambiguous label can make two captures collide: an untrimmed upload of `x|c2pa.trimmed:null`
      and an upload of `x` trimmed without parameters. */
  lemma BarCollision(x: Text)
    ensures var longer := x + Units("|") + Units("c2pa.trimmed:null");
            && longer != x
            && Identity(longer, Extent(UntrimmedUpload(longer))) == Identity(x, Extent(TrimmedUpload(x, Absent)))
  {
    IdentitySpelled(x + Units("|") + Units("c2pa.trimmed:null"), Absent);
    IdentitySpelled(x, Absent);
    NullTrimSpelled();
    assert |x + Units("|") + Units("c2pa.trimmed:null")| > |x|;
  }

  lemma NullTrimSpelled()
    ensures Units("c2pa.trimmed:null") == Units("c2pa.trimmed:") + Canonical(Absent)
  {
    assert "null" == ['n', 'u', 'l', 'l'];
    assert NULL == Units("null");
    assert "c2pa.trimmed:null" == "c2pa.trimmed:" + "null";
  }

  lemma TrimmedExtent(x: Text, parameters: Json)
    ensures Extent(TrimmedUpload(x, parameters)) == MARKER + Canonical(parameters)
  {
    var trim := Action(Some(TRIMMED), parameters, None, NotAList);
    var m := TrimmedUpload(x, parameters);
    TrimmedStarts();
    OneAssertion(m.assertions[0]);
    AllEntriesCons(trim, [], 0);
    assert [trim] + [] == [trim];
    var e := Entry(TRIMMED, parameters, None);
    assert ManifestEntries(m) == [e];
    FlatMapOne(TrimOf, e);
    assert Trims(m) == [parameters];
    OnePart(parameters);
  }

  /** Two trims, whatever their order in the document: their texts in ascending order, with a semicolon. */
  lemma TwoTrimsSpelled(m: Manifest, p: Json, q: Json)
    requires Trims(m) == [p, q] || Trims(m) == [q, p]
    requires AtMost(Part(p), Part(q))
    ensures Part(p) == Units("c2pa.trimmed:") + Canonical(p)
    ensures Extent(m) == Part(p) + Units(";") + Part(q)
  {
    MarkerSpelled();
    var parts := Parts(Trims(m));
    assert parts == [Part(p), Part(q)] || parts == [Part(q), Part(p)];
    TwoSorted(Part(p), Part(q), parts);
    TwoJoined(Part(p), Part(q));
  }

  lemma TwoSorted(a: Text, b: Text, parts: seq<Text>)
    requires AtMost(a, b) && (parts == [a, b] || parts == [b, a])
    ensures Sort(parts) == [a, b]
  {
    SortSorted(parts);
    assert Sorted([a, b]) && multiset(parts) == multiset([a, b]);
    SortedUnique(Sort(parts), [a, b]);
  }

  lemma TwoJoined(a: Text, b: Text)
    ensures Join([a, b], SEMICOLON) == a + Units(";") + b
  {
    assert [a, b][1..] == [b] && [b][1..] == [];
    assert Units(";") == [SEMICOLON];
    assert JoinTail([b], SEMICOLON) == [SEMICOLON] + b + [];
  }

  lemma OnePart(parameters: Json)
    ensures Join(Sort(Parts([parameters])), SEMICOLON) == MARKER + Canonical(parameters)
  {
    var parts := Parts([parameters]);
    assert parts == [MARKER + Canonical(parameters)];
    assert parts[..0] == [];
    assert Sort(parts) == parts;
    assert JoinTail(parts[1..], SEMICOLON) == [];
  }

  // ---------------------------------------------------------------------------
  // What does not change the identity
  // ---------------------------------------------------------------------------

  lemma PartsWithout(a: seq<Json>, j: nat)
    requires j < |a|
    ensures multiset(Parts(a)) == multiset{Part(a[j])} + multiset(Parts(a[..j] + a[j + 1..]))
  {
    var before, after := a[..j], a[j + 1..];
    assert Parts(before + after) == Parts(before) + Parts(after);
    assert Parts(a) == Parts(before) + [Part(a[j])] + Parts(after);
  }

  lemma {:induction false} SameParts(a: seq<Json>, b: seq<Json>)
    requires multiset(a) == multiset(b)
    ensures multiset(Parts(a)) == multiset(Parts(b))
  {
    if a == [] {
      assert |multiset(b)| == 0;
    } else {
      var j := SomeIndex(a, b);
      RemoveBoth(a, b, j);
      PartsWithout(a, 0);
      PartsWithout(b, j);
      SameParts(a[..0] + a[1..], b[..j] + b[j + 1..]);
    }
  }

  lemma SameExtent(a: Manifest, b: Manifest)
    requires multiset(Trims(a)) == multiset(Trims(b))
    ensures Extent(a) == Extent(b)
  {
    SameParts(Trims(a), Trims(b));
    SortEqualIff(Parts(Trims(a)), Parts(Trims(b)));
  }

  lemma TrimsIgnoreOthers(a: seq<Entry>, more: seq<Entry>, b: seq<Entry>, others: seq<Entry>)
    requires multiset(a + more) == multiset(b + others)
    requires TrimsOf(more) == [] && TrimsOf(others) == []
    ensures multiset(TrimsOf(a)) == multiset(TrimsOf(b))
  {
    FlatMapReordered(TrimOf, a + more, b + others);
    FlatMapAppend(TrimOf, a, more);
    FlatMapAppend(TrimOf, b, others);
    assert TrimsOf(a) + [] == TrimsOf(a) && TrimsOf(b) + [] == TrimsOf(b);
  }

  /** The extent depends only on which trim entries there are: not on their order among each
      other or among other actions, nor on any other action, whatever assertion each is in. */
  lemma ExtentOfReordered(a: Manifest, b: Manifest, more: seq<Entry>, others: seq<Entry>)
    requires multiset(ManifestEntries(a) + more) == multiset(ManifestEntries(b) + others)
    requires TrimsOf(more) == [] && TrimsOf(others) == []
    ensures Extent(a) == Extent(b)
  {
    TrimsIgnoreOthers(ManifestEntries(a), more, ManifestEntries(b), others);
    SameExtent(a, b);
  }

  /** Splitting one actions assertion in two, in either spelling, changes nothing. */
  lemma ExtentOfSplit(before: seq<Assertion>, xs: seq<Item>, ys: seq<Item>, after: seq<Assertion>,
                      m: Manifest, split: Manifest, l0: Text, l1: Text, l2: Text)
    requires l0 in [ACTIONS, ACTIONS_V2] && l1 in [ACTIONS, ACTIONS_V2] && l2 in [ACTIONS, ACTIONS_V2]
    requires m.assertions == before + [Assertion(Some(l0), Data(Items(xs + ys)))] + after
    requires split.assertions
             == before + [Assertion(Some(l1), Data(Items(xs))), Assertion(Some(l2), Data(Items(ys)))] + after
    ensures Extent(m) == Extent(split)
  {
    var one := Assertion(Some(l0), Data(Items(xs + ys)));
    var first, second := Assertion(Some(l1), Data(Items(xs))), Assertion(Some(l2), Data(Items(ys)));
    SplitAssertion(xs, ys, l0, l1, l2);
    ReplaceAssertions(before, [one], [first, second], after);
  }

  lemma SplitAssertion(xs: seq<Item>, ys: seq<Item>, l0: Text, l1: Text, l2: Text)
    requires l0 in [ACTIONS, ACTIONS_V2] && l1 in [ACTIONS, ACTIONS_V2] && l2 in [ACTIONS, ACTIONS_V2]
    ensures AssertionsEntries([Assertion(Some(l0), Data(Items(xs + ys)))])
            == AssertionsEntries([Assertion(Some(l1), Data(Items(xs))), Assertion(Some(l2), Data(Items(ys)))])
  {
    var one := Assertion(Some(l0), Data(Items(xs + ys)));
    var first, second := Assertion(Some(l1), Data(Items(xs))), Assertion(Some(l2), Data(Items(ys)));
    AllEntriesAppend(xs, ys, 0);
    OneAssertion(one);
    OneAssertion(first);
    OneAssertion(second);
    AssertionsEntriesAppend([first], [second]);
    assert [first] + [second] == [first, second];
  }

  lemma OneAssertion(a: Assertion)
    ensures AssertionsEntries([a]) == AssertionEntries(a)
  {
    assert AssertionsEntries([a][1..]) == [];
  }

  // ---------------------------------------------------------------------------
  // Nesting
  // ---------------------------------------------------------------------------

  /** How many levels of items a list has. */
  function Height(list: ActionList): nat
    decreases list, 1
  {
    if list.NotAList? then 0 else ItemsHeight(list.items)
  }

  function ItemHeight(item: Item): nat
    decreases item, 1
  {
    1 + if item.Action? then Height(item.related) else 0
  }

  function ItemsHeight(items: seq<Item>): nat
    decreases items, 0
  {
    if items == [] then 0
    else
      var first, rest := ItemHeight(items[0]), ItemsHeight(items[1..]);
      if first > rest then first else rest
  }

  lemma {:induction false} DepthIrrelevant(list: ActionList, depth: nat)
    requires depth + Height(list) <= RELATED_MAX_DEPTH + 1
    ensures ListEntries(list, depth) == ListEntries(list, 0)
    decreases list, 1
  {
    if list.Items? {
      ItemsDepthIrrelevant(list.items, depth);
    }
  }

  lemma {:induction false} ItemsDepthIrrelevant(items: seq<Item>, depth: nat)
    requires depth + ItemsHeight(items) <= RELATED_MAX_DEPTH + 1
    ensures AllEntries(items, depth) == AllEntries(items, 0)
    decreases items, 0
  {
    if items != [] {
      ItemsDepthIrrelevant(items[1..], depth);
      ItemDepthIrrelevant(items[0], depth);
    }
  }

  lemma {:induction false} ItemDepthIrrelevant(item: Item, depth: nat)
    requires depth + ItemHeight(item) <= RELATED_MAX_DEPTH + 1
    ensures ItemEntries(item, depth) == ItemEntries(item, 0)
    decreases item, 0
  {
    if item.Action? {
      if depth < RELATED_MAX_DEPTH {
        DepthIrrelevant(item.related, depth + 1);
        DepthIrrelevant(item.related, 1);
      } else {
        NoHeightNoEntries(item.related, 1);
      }
    }
  }

  lemma NoHeightNoEntries(list: ActionList, depth: nat)
    requires Height(list) == 0
    ensures ListEntries(list, depth) == []
  {
    if list.Items? && list.items != [] {
      assert ItemsHeight(list.items) >= ItemHeight(list.items[0]);
    }
  }

  /** The items at the end of a path of positions, through `related` lists. */
  function ListAt(items: seq<Item>, path: seq<nat>): Option<seq<Item>>
    decreases |path|
  {
    if path == [] then Some(items)
    else if path[0] >= |items| || items[path[0]].Malformed? || items[path[0]].related.NotAList? then None
    else ListAt(items[path[0]].related.items, path[1..])
  }

  /** The same items with the list at the end of the path replaced. */
  function WithListAt(items: seq<Item>, path: seq<nat>, replacement: seq<Item>): seq<Item>
    requires ListAt(items, path).Some?
    decreases |path|
  {
    if path == [] then replacement
    else
      var item := items[path[0]];
      items[path[0] := item.(related := Items(WithListAt(item.related.items, path[1..], replacement)))]
  }

  /** Replacing a list by one that contributes the same entries at its depth changes nothing above. */
  lemma {:induction false} SameEntriesAbove(items: seq<Item>, path: seq<nat>, replacement: seq<Item>, depth: nat)
    requires ListAt(items, path).Some?
    requires AllEntries(ListAt(items, path).value, depth + |path|) == AllEntries(replacement, depth + |path|)
    ensures AllEntries(items, depth) == AllEntries(WithListAt(items, path, replacement), depth)
    decreases |path|
  {
    if path != [] {
      var i := path[0];
      var item := items[i];
      SameEntriesAbove(item.related.items, path[1..], replacement, depth + 1);
      var new' := item.(related := Items(WithListAt(item.related.items, path[1..], replacement)));
      SameItem(item, new', depth);
      ReplaceOne(items, i, new', depth);
    }
  }

  lemma ReplaceOne(items: seq<Item>, i: nat, new': Item, depth: nat)
    requires i < |items| && AllEntries([items[i]], depth) == AllEntries([new'], depth)
    ensures AllEntries(items, depth) == AllEntries(items[i := new'], depth)
  {
    var before, after := items[..i], items[i + 1..];
    ReplaceItems(before, [items[i]], [new'], after, depth);
    assert items == before + [items[i]] + after;
    assert items[i := new'] == before + [new'] + after;
  }

  lemma SameItem(item: Item, other: Item, depth: nat)
    requires item.Action? && other.Action? && Own(item) == Own(other)
    requires ListEntries(item.related, depth + 1) == ListEntries(other.related, depth + 1)
    ensures AllEntries([item], depth) == AllEntries([other], depth)
  {
    AllEntriesCons(item, [], depth);
    AllEntriesCons(other, [], depth);
    assert [item] + [] == [item] && [other] + [] == [other];
  }

  /** An action with more related ones after those it has. */
  function Adopt(parent: Item, children: seq<Item>): Item
    requires parent.Action?
  {
    parent.(related := Items((if parent.related.Items? then parent.related.items else []) + children))
  }

  lemma EntriesOfNested(parent: Item, children: seq<Item>, xs: seq<Item>, ys: seq<Item>, depth: nat)
    requires parent.Action? && depth + ItemsHeight(children) <= RELATED_MAX_DEPTH
    ensures AllEntries(xs + [parent] + children + ys, depth) == AllEntries(xs + [Adopt(parent, children)] + ys, depth)
  {
    NestedEntries(parent, children, depth);
    ReplaceItems(xs, [parent] + children, [Adopt(parent, children)], ys, depth);
    assert xs + [parent] + children == xs + ([parent] + children);
  }

  /** Moving actions into the `related` list of the action they follow, behind what it already holds and at
      any place in the tree, changes nothing, as long as they stay within the depth that is read. */
  lemma ExtentOfNested(before: seq<Assertion>, items: seq<Item>, path: seq<nat>, xs: seq<Item>, parent: Item,
                       children: seq<Item>, ys: seq<Item>, after: seq<Assertion>, flat: Manifest, nested: Manifest, l: Text)
    requires ListAt(items, path) == Some(xs + [parent] + children + ys) && parent.Action?
    requires |path| + ItemsHeight(children) <= RELATED_MAX_DEPTH
    requires flat.assertions == before + [Assertion(Some(l), Data(Items(items)))] + after
    requires nested.assertions
             == before
                + [Assertion(Some(l), Data(Items(WithListAt(items, path, xs + [Adopt(parent, children)] + ys))))]
                + after
    ensures Extent(flat) == Extent(nested)
  {
    var a := Assertion(Some(l), Data(Items(items)));
    var b := Assertion(Some(l), Data(Items(WithListAt(items, path, xs + [Adopt(parent, children)] + ys))));
    EntriesOfNested(parent, children, xs, ys, |path|);
    SameEntriesAbove(items, path, xs + [Adopt(parent, children)] + ys, 0);
    OneAssertion(a);
    OneAssertion(b);
    ReplaceAssertions(before, [a], [b], after);
  }

  lemma NestedEntries(parent: Item, children: seq<Item>, depth: nat)
    requires parent.Action? && depth + ItemsHeight(children) <= RELATED_MAX_DEPTH
    ensures AllEntries([parent] + children, depth) == AllEntries([Adopt(parent, children)], depth)
  {
    AllEntriesCons(parent, children, depth);
    AllEntriesCons(Adopt(parent, children), [], depth);
    assert [Adopt(parent, children)] + [] == [Adopt(parent, children)];
    AdoptedEntries(parent, children, depth);
  }

  lemma AdoptedEntries(parent: Item, children: seq<Item>, depth: nat)
    requires parent.Action? && depth + ItemsHeight(children) <= RELATED_MAX_DEPTH
    ensures ItemEntries(Adopt(parent, children), depth) == ItemEntries(parent, depth) + AllEntries(children, depth)
  {
    AdoptedList(parent, children, depth + 1);
    if children != [] {
      DeeperAlike(children, depth);
      Associative(Own(parent), ListEntries(parent.related, depth + 1), AllEntries(children, depth));
    } else {
      assert ListEntries(parent.related, depth + 1) + [] == ListEntries(parent.related, depth + 1);
    }
  }

  lemma AdoptedList(parent: Item, children: seq<Item>, depth: nat)
    requires parent.Action?
    ensures ListEntries(Adopt(parent, children).related, depth)
            == ListEntries(parent.related, depth) + AllEntries(children, depth)
  {
    var own := if parent.related.Items? then parent.related.items else [];
    AllEntriesAppend(own, children, depth);
  }

  lemma DeeperAlike(children: seq<Item>, depth: nat)
    requires children != [] && depth + ItemsHeight(children) <= RELATED_MAX_DEPTH
    ensures AllEntries(children, depth + 1) == AllEntries(children, depth)
    ensures depth < RELATED_MAX_DEPTH
  {
    ItemsDepthIrrelevant(children, depth);
    ItemsDepthIrrelevant(children, depth + 1);
  }
}
