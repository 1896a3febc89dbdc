/** The recorded-results policy with its own codes: which recorded validation codes count as failures. */
module RecordedCodes {
  import opened Options
  import opened RecordedResults
  import opened Texts

  const TRUSTED: string := "signingCredential.trusted"
  const UNTRUSTED: string := "signingCredential.untrusted"
  const EXPIRED: string := "signingCredential.expired"

  /** The codes the engine classes as success or information. */
  const NON_FAILURES: seq<string> := FIRST_CODES + MORE_CODES

  const FIRST_CODES: seq<string> := [
    "claimSignature.validated",
    "claimSignature.insideValidity",
    "signingCredential.trusted",
    "signingCredential.ocsp.notRevoked",
    "timeStamp.trusted",
    "timeStamp.validated",
    "assertion.hashedURI.match",
    "assertion.dataHash.match",
    "assertion.bmffHash.match",
    "assertion.accessible",
    "assertion.boxesHash.match",
    "assertion.collectionHash.match",
    "ingredient.manifest.validated",
    "ingredient.manifest.missing",
    "ingredient.claimSignature.validated"
  ]

  const MORE_CODES: seq<string> := [
    "signingCredential.ocsp.skipped",
    "signingCredential.ocsp.inaccessible",
    "timeStamp.untrusted",
    "timeStamp.outsideValidity",
    "timeStamp.mismatch",
    "timeStamp.malformed",
    "manifest.unknownProvenance",
    "algorithm.deprecated",
    "timeOfSigning.insideValidity",
    "ingredient.unknownProvenance",
    "assertion.dataHash.additionalExclusionsPresent",
    "assertion.bmffHash.additionalExclusionsPresent",
    "assertion.boxesHash.additionalExclusionsPresent",
    "signingCredential.ocsp.unknown",
    "cawg.x509.credential.trusted",
    "cawg.x509.signature.validated",
    "cawg.ica.untrusted_issuer"
  ]

  const BINDING_PREFIXES: seq<string> := [
    "assertion.dataHash.", "assertion.bmffHash.", "assertion.boxesHash.", "assertion.collectionHash."
  ]

  predicate Among(listed: seq<string>, code: Text) {
    exists s | s in listed :: code == Units(s)
  }

  predicate StartsAmong(prefixes: seq<string>, code: Text) {
    exists s | s in prefixes :: Units(s) <= code
  }

  predicate IsNonFailure(code: Text) {
    Among(NON_FAILURES, code)
  }

  /** A hard-binding code, of either polarity. */
  predicate IsBindingCode(code: Text) {
    StartsAmong(BINDING_PREFIXES, code)
  }

  predicate IsFailure(code: Text) {
    !IsNonFailure(code) && !IsBindingCode(code)
  }

  predicate IsCleared(code: Text) {
    code == Units(UNTRUSTED) || code == Units(EXPIRED)
  }

  function PolicyCodes(): Codes {
    Codes(IsFailure, IsCleared, Units(TRUSTED))
  }

  // ---------------------------------------------------------------------------
  // The code lists fit together
  // ---------------------------------------------------------------------------

  lemma UnitAt(s: string, i: nat)
    requires i < |s|
    ensures Units(s)[i] == s[i] as int % 0x1_0000
  {
  }

  /** At position `i` the code differs from every listed one of its own length. */
  predicate Apart(listed: seq<string>, code: string, i: nat) {
    && i < |code| && code[i] as int < 0x80
    && forall s | s in listed :: |s| == |code| ==> s[i] != code[i] && s[i] as int < 0x80
  }

  lemma NotAmong(listed: seq<string>, code: string, i: nat)
    requires Apart(listed, code, i)
    ensures !Among(listed, Units(code))
  {
    forall s | s in listed
      ensures Units(code) != Units(s)
    {
      if |s| == |code| {
        UnitAt(s, i);
        UnitAt(code, i);
      }
    }
  }

  lemma NoPrefixAmong(prefixes: seq<string>, code: string)
    requires code != "" && code[0] as int < 0x80
    requires forall s | s in prefixes :: s != "" && s[0] != code[0] && s[0] as int < 0x80
    ensures !StartsAmong(prefixes, Units(code))
  {
    forall s | s in prefixes
      ensures !(Units(s) <= Units(code))
    {
      UnitAt(s, 0);
      UnitAt(code, 0);
    }
  }

  lemma FirstOfLength27(listed: seq<string>)
    requires listed == FIRST_CODES
    ensures forall s | s in listed :: |s| == 27 ==> s[18] != 'u' && s[18] as int < 0x80
  {
    forall s | s in listed
      ensures |s| == 27 ==> s[18] != 'u' && s[18] as int < 0x80
    {
      var i :| 0 <= i < |listed| && listed[i] == s;
    }
  }

  lemma MoreOfLength27(listed: seq<string>)
    requires listed == MORE_CODES
    ensures forall s | s in listed :: |s| == 27 ==> s[18] != 'u' && s[18] as int < 0x80
  {
    forall s | s in listed
      ensures |s| == 27 ==> s[18] != 'u' && s[18] as int < 0x80
    {
      var i :| 0 <= i < |listed| && listed[i] == s;
    }
  }

  lemma FirstOfLength25(listed: seq<string>)
    requires listed == FIRST_CODES
    ensures forall s | s in listed :: |s| == 25 ==> s[18] != 'e' && s[18] as int < 0x80
  {
    forall s | s in listed
      ensures |s| == 25 ==> s[18] != 'e' && s[18] as int < 0x80
    {
      var i :| 0 <= i < |listed| && listed[i] == s;
    }
  }

  lemma MoreOfLength25(listed: seq<string>)
    requires listed == MORE_CODES
    ensures forall s | s in listed :: |s| == 25 ==> s[18] != 'e' && s[18] as int < 0x80
  {
    forall s | s in listed
      ensures |s| == 25 ==> s[18] != 'e' && s[18] as int < 0x80
    {
      var i :| 0 <= i < |listed| && listed[i] == s;
    }
  }

  lemma ApartBy(listed: seq<string>, code: string, n: nat, i: nat, c: char)
    requires |code| == n && i < n && code[i] == c && c as int < 0x80
    requires forall s | s in listed :: |s| == n ==> s[i] != c && s[i] as int < 0x80
    ensures Apart(listed, code, i)
  {
  }

  lemma NoBinding(code: string)
    requires code != "" && code[0] == 's'
    ensures !IsBindingCode(Units(code))
  {
    NoPrefixAmong(BINDING_PREFIXES, code);
  }

  lemma UntrustedNotListed(listed: seq<string>)
    requires forall s | s in listed :: |s| == 27 ==> s[18] != 'u' && s[18] as int < 0x80
    ensures !Among(listed, Units(UNTRUSTED))
  {
    ApartBy(listed, UNTRUSTED, 27, 18, 'u');
    NotAmong(listed, UNTRUSTED, 18);
  }

  lemma ExpiredNotListed(listed: seq<string>)
    requires forall s | s in listed :: |s| == 25 ==> s[18] != 'e' && s[18] as int < 0x80
    ensures !Among(listed, Units(EXPIRED))
  {
    ApartBy(listed, EXPIRED, 25, 18, 'e');
    NotAmong(listed, EXPIRED, 18);
  }

  lemma AmongEither(a: seq<string>, b: seq<string>, code: Text)
    ensures Among(a + b, code) <==> Among(a, code) || Among(b, code)
  {
    if Among(a, code) || Among(b, code) {
      var s :| (s in a || s in b) && code == Units(s);
      assert s in a + b;
    }
  }

  lemma ClearedAreFailures(first: seq<string>, more: seq<string>)
    requires first == FIRST_CODES && more == MORE_CODES
    ensures !Among(first + more, Units(UNTRUSTED)) && !Among(first + more, Units(EXPIRED))
  {
    FirstOfLength27(first);
    MoreOfLength27(more);
    UntrustedNotListed(first);
    UntrustedNotListed(more);
    FirstOfLength25(first);
    MoreOfLength25(more);
    ExpiredNotListed(first);
    ExpiredNotListed(more);
    AmongEither(first, more, Units(UNTRUSTED));
    AmongEither(first, more, Units(EXPIRED));
  }

  lemma TrustedIsNoFailure()
    ensures !IsFailure(Units(TRUSTED))
  {
    assert FIRST_CODES[2] == TRUSTED;
    AmongEither(FIRST_CODES, MORE_CODES, Units(TRUSTED));
  }

  /** Both codes a trusted parent clears would otherwise be reported; the code that clears them never is. */
  lemma CodesFit(code: Text)
    ensures IsCleared(code) ==> IsFailure(code)
    ensures code == Units(TRUSTED) ==> !IsFailure(code)
  {
    var first, more := FIRST_CODES, MORE_CODES;
    ClearedAreFailures(first, more);
    NoBinding(UNTRUSTED);
    NoBinding(EXPIRED);
    TrustedIsNoFailure();
  }

  // ---------------------------------------------------------------------------
  // What the policy reports
  // ---------------------------------------------------------------------------

  /** The live report trusts the chain of the ingredient's parent, and the entry is about that parent. */
  ghost predicate AboutTrustedParent(store: Store, holder: Text, i: Ingredient, e: Entry) {
    LiveTrustsParent(store, Units("signingCredential.trusted"), holder, i) && AboutParent(i, e)
  }

  /** The ingredient recorded the entry, its code is one the policy judges a failure, and it is not an
      untrusted or expired one about a parent the verifier itself trusts. */
  ghost predicate PolicyReports(store: Store, holder: Text, i: Ingredient, e: Entry) {
    && IsRecorded(i, e) && e.code.Some?
    && if e.code.value == Units("signingCredential.untrusted") || e.code.value == Units("signingCredential.expired")
       then !AboutTrustedParent(store, holder, i, e)
       else !IsNonFailure(e.code.value) && !SpeaksOfBinding(e.code.value)
  }

  /** The four families of hard-binding codes. */
  predicate SpeaksOfBinding(code: Text) {
    || Units("assertion.dataHash.") <= code || Units("assertion.bmffHash.") <= code
    || Units("assertion.boxesHash.") <= code || Units("assertion.collectionHash.") <= code
  }

  lemma BindingIff(code: Text)
    ensures IsBindingCode(code) <==> SpeaksOfBinding(code)
  {
    assert BINDING_PREFIXES[0] == "assertion.dataHash." && BINDING_PREFIXES[1] == "assertion.bmffHash.";
    assert BINDING_PREFIXES[2] == "assertion.boxesHash." && BINDING_PREFIXES[3] == "assertion.collectionHash.";
  }

  lemma PolicyReportsIff(store: Store, holder: Text, i: Ingredient, e: Entry)
    ensures Reports(store, PolicyCodes(), holder, i, e) <==> PolicyReports(store, holder, i, e)
  {
    if e.code.Some? {
      CodesFit(e.code.value);
      BindingIff(e.code.value);
    }
  }

  ghost predicate SomePolicyReports(store: Store, e: Entry) {
    exists h, k | 0 <= h < |store.holders| && 0 <= k < |store.holders[h].ingredients| ::
      PolicyReports(store, store.holders[h].labelText, store.holders[h].ingredients[k], e)
  }

  lemma SomePolicyReportsIff(store: Store, e: Entry)
    ensures SomeReports(store, PolicyCodes(), store.holders, e) <==> SomePolicyReports(store, e)
  {
    forall h, k | 0 <= h < |store.holders| && 0 <= k < |store.holders[h].ingredients|
      ensures Reports(store, PolicyCodes(), store.holders[h].labelText, store.holders[h].ingredients[k], e)
              <==> PolicyReports(store, store.holders[h].labelText, store.holders[h].ingredients[k], e)
    {
      PolicyReportsIff(store, store.holders[h].labelText, store.holders[h].ingredients[k], e);
    }
  }

  /**
   What the policy reports for a store: exactly the entries that some ingredient recorded and that the
   real code lists make failures. No hard-binding code is among them, and an untrusted or expired entry
   is unless it is about a parent the verifier itself trusts.
   */
  method FindPolicyFailures(store: Store) returns (out: seq<Entry>)
    ensures out == HoldersFailures(store, PolicyCodes(), store.holders)
    ensures forall e :: e in out <==> SomePolicyReports(store, e)
    ensures forall e | e in out :: e.code.Some? && !IsBindingCode(e.code.value) && !IsNonFailure(e.code.value)
  {
    out := FindUnverifiedRecordedFailures(store, PolicyCodes());
    forall e
      ensures e in out <==> SomePolicyReports(store, e)
      ensures e in out ==> e.code.Some? && !IsBindingCode(e.code.value) && !IsNonFailure(e.code.value)
    {
      ReportIff(store, PolicyCodes(), store.holders, e);
      SomePolicyReportsIff(store, e);
    }
  }
}
