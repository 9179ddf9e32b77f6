/** Evidence items and the assurance level they support (src/mvpc/assurance.py). */
module Assurance {
  import opened Wrappers
  import opened Text

  datatype TrustVerdict =
    | FormallyChecked | ComputationVerified | ExecutionObserved | EvidenceSupported | HumanAttested
    | Inconclusive | Rejected | UnsafeToVerify | ConflictingVerdicts

  /** The levels D0 to D6. */
  type Level = n: nat | n <= 6

  datatype Evidence = Evidence(
    sourceId: string, kind: string, verdict: TrustVerdict,
    foundation: Option<string>, independenceGroup: Option<string>,
    claimId: string, proposition: string, independentFrom: set<string>,
    environmentId: Option<string>, artifactHash: Option<string>, declaration: Option<string>,
    humanReviewScope: Option<string>, notes: Option<string>)

  /** A hash that is neither missing, empty nor the placeholder in any case. */
  predicate Concrete(hash: Option<string>) {
    Given(hash) && Lower(hash.value) != "unknown"
  }

  predicate Scoped(e: Evidence) {
    e.claimId != ""
  }

  predicate IsFormal(e: Evidence) {
    e.verdict.FormallyChecked?
  }

  datatype Construction = Accepted(evidence: Evidence) | Refused(reason: Reason)

  datatype Reason = BlankSource | BlankKind | HalfScoped | NoConcreteHash

  /** Building an item, with the checks in the order they are made. */
  function Construct(e: Evidence): Construction {
    if Strip(e.sourceId) == "" then Refused(BlankSource)
    else if Strip(e.kind) == "" then Refused(BlankKind)
    else if (e.claimId != "") != (e.proposition != "") then Refused(HalfScoped)
    else if IsFormal(e) && Scoped(e) && !Concrete(e.artifactHash) then Refused(NoConcreteHash)
    else Accepted(e)
  }

  const HARDENED: set<string> := {"signature", "environment", "axiom_audit", "provenance"}

  function FormalSources(items: seq<Evidence>): seq<Evidence> {
    if |items| == 0 then []
    else if IsFormal(items[0]) then [items[0]] + FormalSources(items[1..])
    else FormalSources(items[1..])
  }

  /** Different sources, on record as independent of each other. */
  predicate Apart(a: Evidence, b: Evidence) {
    && b.sourceId != a.sourceId
    && (|| (Given(a.independenceGroup) && Given(b.independenceGroup) && a.independenceGroup != b.independenceGroup)
        || b.sourceId in a.independentFrom
        || a.sourceId in b.independentFrom)
  }

  predicate Reviewed(e: Evidence) {
    e.verdict.HumanAttested? && (Given(e.humanReviewScope) || !Scoped(e))
  }

  function ClaimIds(items: seq<Evidence>): set<string> {
    set e | e in items && Scoped(e) :: e.claimId
  }

  function Propositions(items: seq<Evidence>): set<string> {
    set e | e in items && Scoped(e) :: e.proposition
  }

  function ArtifactHashes(items: seq<Evidence>): set<Option<string>> {
    set e | e in items && Scoped(e) && Concrete(e.artifactHash) :: e.artifactHash
  }

  function Verdicts(items: seq<Evidence>): set<TrustVerdict> {
    set e | e in items :: e.verdict
  }

  function PresentKinds(items: seq<Evidence>): set<string> {
    set e | e in items :: e.kind
  }

  function Foundations(items: seq<Evidence>): set<Option<string>> {
    set e | e in items && Given(e.foundation) :: e.foundation
  }

  predicate IndependentPair(sources: seq<Evidence>) {
    exists i, j :: 0 <= i < j < |sources| && Apart(sources[i], sources[j])
  }

  function DeriveAssurance(items: seq<Evidence>): Level {
    if |items| == 0 then 0
    else if |ClaimIds(items)| > 1 || |Propositions(items)| > 1 || |ArtifactHashes(items)| > 1 then 0
    else if Rejected in Verdicts(items) || UnsafeToVerify in Verdicts(items) then 0
    else
      var formalSources := FormalSources(items);
      if |formalSources| == 0 && ComputationVerified !in Verdicts(items) then 0
      else
        var checked: Level := if |formalSources| > 0 then 2 else 1;
        var hardened: Level := if HARDENED <= PresentKinds(items) then 3 else checked;
        var rechecked: Level := if hardened >= 3 && IndependentPair(formalSources) then 4 else hardened;
        var crossed: Level := if rechecked >= 4 && |Foundations(formalSources)| >= 2 then 5 else rechecked;
        if crossed >= 5 && (exists e :: e in items && Reviewed(e)) then 6 else crossed
  }

  // ----- What each level asks for, as a property of the set of items

  /** The text is "unknown" with every letter in either case; the Kelvin sign is a k as well. */
  ghost predicate UnknownInAnyCase(text: string) {
    && |text| == 7
    && forall k :: 0 <= k < 7 ==>
         text[k] == "unknown"[k] || text[k] == "UNKNOWN"[k] || (k == 2 && text[k] == '\U{212A}')
  }

  /** A hash that says something. */
  ghost predicate Hash(h: Option<string>) {
    h.Some? && h.value != "" && !UnknownInAnyCase(h.value)
  }

  lemma HashIff(h: Option<string>)
    ensures Concrete(h) <==> Hash(h)
  {
    if h.Some? {
      var text := h.value;
      if |text| == 7 {
        forall k | 0 <= k < 7
          ensures Lower(text)[k] == "unknown"[k]
             <==> text[k] == "unknown"[k] || text[k] == "UNKNOWN"[k] || (k == 2 && text[k] == '\U{212A}')
        {
        }
      }
    }
  }

  /** Two items with a claim each that do not speak of one claim, proposition and artifact. */
  ghost predicate Disagree(a: Evidence, b: Evidence) {
    && a.claimId != "" && b.claimId != ""
    && (|| a.claimId != b.claimId || a.proposition != b.proposition
        || (Hash(a.artifactHash) && Hash(b.artifactHash) && a.artifactHash != b.artifactHash))
  }

  lemma DisagreeIff(a: Evidence, b: Evidence)
    ensures Disagree(a, b)
       <==> && Scoped(a) && Scoped(b)
            && (|| a.claimId != b.claimId || a.proposition != b.proposition
                || (Concrete(a.artifactHash) && Concrete(b.artifactHash) && a.artifactHash != b.artifactHash))
  {
    HashIff(a.artifactHash);
    HashIff(b.artifactHash);
  }

  /** Two scoped items about different things, or a rejecting verdict. */
  ghost predicate Conflict(s: set<Evidence>) {
    || (exists a, b :: a in s && b in s && Disagree(a, b))
    || (exists e :: e in s && (e.verdict.Rejected? || e.verdict.UnsafeToVerify?))
  }

  ghost predicate HasFormal(s: set<Evidence>) {
    exists e :: e in s && e.verdict.FormallyChecked?
  }

  ghost predicate HasComputation(s: set<Evidence>) {
    exists e :: e in s && e.verdict.ComputationVerified?
  }

  ghost predicate HasKind(s: set<Evidence>, kind: string) {
    exists e :: e in s && e.kind == kind
  }

  ghost predicate Hardened(s: set<Evidence>) {
    && HasKind(s, "signature") && HasKind(s, "environment")
    && HasKind(s, "axiom_audit") && HasKind(s, "provenance")
  }

  /** Two texts that are both given, and differ. */
  ghost predicate Differ(g: Option<string>, h: Option<string>) {
    g.Some? && h.Some? && g.value != "" && h.value != "" && g != h
  }

  /** The items come from different sources; and their groups differ, or one of them lists the other. */
  ghost predicate Independent(a: Evidence, b: Evidence) {
    && a.sourceId != b.sourceId
    && (|| Differ(a.independenceGroup, b.independenceGroup)
        || a.sourceId in b.independentFrom || b.sourceId in a.independentFrom)
  }

  ghost predicate Rechecked(s: set<Evidence>) {
    exists a, b :: a in s && b in s && a.verdict.FormallyChecked? && b.verdict.FormallyChecked? && Independent(a, b)
  }

  ghost predicate CrossFoundation(s: set<Evidence>) {
    exists a, b :: a in s && b in s && a.verdict.FormallyChecked? && b.verdict.FormallyChecked?
                   && Differ(a.foundation, b.foundation)
  }

  /** A person attested, within a stated scope if the item is about a claim. */
  ghost predicate HumanReviewed(s: set<Evidence>) {
    exists e :: && e in s && e.verdict.HumanAttested?
                && (e.claimId == "" || (e.humanReviewScope.Some? && e.humanReviewScope.value != ""))
  }

  ghost predicate Meets(s: set<Evidence>, level: Level) {
    || level == 0
    || (&& !Conflict(s)
        && (HasFormal(s) || HasComputation(s))
        && (level >= 2 ==> HasFormal(s) || Hardened(s))
        && (level >= 3 ==> Hardened(s))
        && (level >= 4 ==> Rechecked(s))
        && (level >= 5 ==> CrossFoundation(s))
        && (level >= 6 ==> HumanReviewed(s)))
  }

  function Elements(items: seq<Evidence>): set<Evidence> {
    set e | e in items
  }

  // ----- The derivation reaches exactly the levels that are met

  lemma Several<T>(s: set<T>)
    ensures |s| > 1 <==> exists a, b :: a in s && b in s && a != b
  {
    if |s| > 1 {
      var a :| a in s;
      var rest := s - {a};
      assert |rest| == |s| - 1;
      var b :| b in rest;
      assert a in s && b in s && a != b;
    } else if |s| == 1 {
      var a :| a in s;
      assert s == {a} by {
        assert |s - {a}| == 0;
      }
    }
  }

  lemma {:induction false} FormalSourcesAre(items: seq<Evidence>, e: Evidence)
    ensures e in FormalSources(items) <==> e in items && IsFormal(e)
  {
    if |items| > 0 {
      FormalSourcesAre(items[1..], e);
    }
  }

  lemma HasFormalMeaning(items: seq<Evidence>)
    ensures |FormalSources(items)| > 0 <==> HasFormal(Elements(items))
  {
    if |FormalSources(items)| > 0 {
      FormalSourcesAre(items, FormalSources(items)[0]);
    }
    forall e | e in items && IsFormal(e)
      ensures e in FormalSources(items)
    {
      FormalSourcesAre(items, e);
    }
  }

  ghost predicate Disagreement(items: seq<Evidence>) {
    exists a, b :: a in items && b in items && Disagree(a, b)
  }

  lemma SeveralMeansDisagreement(items: seq<Evidence>)
    requires |ClaimIds(items)| > 1 || |Propositions(items)| > 1 || |ArtifactHashes(items)| > 1
    ensures Disagreement(items)
  {
    Several(ClaimIds(items));
    Several(Propositions(items));
    Several(ArtifactHashes(items));
    if |ClaimIds(items)| > 1 {
      var p, q :| p in ClaimIds(items) && q in ClaimIds(items) && p != q;
      var a :| a in items && Scoped(a) && a.claimId == p;
      var b :| b in items && Scoped(b) && b.claimId == q;
      assert Disagree(a, b);
    } else if |Propositions(items)| > 1 {
      var p, q :| p in Propositions(items) && q in Propositions(items) && p != q;
      var a :| a in items && Scoped(a) && a.proposition == p;
      var b :| b in items && Scoped(b) && b.proposition == q;
      assert Disagree(a, b);
    } else {
      var p, q :| p in ArtifactHashes(items) && q in ArtifactHashes(items) && p != q;
      var a :| a in items && Scoped(a) && Concrete(a.artifactHash) && a.artifactHash == p;
      var b :| b in items && Scoped(b) && Concrete(b.artifactHash) && b.artifactHash == q;
      DisagreeIff(a, b);
      assert Disagree(a, b);
    }
  }

  lemma DisagreementMeansSeveral(items: seq<Evidence>)
    requires Disagreement(items)
    ensures |ClaimIds(items)| > 1 || |Propositions(items)| > 1 || |ArtifactHashes(items)| > 1
  {
    var a, b :| a in items && b in items && Disagree(a, b);
    assert a.claimId in ClaimIds(items) && b.claimId in ClaimIds(items);
    assert a.proposition in Propositions(items) && b.proposition in Propositions(items);
    if a.claimId != b.claimId {
      Several(ClaimIds(items));
    } else if a.proposition != b.proposition {
      Several(Propositions(items));
    } else {
      DisagreeIff(a, b);
      assert a.artifactHash in ArtifactHashes(items) && b.artifactHash in ArtifactHashes(items);
      Several(ArtifactHashes(items));
    }
  }

  lemma SeveralFoundations(items: seq<Evidence>)
    ensures |Foundations(FormalSources(items))| >= 2 <==> CrossFoundation(Elements(items))
  {
    var fs := FormalSources(items);
    forall e
      ensures e in fs <==> e in Elements(items) && IsFormal(e)
    {
      FormalSourcesAre(items, e);
    }
    Several(Foundations(fs));
    if CrossFoundation(Elements(items)) {
      var a, b :| a in Elements(items) && b in Elements(items) && IsFormal(a) && IsFormal(b)
        && Differ(a.foundation, b.foundation);
      assert a in fs && b in fs;
      assert a.foundation in Foundations(fs) && b.foundation in Foundations(fs);
    }
  }

  /** Looking only at pairs in list order loses nothing: independence is symmetric. */
  lemma PairsInOrderSuffice(items: seq<Evidence>)
    ensures IndependentPair(FormalSources(items)) <==> Rechecked(Elements(items))
  {
    var fs := FormalSources(items);
    forall e
      ensures e in fs <==> e in Elements(items) && IsFormal(e)
    {
      FormalSourcesAre(items, e);
    }
    if IndependentPair(fs) {
      var i, j :| 0 <= i < j < |fs| && Apart(fs[i], fs[j]);
      assert fs[i] in fs && fs[j] in fs && Independent(fs[i], fs[j]);
    }
    if Rechecked(Elements(items)) {
      var a, b :| a in Elements(items) && b in Elements(items) && IsFormal(a) && IsFormal(b) && Independent(a, b);
      assert a in fs && b in fs;
      var i :| 0 <= i < |fs| && fs[i] == a;
      var j :| 0 <= j < |fs| && fs[j] == b;
      assert i != j && Apart(fs[i], fs[j]) && Apart(fs[j], fs[i]);
    }
  }

  lemma ConflictMeaning(items: seq<Evidence>)
    ensures Conflict(Elements(items))
       <==> (|| |ClaimIds(items)| > 1 || |Propositions(items)| > 1 || |ArtifactHashes(items)| > 1
             || Rejected in Verdicts(items) || UnsafeToVerify in Verdicts(items))
  {
    if Disagreement(items) {
      DisagreementMeansSeveral(items);
      var a, b :| a in items && b in items && Disagree(a, b);
      assert a in Elements(items) && b in Elements(items);
    } else if |ClaimIds(items)| > 1 || |Propositions(items)| > 1 || |ArtifactHashes(items)| > 1 {
      SeveralMeansDisagreement(items);
      assert false;
    } else {
      assert forall a, b :: a in Elements(items) && b in Elements(items) ==> !Disagree(a, b);
      assert (exists e :: e in Elements(items) && (e.verdict.Rejected? || e.verdict.UnsafeToVerify?))
        <==> (Rejected in Verdicts(items) || UnsafeToVerify in Verdicts(items));
    }
  }

  /** The derived level is the highest one whose demands the set of items meets. */
  lemma LevelMeets(items: seq<Evidence>, level: Level)
    ensures DeriveAssurance(items) >= level <==> Meets(Elements(items), level)
  {
    ConflictMeaning(items);
    HasFormalMeaning(items);
    PairsInOrderSuffice(items);
    SeveralFoundations(items);
    assert HasComputation(Elements(items)) <==> ComputationVerified in Verdicts(items);
    assert Hardened(Elements(items)) <==> HARDENED <= PresentKinds(items) by {
      forall kind
        ensures kind in PresentKinds(items) <==> HasKind(Elements(items), kind)
      {
      }
    }
    assert HumanReviewed(Elements(items)) <==> exists e :: e in items && Reviewed(e) by {
      forall e
        ensures e in items <==> e in Elements(items)
      {
      }
    }
  }

  // ----- Consequences

  /** Order and repetition do not matter: lists with the same items have the same level. */
  lemma SameItemsSameLevel(a: seq<Evidence>, b: seq<Evidence>)
    requires Elements(a) == Elements(b)
    ensures DeriveAssurance(a) == DeriveAssurance(b)
  {
    LevelMeets(a, DeriveAssurance(a));
    LevelMeets(b, DeriveAssurance(a));
    LevelMeets(a, DeriveAssurance(b));
    LevelMeets(b, DeriveAssurance(b));
  }

  /** More evidence never lowers the level while no conflict appears. */
  lemma MoreNeverLowers(fewer: seq<Evidence>, more: seq<Evidence>)
    requires Elements(fewer) <= Elements(more) && !Conflict(Elements(more))
    ensures DeriveAssurance(fewer) <= DeriveAssurance(more)
  {
    var level := DeriveAssurance(fewer);
    LevelMeets(fewer, level);
    LevelMeets(more, level);
    assert forall kind :: HasKind(Elements(fewer), kind) ==> HasKind(Elements(more), kind);
  }

  /** Once items conflict, no further evidence lifts the claim off D0. */
  lemma ConflictIsFinal(fewer: seq<Evidence>, more: seq<Evidence>)
    requires Elements(fewer) <= Elements(more) && Conflict(Elements(fewer))
    ensures DeriveAssurance(more) == 0
  {
    LevelMeets(more, 1);
  }

  /** An unscoped item that does not reject never lowers the level, wherever it stands. */
  lemma UnscopedNeverLowers(items: seq<Evidence>, e: Evidence, more: seq<Evidence>)
    requires !Scoped(e) && !e.verdict.Rejected? && !e.verdict.UnsafeToVerify?
    requires Elements(more) == Elements(items) + {e}
    ensures DeriveAssurance(items) <= DeriveAssurance(more)
  {
    LevelMeets(items, 1);
    if DeriveAssurance(items) > 0 {
      assert !Conflict(Elements(more));
      MoreNeverLowers(items, more);
    }
  }

  /** Any level above D0 speaks of one claim and one proposition, and every formal item built for
      it carries the same concrete artifact hash as every other scoped item that has one. */
  lemma OneIdentity(items: seq<Evidence>, a: Evidence, b: Evidence)
    requires DeriveAssurance(items) > 0
    requires a in items && b in items && a.claimId != "" && b.claimId != ""
    ensures a.claimId == b.claimId && a.proposition == b.proposition
    ensures Construct(a) == Accepted(a) && a.verdict.FormallyChecked? ==>
      Concrete(a.artifactHash) && (Concrete(b.artifactHash) ==> b.artifactHash == a.artifactHash)
  {
    LevelMeets(items, 1);
    DisagreeIff(a, b);
    assert !Disagree(a, b);
  }

  /** D4 and above rest on two formally checked items from different sources, in different groups or one listing
      the other. */
  lemma D4IsRechecked(items: seq<Evidence>)
    requires DeriveAssurance(items) >= 4
    ensures exists a, b :: && a in items && b in items && a.verdict.FormallyChecked? && b.verdict.FormallyChecked?
                           && a.sourceId != b.sourceId
                           && (|| Differ(a.independenceGroup, b.independenceGroup)
                               || a.sourceId in b.independentFrom || b.sourceId in a.independentFrom)
  {
    LevelMeets(items, 4);
    var a, b :| a in Elements(items) && b in Elements(items) && IsFormal(a) && IsFormal(b) && Independent(a, b);
    assert a in items && b in items;
  }

  /** An item can be built exactly when source and kind are not blank, claim and proposition come together, and a
      formal item about a claim has a concrete hash; otherwise the first of these that fails is named. */
  lemma ConstructIff(e: Evidence)
    ensures Construct(e) == Refused(BlankSource) <==> AllSpace(e.sourceId)
    ensures Construct(e) == Refused(BlankKind) <==> !AllSpace(e.sourceId) && AllSpace(e.kind)
    ensures Construct(e) == Refused(HalfScoped)
       <==> !AllSpace(e.sourceId) && !AllSpace(e.kind) && !(e.claimId == "" <==> e.proposition == "")
    ensures Construct(e) == Refused(NoConcreteHash)
       <==> && !AllSpace(e.sourceId) && !AllSpace(e.kind) && (e.claimId == "" <==> e.proposition == "")
            && e.verdict.FormallyChecked? && e.claimId != "" && !Hash(e.artifactHash)
    ensures Construct(e).Accepted? ==> Construct(e).evidence == e
  {
    StripBlank(e.sourceId);
    StripBlank(e.kind);
    HashIff(e.artifactHash);
  }

  /** docs/DIAMOND_ASSURANCE_PROFILE.md makes D3 "D2 plus controls". The code lifts computation-only
      evidence there too; this is exactly when the profile's promise fails. */
  lemma HardenedFormalFailsIff(items: seq<Evidence>)
    ensures (DeriveAssurance(items) >= 3 && !HasFormal(Elements(items)))
       <==> (&& !HasFormal(Elements(items)) && HasComputation(Elements(items))
             && Hardened(Elements(items)) && !Conflict(Elements(items)))
    ensures DeriveAssurance(items) == 2 ==> HasFormal(Elements(items))
  {
    LevelMeets(items, 3);
    LevelMeets(items, 2);
  }

  function Computed(kind: string): Evidence {
    Evidence("sympy", kind, ComputationVerified, None, None, "", "", {}, None, None, None, None, None)
  }

  /** Computation items of the four hardening kinds reach D3 with nothing formally checked. */
  lemma ComputationAloneReachesD3(items: seq<Evidence>)
    requires items == [Computed("signature"), Computed("environment"), Computed("axiom_audit"), Computed("provenance")]
    ensures DeriveAssurance(items) >= 3 && !HasFormal(Elements(items))
  {
    var s := Elements(items);
    assert items[0] in s && items[1] in s && items[2] in s && items[3] in s;
    assert HasKind(s, "signature") && HasKind(s, "environment");
    assert HasKind(s, "axiom_audit") && HasKind(s, "provenance");
    assert forall e :: e in s ==> e.verdict.ComputationVerified? && !Scoped(e);
    HardenedFormalFailsIff(items);
  }
}
