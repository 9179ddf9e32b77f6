/** The proof record: results bound to a claim, and the level they earn (src/mvpc/proof_record.py). */
module ProofRecords {
  import opened Wrappers
  import opened Text
  import opened Assurance
  import opened Planning

  datatype Binding = Binding(claimId: string, naturalStatement: string, scope: string,
                             formalStatement: Option<string>, declaration: Option<string>,
                             proofArtifactHash: Option<string>)

  /** What building a binding checks. */
  predicate ValidBinding(b: Binding) {
    Strip(b.claimId) != "" && Strip(b.naturalStatement) != "" && Strip(b.scope) != ""
  }

  datatype Review = Review(claimId: string, naturalStatement: string, formalStatement: string, formalLanguage: string,
                           tests: seq<Option<bool>>, divergences: seq<string>)

  predicate Approved(r: Review) {
    && Strip(r.claimId) != "" && Strip(r.naturalStatement) != "" && Strip(r.formalStatement) != ""
    && Strip(r.formalLanguage) != ""
    && |r.tests| > 0 && (forall k :: 0 <= k < |r.tests| ==> r.tests[k] == Some(true))
    && |r.divergences| == 0
  }

  datatype ProofRecord = ProofRecord(binding: Binding, plan: VerificationPlan, review: Option<Review>,
                                     results: seq<CheckResult>, supplemental: seq<Evidence>)

  function Proposition(b: Binding): string {
    if Given(b.formalStatement) then b.formalStatement.value else b.naturalStatement
  }

  /** The evidence of the results; `None` where building an item raises. */
  function ResultEvidence(b: Binding, results: seq<CheckResult>): Option<seq<Evidence>> {
    if forall k :: 0 <= k < |results| ==> ToEvidence(results[k], b.claimId, Proposition(b)).Accepted?
    then Some(seq(|results|, k requires 0 <= k < |results| =>
                               ToEvidence(results[k], b.claimId, Proposition(b)).evidence))
    else None
  }

  function RecordEvidence(record: ProofRecord): Option<seq<Evidence>> {
    match ResultEvidence(record.binding, record.results)
    case Some(items) => Some(items + record.supplemental)
    case None => None
  }

  datatype RecordError =
    | PlanClaimMismatch | ReviewClaimMismatch | IncompleteBinding
    | HashMismatch(backend: string) | DeclarationMismatch(backend: string) | ReviewNotApproved

  predicate FormalResult(r: CheckResult) {
    r.kind.Formal? && r.verdict.FormallyChecked?
  }

  function FormalResults(results: seq<CheckResult>): (r: seq<CheckResult>) {
    if |results| == 0 then []
    else
      var last := |results| - 1;
      FormalResults(results[..last]) + if FormalResult(results[last]) then [results[last]] else []
  }

  function AddIf(errors: seq<RecordError>, wrong: bool, error: RecordError): seq<RecordError> {
    if wrong then errors + [error] else errors
  }

  function WithMismatches(errors: seq<RecordError>, b: Binding, formal: seq<CheckResult>): seq<RecordError> {
    if |formal| == 0 then errors
    else
      var r := formal[|formal| - 1];
      var earlier := WithMismatches(errors, b, formal[..|formal| - 1]);
      AddIf(AddIf(earlier, r.artifactHash != b.proofArtifactHash, HashMismatch(r.targetBackend)),
            r.declaration != b.declaration, DeclarationMismatch(r.targetBackend))
  }

  predicate ReviewElsewhere(record: ProofRecord) {
    record.review.Some? && record.review.value.claimId != record.binding.claimId
  }

  function HeaderErrors(record: ProofRecord): seq<RecordError> {
    AddIf(AddIf([], record.binding.claimId != record.plan.claimId, PlanClaimMismatch),
          ReviewElsewhere(record), ReviewClaimMismatch)
  }

  predicate Incomplete(b: Binding) {
    !Given(b.formalStatement) || !Given(b.declaration) || !Given(b.proofArtifactHash)
  }

  predicate Unapproved(review: Option<Review>) {
    review.Some? && !Approved(review.value)
  }

  /** The errors in the order they are found. */
  function Errors(record: ProofRecord): seq<RecordError> {
    var formal := FormalResults(record.results);
    var header := HeaderErrors(record);
    if |formal| == 0 then header
    else
      AddIf(WithMismatches(AddIf(header, Incomplete(record.binding), IncompleteBinding), record.binding, formal),
            Unapproved(record.review), ReviewNotApproved)
  }

  method ValidationErrors(record: ProofRecord) returns (errors: seq<RecordError>)
    ensures errors == Errors(record)
  {
    errors := [];
    if record.binding.claimId != record.plan.claimId {
      errors := errors + [PlanClaimMismatch];
    }
    if record.review.Some? && record.review.value.claimId != record.binding.claimId {
      errors := errors + [ReviewClaimMismatch];
    }
    var formal := FormalResults(record.results);
    if |formal| > 0 {
      if Incomplete(record.binding) {
        errors := errors + [IncompleteBinding];
      }
      ghost var before := errors;
      for k := 0 to |formal|
        invariant errors == WithMismatches(before, record.binding, formal[..k])
      {
        assert formal[..k + 1][..k] == formal[..k];
        if formal[k].artifactHash != record.binding.proofArtifactHash {
          errors := errors + [HashMismatch(formal[k].targetBackend)];
        }
        if formal[k].declaration != record.binding.declaration {
          errors := errors + [DeclarationMismatch(formal[k].targetBackend)];
        }
      }
      assert formal[..|formal|] == formal;
      if Unapproved(record.review) {
        errors := errors + [ReviewNotApproved];
      }
    }
  }

  /** The record's level; `None` where collecting its evidence raises. */
  function AssuranceLevel(record: ProofRecord): Option<Level> {
    if |Errors(record)| > 0 then Some(0)
    else
      match RecordEvidence(record)
      case Some(items) => Some(DeriveAssurance(items))
      case None => None
  }

  // ----- What the checks establish

  lemma {:induction false} FormalResultsAre(results: seq<CheckResult>, r: CheckResult)
    ensures r in FormalResults(results) <==> r in results && FormalResult(r)
  {
    if |results| > 0 {
      var last := |results| - 1;
      FormalResultsAre(results[..last], r);
      assert results == results[..last] + [results[last]];
    }
  }

  lemma {:induction false} NoMismatches(errors: seq<RecordError>, b: Binding, formal: seq<CheckResult>)
    ensures |WithMismatches(errors, b, formal)| >= |errors|
    ensures |WithMismatches(errors, b, formal)| == |errors| <==> forall r :: r in formal ==> BoundTo(b, r)
  {
    if |formal| > 0 {
      var last := |formal| - 1;
      NoMismatches(errors, b, formal[..last]);
      assert BoundTo(b, formal[last])
        <==> |WithMismatches(errors, b, formal)| == |WithMismatches(errors, b, formal[..last])|;
      assert formal == formal[..last] + [formal[last]];
    }
  }

  /** The identity of plan, binding and review agree. */
  predicate SameClaim(record: ProofRecord) {
    && record.plan.claimId == record.binding.claimId
    && (record.review.Some? ==> record.review.value.claimId == record.binding.claimId)
  }

  predicate BoundTo(b: Binding, r: CheckResult) {
    r.artifactHash == b.proofArtifactHash && r.declaration == b.declaration
  }

  ghost predicate HasFormalResult(record: ProofRecord) {
    exists r :: r in record.results && r.kind.Formal? && r.verdict.FormallyChecked?
  }

  ghost predicate FormalsBound(record: ProofRecord) {
    && Given(record.binding.formalStatement) && Given(record.binding.declaration)
    && Given(record.binding.proofArtifactHash)
    && (forall r :: r in record.results && FormalResult(r) ==> BoundTo(record.binding, r))
    && (record.review.Some? ==> Approved(record.review.value))
  }

  /** A record is free of errors exactly when its parts share the claim and, if any formal check
      succeeded, every such check is bound to the complete, approved formal identity. */
  lemma ErrorFreeIff(record: ProofRecord)
    ensures Errors(record) == [] <==> SameClaim(record) && (HasFormalResult(record) ==> FormalsBound(record))
  {
    var formal := FormalResults(record.results);
    forall r
      ensures r in formal <==> r in record.results && FormalResult(r)
    {
      FormalResultsAre(record.results, r);
    }
    assert HasFormalResult(record) <==> |formal| > 0 by {
      if |formal| > 0 {
        assert formal[0] in formal;
      }
    }
    var header := AddIf(HeaderErrors(record), Incomplete(record.binding), IncompleteBinding);
    NoMismatches(header, record.binding, formal);
    assert (forall r :: r in formal ==> BoundTo(record.binding, r))
      <==> (forall r :: r in record.results && FormalResult(r) ==> BoundTo(record.binding, r));
    assert |Errors(record)| == 0 <==> SameClaim(record) && (HasFormalResult(record) ==> FormalsBound(record));
  }

  /** A review approves when no part of it is blank, there are tests, all passed, and nothing diverges. */
  lemma ApprovedIff(r: Review)
    ensures Approved(r)
       <==> && !AllSpace(r.claimId) && !AllSpace(r.naturalStatement) && !AllSpace(r.formalStatement)
            && !AllSpace(r.formalLanguage) && r.divergences == []
            && r.tests != [] && forall test :: test in r.tests ==> test == Some(true)
  {
    StripBlank(r.claimId);
    StripBlank(r.naturalStatement);
    StripBlank(r.formalStatement);
    StripBlank(r.formalLanguage);
    if forall test :: test in r.tests ==> test == Some(true) {
      assert forall k :: 0 <= k < |r.tests| ==> r.tests[k] in r.tests;
    }
  }

  lemma ValidBindingIff(b: Binding)
    ensures ValidBinding(b) <==> !AllSpace(b.claimId) && !AllSpace(b.naturalStatement) && !AllSpace(b.scope)
  {
    StripBlank(b.claimId);
    StripBlank(b.naturalStatement);
    StripBlank(b.scope);
  }

  /** A formal result of this backend for which `differs` holds. */
  ghost predicate SomeFormal(results: seq<CheckResult>, backend: string, differs: CheckResult -> bool) {
    exists r :: r in results && r.kind.Formal? && r.verdict.FormallyChecked? && r.targetBackend == backend && differs(r)
  }

  lemma {:induction false} MismatchesFound(errors: seq<RecordError>, b: Binding, formal: seq<CheckResult>,
                                           error: RecordError)
    ensures error in WithMismatches(errors, b, formal)
       <==> || error in errors
            || exists r :: r in formal
                 && (|| (error == HashMismatch(r.targetBackend) && r.artifactHash != b.proofArtifactHash)
                     || (error == DeclarationMismatch(r.targetBackend) && r.declaration != b.declaration))
  {
    if formal != [] {
      var last := |formal| - 1;
      MismatchesFound(errors, b, formal[..last], error);
      assert formal == formal[..last] + [formal[last]];
    }
  }

  lemma FormalsFound(record: ProofRecord)
    ensures forall r :: r in FormalResults(record.results) <==> r in record.results && FormalResult(r)
    ensures |FormalResults(record.results)| > 0 <==> HasFormalResult(record)
  {
    forall r
      ensures r in FormalResults(record.results) <==> r in record.results && FormalResult(r)
    {
      FormalResultsAre(record.results, r);
    }
    if |FormalResults(record.results)| > 0 {
      assert FormalResults(record.results)[0] in FormalResults(record.results);
    }
  }

  /** Each error is reported exactly for its fault; those after the first two only with a formal result. */
  lemma ErrorsFound(record: ProofRecord)
    ensures PlanClaimMismatch in Errors(record) <==> record.binding.claimId != record.plan.claimId
    ensures ReviewClaimMismatch in Errors(record)
       <==> record.review.Some? && record.review.value.claimId != record.binding.claimId
    ensures IncompleteBinding in Errors(record)
       <==> HasFormalResult(record) && (|| !Given(record.binding.formalStatement) || !Given(record.binding.declaration)
                                        || !Given(record.binding.proofArtifactHash))
    ensures ReviewNotApproved in Errors(record)
       <==> HasFormalResult(record) && record.review.Some? && !Approved(record.review.value)
  {
    FormalsFound(record);
    OtherError(record, PlanClaimMismatch);
    OtherError(record, ReviewClaimMismatch);
    OtherError(record, IncompleteBinding);
    OtherError(record, ReviewNotApproved);
  }

  /** Where the errors come from that are not mismatches of a result. */
  lemma OtherError(record: ProofRecord, error: RecordError)
    requires !error.HashMismatch? && !error.DeclarationMismatch?
    ensures error in Errors(record)
       <==> || error in HeaderErrors(record)
            || (&& |FormalResults(record.results)| > 0
                && (|| (Incomplete(record.binding) && error == IncompleteBinding)
                    || (Unapproved(record.review) && error == ReviewNotApproved)))
  {
    var header := AddIf(HeaderErrors(record), Incomplete(record.binding), IncompleteBinding);
    MismatchesFound(header, record.binding, FormalResults(record.results), error);
  }

  /** A mismatch is reported exactly for the backends of formal results with another hash, or declaration. */
  lemma MismatchesNamed(record: ProofRecord, backend: string)
    ensures HashMismatch(backend) in Errors(record)
       <==> SomeFormal(record.results, backend, (r: CheckResult) => r.artifactHash != record.binding.proofArtifactHash)
    ensures DeclarationMismatch(backend) in Errors(record)
       <==> SomeFormal(record.results, backend, (r: CheckResult) => r.declaration != record.binding.declaration)
  {
    var header := AddIf(HeaderErrors(record), Incomplete(record.binding), IncompleteBinding);
    FormalsFound(record);
    MismatchesFound(header, record.binding, FormalResults(record.results), HashMismatch(backend));
    MismatchesFound(header, record.binding, FormalResults(record.results), DeclarationMismatch(backend));
  }

  predicate ConcreteIfFormal(r: CheckResult) {
    r.verdict.FormallyChecked? ==> Concrete(r.artifactHash)
  }

  lemma ResultEvidenceIs(b: Binding, results: seq<CheckResult>)
    requires ValidBinding(b)
    ensures ResultEvidence(b, results).Some? <==> forall k :: 0 <= k < |results| ==> ConcreteIfFormal(results[k])
    ensures ResultEvidence(b, results).Some? ==>
      var items := ResultEvidence(b, results).value;
      && |items| == |results|
      && forall k :: 0 <= k < |results| ==> items[k] == AsEvidence(results[k], b.claimId, Proposition(b))
  {
    forall k | 0 <= k < |results|
      ensures ToEvidence(results[k], b.claimId, Proposition(b)).Accepted? <==> ConcreteIfFormal(results[k])
      ensures ToEvidence(results[k], b.claimId, Proposition(b)).Accepted? ==>
        ToEvidence(results[k], b.claimId, Proposition(b)).evidence == AsEvidence(results[k], b.claimId, Proposition(b))
    {
      BecomesEvidenceIff(results[k], b.claimId, Proposition(b));
    }
  }

  /** Asking an error-free record for its level raises exactly when some formally checked result,
      of whatever kind, has no concrete artifact hash. */
  lemma LevelRaisesIff(record: ProofRecord)
    requires ValidBinding(record.binding)
    ensures AssuranceLevel(record).None?
       <==> (Errors(record) == [] && exists r :: r in record.results && !ConcreteIfFormal(r))
  {
    ResultEvidenceIs(record.binding, record.results);
    if r :| r in record.results && !ConcreteIfFormal(r) {
      var k :| 0 <= k < |record.results| && record.results[k] == r;
      assert !ConcreteIfFormal(record.results[k]);
    }
  }

  /** One such record: a computation marked as formally checked, without a hash. */
  lemma UnhashedComputationRaises(plan: VerificationPlan)
    requires plan.claimId == "c"
    ensures
      var b := Binding("c", "n", "s", None, None, None);
      var r := CheckResult("python", Computation, FormallyChecked, None, None, None, None, None, None, "");
      ValidBinding(b) && AssuranceLevel(ProofRecord(b, plan, None, [r], [])).None?
  {
    var b := Binding("c", "n", "s", None, None, None);
    var r := CheckResult("python", Computation, FormallyChecked, None, None, None, None, None, None, "");
    var record := ProofRecord(b, plan, None, [r], []);
    assert "c"[0] == 'c' && "n"[0] == 'n' && "s"[0] == 's';
    StripBlank("c");
    StripBlank("n");
    StripBlank("s");
    assert ValidBinding(b);
    ErrorFreeIff(record);
    LevelRaisesIff(record);
    assert r in record.results && !ConcreteIfFormal(r);
  }

  lemma ResultInEvidence(record: ProofRecord, r: CheckResult)
    requires ValidBinding(record.binding) && RecordEvidence(record).Some? && r in record.results
    ensures AsEvidence(r, record.binding.claimId, Proposition(record.binding)) in RecordEvidence(record).value
    ensures ConcreteIfFormal(r)
  {
    ResultEvidenceIs(record.binding, record.results);
    var k :| 0 <= k < |record.results| && record.results[k] == r;
    var items := ResultEvidence(record.binding, record.results).value;
    assert ConcreteIfFormal(record.results[k]);
    assert items[k] in RecordEvidence(record).value;
  }

  /** The artifact is either absent or the one the binding names. */
  predicate SameArtifact(b: Binding, hash: Option<string>) {
    Concrete(hash) ==> hash == b.proofArtifactHash
  }

  /** A scoped item is about the binding's claim, proposition and artifact. */
  predicate Carries(b: Binding, e: Evidence) {
    Scoped(e) ==>
      e.claimId == b.claimId && Some(e.proposition) == b.formalStatement && SameArtifact(b, e.artifactHash)
  }

  /** One identity runs through the whole record: plan, binding and review share the claim, every formal
      result carries the bound declaration and concrete artifact, and nothing in the record names
      another artifact, claim or proposition. */
  ghost predicate OneChain(record: ProofRecord) {
    && SameClaim(record) && FormalsBound(record) && Concrete(record.binding.proofArtifactHash)
    && (forall r :: r in record.results ==> ConcreteIfFormal(r) && SameArtifact(record.binding, r.artifactHash))
    && (forall e :: e in record.supplemental ==> Carries(record.binding, e))
  }

  predicate Rejects(verdict: TrustVerdict) {
    verdict.Rejected? || verdict.UnsafeToVerify?
  }

  ghost predicate NothingRejects(record: ProofRecord) {
    && (forall r :: r in record.results ==> !Rejects(r.verdict))
    && (forall e :: e in record.supplemental ==> !Rejects(e.verdict))
  }

  lemma LevelNeedsChain(record: ProofRecord)
    requires ValidBinding(record.binding) && HasFormalResult(record)
    requires AssuranceLevel(record).Some? && AssuranceLevel(record).value > 0
    ensures OneChain(record) && NothingRejects(record)
  {
    ErrorFreeIff(record);
    var b := record.binding;
    var items := RecordEvidence(record).value;
    LevelMeets(items, 1);
    var f :| f in record.results && FormalResult(f);
    ResultInEvidence(record, f);
    assert BoundTo(b, f);
    var formal := AsEvidence(f, b.claimId, Proposition(b));
    BecomesEvidenceIff(f, b.claimId, Proposition(b));
    forall r | r in record.results
      ensures ConcreteIfFormal(r) && SameArtifact(b, r.artifactHash) && !Rejects(r.verdict)
    {
      ResultInEvidence(record, r);
      OneIdentity(items, formal, AsEvidence(r, b.claimId, Proposition(b)));
      assert AsEvidence(r, b.claimId, Proposition(b)) in Elements(items);
    }
    forall e | e in record.supplemental
      ensures Carries(b, e) && !Rejects(e.verdict)
    {
      assert e in items && e in Elements(items);
      if Scoped(e) {
        OneIdentity(items, formal, e);
      }
    }
  }

  lemma ChainItem(record: ProofRecord, e: Evidence)
    requires ValidBinding(record.binding) && OneChain(record) && NothingRejects(record)
    requires RecordEvidence(record).Some? && e in RecordEvidence(record).value
    ensures Carries(record.binding, e) && !Rejects(e.verdict)
  {
    ResultEvidenceIs(record.binding, record.results);
    if e !in record.supplemental {
      var items := ResultEvidence(record.binding, record.results).value;
      var k :| 0 <= k < |items| && items[k] == e;
      assert record.results[k] in record.results;
    }
  }

  /** Items that carry one identity and do not reject are free of conflict. */
  lemma CarriedAgree(b: Binding, items: seq<Evidence>)
    requires forall e :: e in items ==> Carries(b, e) && !Rejects(e.verdict)
    ensures !Conflict(Elements(items))
  {
    forall a, d | a in items && d in items
      ensures !Disagree(a, d)
    {
      DisagreeIff(a, d);
    }
  }

  lemma ChainGivesLevel(record: ProofRecord)
    requires ValidBinding(record.binding) && HasFormalResult(record)
    requires OneChain(record) && NothingRejects(record)
    ensures AssuranceLevel(record).Some? && AssuranceLevel(record).value >= 2
  {
    ErrorFreeIff(record);
    ResultEvidenceIs(record.binding, record.results);
    assert forall k :: 0 <= k < |record.results| ==> record.results[k] in record.results;
    var items := RecordEvidence(record).value;
    forall e | e in items
      ensures Carries(record.binding, e) && !Rejects(e.verdict)
    {
      ChainItem(record, e);
    }
    CarriedAgree(record.binding, items);
    var f :| f in record.results && FormalResult(f);
    ResultInEvidence(record, f);
    assert HasFormal(Elements(items)) by {
      assert AsEvidence(f, record.binding.claimId, Proposition(record.binding)) in Elements(items);
    }
    LevelMeets(items, 2);
  }

  /** The identity chain: a record with a formal check is above D0 exactly when one identity runs through
      it and nothing rejects, and then it is formally checked at least. */
  lemma IdentityChain(record: ProofRecord)
    requires ValidBinding(record.binding) && HasFormalResult(record)
    ensures (AssuranceLevel(record).Some? && AssuranceLevel(record).value > 0)
       <==> (OneChain(record) && NothingRejects(record))
    ensures AssuranceLevel(record).Some? && AssuranceLevel(record).value > 0 ==> AssuranceLevel(record).value >= 2
  {
    if AssuranceLevel(record).Some? && AssuranceLevel(record).value > 0 {
      LevelNeedsChain(record);
      ChainGivesLevel(record);
    } else if OneChain(record) && NothingRejects(record) {
      ChainGivesLevel(record);
    }
  }

  // ----- The level of a record without supplemental evidence

  ghost predicate HasCheck(results: seq<CheckResult>, kind: CheckKind) {
    exists r :: r in results && r.kind == kind
  }

  /** A result for each of the four controls. */
  ghost predicate Controlled(results: seq<CheckResult>) {
    && HasCheck(results, Signature) && HasCheck(results, Environment)
    && HasCheck(results, AxiomAudit) && HasCheck(results, Provenance)
  }

  /** Two formally checked results from different targets in different groups. */
  ghost predicate CheckedTwice(results: seq<CheckResult>) {
    exists r, s :: && r in results && s in results && r.verdict.FormallyChecked? && s.verdict.FormallyChecked?
                   && (r.targetBackend != s.targetBackend || r.kind != s.kind)
                   && Differ(r.independentGroup, s.independentGroup)
  }

  ghost predicate CheckedInTwoFoundations(results: seq<CheckResult>) {
    exists r, s :: && r in results && s in results && r.verdict.FormallyChecked? && s.verdict.FormallyChecked?
                   && Differ(r.foundation, s.foundation)
  }

  /** The items are those of the results, one for one. */
  ghost predicate ItemsOf(b: Binding, results: seq<CheckResult>, items: seq<Evidence>) {
    && |items| == |results|
    && forall k :: 0 <= k < |items| ==> items[k] == AsEvidence(results[k], b.claimId, Proposition(b))
  }

  lemma OneNameEach(a: CheckKind, b: CheckKind)
    ensures KindName(a) == KindName(b) <==> a == b
  {
    if KindName(a) == KindName(b) {
      SourceIdDecodes("", a, "", b);
    }
  }

  lemma KindAmongItems(b: Binding, results: seq<CheckResult>, items: seq<Evidence>, kind: CheckKind)
    requires ItemsOf(b, results, items) && HasKind(Elements(items), KindName(kind))
    ensures HasCheck(results, kind)
  {
    var e :| e in Elements(items) && e.kind == KindName(kind);
    var k :| 0 <= k < |items| && items[k] == e;
    OneNameEach(results[k].kind, kind);
    assert results[k] in results;
  }

  lemma KindAmongResults(b: Binding, results: seq<CheckResult>, items: seq<Evidence>, kind: CheckKind)
    requires ItemsOf(b, results, items) && HasCheck(results, kind)
    ensures HasKind(Elements(items), KindName(kind))
  {
    var r :| r in results && r.kind == kind;
    var k :| 0 <= k < |results| && results[k] == r;
    assert items[k] in Elements(items);
  }

  lemma KindOfItems(b: Binding, results: seq<CheckResult>, items: seq<Evidence>, kind: CheckKind)
    requires ItemsOf(b, results, items)
    ensures HasKind(Elements(items), KindName(kind)) <==> HasCheck(results, kind)
  {
    if HasKind(Elements(items), KindName(kind)) {
      KindAmongItems(b, results, items, kind);
    }
    if HasCheck(results, kind) {
      KindAmongResults(b, results, items, kind);
    }
  }

  lemma ControlsOfItems(b: Binding, results: seq<CheckResult>, items: seq<Evidence>)
    requires ItemsOf(b, results, items)
    ensures Hardened(Elements(items)) <==> Controlled(results)
  {
    KindOfItems(b, results, items, Signature);
    KindOfItems(b, results, items, Environment);
    KindOfItems(b, results, items, AxiomAudit);
    KindOfItems(b, results, items, Provenance);
    assert KindName(Signature) == "signature" && KindName(Environment) == "environment";
    assert KindName(AxiomAudit) == "axiom_audit" && KindName(Provenance) == "provenance";
  }

  lemma IndependentItems(b: Binding, r: CheckResult, s: CheckResult)
    ensures Independent(AsEvidence(r, b.claimId, Proposition(b)), AsEvidence(s, b.claimId, Proposition(b)))
       <==> (r.targetBackend != s.targetBackend || r.kind != s.kind) && Differ(r.independentGroup, s.independentGroup)
  {
    if SourceId(r.targetBackend, r.kind) == SourceId(s.targetBackend, s.kind) {
      SourceIdDecodes(r.targetBackend, r.kind, s.targetBackend, s.kind);
    }
  }

  lemma PairsOfItems(b: Binding, results: seq<CheckResult>, items: seq<Evidence>)
    requires ItemsOf(b, results, items)
    ensures Rechecked(Elements(items)) <==> CheckedTwice(results)
    ensures CrossFoundation(Elements(items)) <==> CheckedInTwoFoundations(results)
  {
    forall i, j | 0 <= i < |items| && 0 <= j < |items|
      ensures Independent(items[i], items[j])
         <==> && (results[i].targetBackend != results[j].targetBackend || results[i].kind != results[j].kind)
              && Differ(results[i].independentGroup, results[j].independentGroup)
    {
      IndependentItems(b, results[i], results[j]);
    }
    forall e
      ensures e in Elements(items) <==> exists k :: 0 <= k < |items| && items[k] == e
    {
    }
    assert forall k :: 0 <= k < |results| ==> results[k] in results && items[k] in Elements(items);
  }

  /** Results alone earn at least D2 and at most D5: D3 exactly with all four controls, D4 exactly with a second
      formal check from another target in another group as well, D5 exactly when two foundations are among the
      formal checks as well. Human review never comes from a result. */
  lemma ResultsLevelIff(record: ProofRecord)
    requires ValidBinding(record.binding) && HasFormalResult(record) && record.supplemental == []
    requires OneChain(record) && NothingRejects(record)
    ensures AssuranceLevel(record).Some? && 2 <= AssuranceLevel(record).value <= 5
    ensures AssuranceLevel(record).value >= 3 <==> Controlled(record.results)
    ensures AssuranceLevel(record).value >= 4 <==> Controlled(record.results) && CheckedTwice(record.results)
    ensures AssuranceLevel(record).value >= 5
       <==> && Controlled(record.results) && CheckedTwice(record.results)
            && CheckedInTwoFoundations(record.results)
  {
    ChainGivesLevel(record);
    ErrorFreeIff(record);
    var b, items := record.binding, RecordEvidence(record).value;
    ResultEvidenceIs(b, record.results);
    assert ItemsOf(b, record.results, items);
    ControlsOfItems(b, record.results, items);
    PairsOfItems(b, record.results, items);
    NoHumanItem(b, record.results, items);
    LevelMeets(items, 1);
    LevelMeets(items, 2);
    LevelMeets(items, 3);
    LevelMeets(items, 4);
    LevelMeets(items, 5);
    LevelMeets(items, 6);
  }

  lemma NoHumanItem(b: Binding, results: seq<CheckResult>, items: seq<Evidence>)
    requires ValidBinding(b) && ItemsOf(b, results, items)
    ensures !HumanReviewed(Elements(items))
  {
  }

  predicate Earns(r: CheckResult) {
    r.verdict.FormallyChecked? || r.verdict.ComputationVerified?
  }

  ghost predicate NothingEarned(results: seq<CheckResult>) {
    forall r :: r in results ==> !Earns(r)
  }

  lemma UnearnedItems(b: Binding, results: seq<CheckResult>)
    requires ValidBinding(b) && ResultEvidence(b, results).Some? && NothingEarned(results)
    ensures DeriveAssurance(ResultEvidence(b, results).value) == 0
  {
    ResultEvidenceIs(b, results);
    var items := ResultEvidence(b, results).value;
    forall e | e in items
      ensures !IsFormal(e) && !e.verdict.ComputationVerified?
    {
      var k :| 0 <= k < |items| && items[k] == e;
      assert results[k] in results;
    }
    LevelMeets(items, 1);
  }

  /** Results without a formal or computational verdict earn nothing, whatever the plan asked for. */
  lemma NoAuthorityNoLevel(record: ProofRecord)
    requires ValidBinding(record.binding) && |record.supplemental| == 0
    requires NothingEarned(record.results)
    ensures AssuranceLevel(record) == Some(0)
  {
    ResultEvidenceIs(record.binding, record.results);
    assert forall k :: 0 <= k < |record.results| ==> record.results[k] in record.results;
    var items := ResultEvidence(record.binding, record.results).value;
    assert items + record.supplemental == items;
    UnearnedItems(record.binding, record.results);
  }
}
