/** Verification targets, their results, and the plan that lists them (src/mvpc/verification_plan.py). */
module Planning {
  import opened Wrappers
  import opened Text
  import opened Assurance

  datatype CheckKind =
    | Formal | Computation | Execution | Provenance | Environment | AxiomAudit | Signature | HumanReview

  function KindName(kind: CheckKind): (name: string)
    ensures name != "" && ':' !in name
  {
    match kind
    case Formal => "formal"
    case Computation => "computation"
    case Execution => "execution"
    case Provenance => "provenance"
    case Environment => "environment"
    case AxiomAudit => "axiom_audit"
    case Signature => "signature"
    case HumanReview => "human_review"
  }

  datatype Target = Target(backend: string, kind: CheckKind, required: bool, independentGroup: Option<string>,
                           artifactPath: Option<string>, foundation: Option<string>)

  datatype CheckResult = CheckResult(
    targetBackend: string, kind: CheckKind, verdict: TrustVerdict, artifactHash: Option<string>,
    artifactPath: Option<string>, foundation: Option<string>, independentGroup: Option<string>,
    declaration: Option<string>, environmentId: Option<string>, message: string)

  function SourceId(backend: string, kind: CheckKind): string {
    backend + ":" + KindName(kind)
  }

  function AsEvidence(r: CheckResult, claimId: string, proposition: string): Evidence {
    Evidence(SourceId(r.targetBackend, r.kind), KindName(r.kind), r.verdict, r.foundation, r.independentGroup,
             claimId, proposition, {}, r.environmentId, r.artifactHash, r.declaration, None, Some(r.message))
  }

  function ToEvidence(r: CheckResult, claimId: string, proposition: string): Construction {
    Construct(AsEvidence(r, claimId, proposition))
  }

  /** A result of a claim becomes evidence unless it is formal without a concrete artifact hash. */
  lemma BecomesEvidenceIff(r: CheckResult, claimId: string, proposition: string)
    requires claimId != "" && proposition != ""
    ensures ToEvidence(r, claimId, proposition).Accepted?
       <==> (r.verdict.FormallyChecked? ==> Concrete(r.artifactHash))
    ensures ToEvidence(r, claimId, proposition).Accepted? ==>
      var e := ToEvidence(r, claimId, proposition).evidence;
      && e == AsEvidence(r, claimId, proposition) && e.sourceId == r.targetBackend + ":" + e.kind
      && e.claimId == claimId && e.proposition == proposition && e.independentFrom == {} && e.humanReviewScope == None
      && e.verdict == r.verdict && e.artifactHash == r.artifactHash && e.declaration == r.declaration
      && e.foundation == r.foundation && e.independenceGroup == r.independentGroup
      && e.environmentId == r.environmentId && e.notes == Some(r.message)
  {
    var name := KindName(r.kind);
    var source := SourceId(r.targetBackend, r.kind);
    StripBlank(source);
    StripBlank(name);
    assert !IsSpace(source[|r.targetBackend|]);
    assert !IsSpace(name[0]);
  }

  lemma ColonNoLater(a: string, s: string, b: string, t: string)
    requires a + ":" + s == b + ":" + t && ':' !in s
    ensures |b| <= |a|
  {
    var whole := a + ":" + s;
    assert whole == b + ":" + t;
    assert whole[|b|] == ':';
    assert forall k :: |a| < k < |whole| ==> whole[k] in s;
  }

  lemma LastColonSplits(a: string, s: string, b: string, t: string)
    requires a + ":" + s == b + ":" + t && ':' !in s && ':' !in t
    ensures a == b && s == t
  {
    ColonNoLater(a, s, b, t);
    ColonNoLater(b, t, a, s);
    var whole := a + ":" + s;
    assert a == whole[..|a|] && b == whole[..|b|];
    assert s == whole[|a| + 1..] && t == whole[|b| + 1..];
  }

  /** A source id names one backend and one kind, whatever colons the backend name holds. */
  lemma SourceIdDecodes(a: string, ka: CheckKind, b: string, kb: CheckKind)
    requires SourceId(a, ka) == SourceId(b, kb)
    ensures a == b && ka == kb
  {
    LastColonSplits(a, KindName(ka), b, KindName(kb));
  }

  /** The text a kind of check has in evidence. */
  lemma KindsNamed(r: CheckResult, claimId: string, proposition: string)
    ensures AsEvidence(r, claimId, proposition).kind
         == map[Formal := "formal", Computation := "computation", Execution := "execution",
                Provenance := "provenance", Environment := "environment", AxiomAudit := "axiom_audit",
                Signature := "signature", HumanReview := "human_review"][r.kind]
  {
  }

  function Key(t: Target): (string, CheckKind) {
    (t.backend, t.kind)
  }

  /** No two targets share backend and kind. */
  ghost predicate Distinct(targets: seq<Target>) {
    forall i, j :: 0 <= i < j < |targets| ==> Key(targets[i]) != Key(targets[j])
  }

  class VerificationPlan {
    const claimId: string
    var targets: seq<Target>

    constructor (claimId: string, targets: seq<Target>)
      ensures this.claimId == claimId && this.targets == targets
    {
      this.claimId, this.targets := claimId, targets;
    }

    /** False where the source raises for a duplicate. */
    method ValidateTargets() returns (ok: bool)
      ensures ok <==> Distinct(targets)
    {
      var seen: set<(string, CheckKind)> := {};
      for k := 0 to |targets|
        invariant Distinct(targets[..k])
        invariant seen == set t | t in targets[..k] :: Key(t)
      {
        var key := Key(targets[k]);
        if key in seen {
          assert exists i :: 0 <= i < k && Key(targets[i]) == key;
          return false;
        }
        seen := seen + {key};
        assert targets[..k + 1] == targets[..k] + [targets[k]];
      }
      assert targets[..|targets|] == targets;
      ok := true;
    }

    /** The target is appended before the check, so it stays even when the check fails. */
    method Add(target: Target) returns (ok: bool)
      modifies this
      ensures targets == old(targets) + [target]
      ensures ok <==> Distinct(targets)
    {
      targets := targets + [target];
      ok := ValidateTargets();
    }
  }

  /** Building a plan; `None` where it raises. */
  method MakePlan(claimId: string, targets: seq<Target>) returns (plan: Option<VerificationPlan>)
    ensures plan.Some? <==> Strip(claimId) != "" && Distinct(targets)
    ensures plan.Some? ==> fresh(plan.value) && plan.value.claimId == claimId && plan.value.targets == targets
  {
    if Strip(claimId) == "" {
      return None;
    }
    var p := new VerificationPlan(claimId, targets);
    var ok := p.ValidateTargets();
    plan := if ok then Some(p) else None;
  }

  /** A valid plan accepts a target exactly when its key is new; a plan with a duplicate accepts none. */
  lemma AddAcceptsNewKeys(targets: seq<Target>, target: Target)
    ensures Distinct(targets + [target])
       <==> Distinct(targets) && forall k :: 0 <= k < |targets| ==> Key(targets[k]) != Key(target)
  {
    var longer := targets + [target];
    assert forall k :: 0 <= k < |targets| ==> longer[k] == targets[k];
    assert longer[|targets|] == target;
  }
}
