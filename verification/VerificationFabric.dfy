/** Running a plan against the registered adapters (src/mvpc/verification_fabric.py). */
module Fabric {
  import opened Wrappers
  import opened Text
  import opened Assurance
  import opened Planning
  import opened ProofRecords

  /** An adapter returns a result or raises. */
  datatype Outcome = Returned(result: CheckResult) | Raised(exception: string, message: string)

  type Adapter = (Target, Binding, Option<Review>) -> Outcome

  function InconclusiveResult(t: Target, path: Option<string>, message: string): CheckResult {
    CheckResult(t.backend, t.kind, Inconclusive, None, path, t.foundation, t.independentGroup,
                None, None, message)
  }

  const NO_ADAPTER := "Backend adapter unavailable; no verification authority asserted."
  const NO_ARTIFACT := "Target has no artifact path for adapter execution."

  function ResultFor(adapters: map<string, Adapter>, t: Target, b: Binding, review: Option<Review>): CheckResult {
    var key := Lower(t.backend);
    if key !in adapters then InconclusiveResult(t, t.artifactPath, NO_ADAPTER)
    else if t.artifactPath.None? then InconclusiveResult(t, None, NO_ARTIFACT)
    else
      match adapters[key](t, b, review)
      case Returned(result) => result
      case Raised(name, message) => InconclusiveResult(t, t.artifactPath, "Adapter error: " + name + ": " + message)
  }

  ghost predicate ResultsOf(results: seq<CheckResult>, adapters: map<string, Adapter>, targets: seq<Target>,
                            b: Binding, review: Option<Review>) {
    && |results| == |targets|
    && forall k :: 0 <= k < |targets| ==> results[k] == ResultFor(adapters, targets[k], b, review)
  }

  class VerificationFabric {
    var adapters: map<string, Adapter>

    constructor ()
      ensures adapters == map[]
    {
      adapters := map[];
    }

    /** False where the source raises for a blank name. */
    method Register(backend: string, adapter: Adapter) returns (ok: bool)
      modifies this
      ensures ok <==> Strip(backend) != ""
      ensures ok ==> adapters == old(adapters)[Lower(Strip(backend)) := adapter]
      ensures !ok ==> adapters == old(adapters)
    {
      var key := Lower(Strip(backend));
      if key == "" {
        return false;
      }
      adapters := adapters[key := adapter];
      ok := true;
    }

    /** `None` where the claim ids disagree; otherwise one result per target, in plan order. */
    method Verify(binding: Binding, plan: VerificationPlan,
                  review: Option<Review>) returns (record: Option<ProofRecord>)
      ensures record.Some?
         <==> binding.claimId == plan.claimId && (review.Some? ==> review.value.claimId == binding.claimId)
      ensures record.Some? ==>
        && record.value.binding == binding && record.value.plan == plan && record.value.review == review
        && record.value.supplemental == []
        && ResultsOf(record.value.results, adapters, plan.targets, binding, review)
    {
      if binding.claimId != plan.claimId {
        return None;
      }
      if review.Some? && review.value.claimId != binding.claimId {
        return None;
      }
      var results: seq<CheckResult> := [];
      for k := 0 to |plan.targets|
        invariant ResultsOf(results, adapters, plan.targets[..k], binding, review)
      {
        var t := plan.targets[k];
        var key := Lower(t.backend);
        if key !in adapters {
          results := results + [InconclusiveResult(t, t.artifactPath, NO_ADAPTER)];
          continue;
        }
        if t.artifactPath.None? {
          results := results + [InconclusiveResult(t, None, NO_ARTIFACT)];
          continue;
        }
        var outcome := adapters[key](t, binding, review);
        var result := match outcome
          case Returned(result) => result
          case Raised(name, message) =>
            InconclusiveResult(t, t.artifactPath, "Adapter error: " + name + ": " + message);
        results := results + [result];
      }
      record := Some(ProofRecord(binding, plan, review, results, []));
    }
  }

  /** What a target gets that no adapter answers: the reason, and no verdict. */
  lemma UnansweredResult(adapters: map<string, Adapter>, t: Target, b: Binding, review: Option<Review>)
    ensures
      var r := ResultFor(adapters, t, b, review);
      var reason :=
        if Lower(t.backend) !in adapters then Some("Backend adapter unavailable; no verification authority asserted.")
        else if t.artifactPath == None then Some("Target has no artifact path for adapter execution.")
        else
          match adapters[Lower(t.backend)](t, b, review)
          case Returned(_) => None
          case Raised(name, message) => Some("Adapter error: " + name + ": " + message);
      if reason.None? then AdapterGave(adapters, t, b, review, r)
      else
        && r.targetBackend == t.backend && r.kind == t.kind && r.verdict == Inconclusive && r.message == reason.value
        && r.artifactHash == None && r.artifactPath == t.artifactPath && r.foundation == t.foundation
        && r.independentGroup == t.independentGroup && r.declaration == None && r.environmentId == None
  {
  }

  /** The results answer their own targets: same backend and kind. */
  ghost predicate Answers(results: seq<CheckResult>, targets: seq<Target>) {
    && |results| == |targets|
    && forall k :: 0 <= k < |targets| ==>
      results[k].targetBackend == targets[k].backend && results[k].kind == targets[k].kind
  }

  /** What the adapter run for a target returns, if one is run and returns, is about that target. */
  ghost predicate AdapterAnswers(adapters: map<string, Adapter>, t: Target, b: Binding, review: Option<Review>) {
    Lower(t.backend) in adapters && t.artifactPath.Some? ==>
      var outcome := adapters[Lower(t.backend)](t, b, review);
      outcome.Returned? ==> outcome.result.targetBackend == t.backend && outcome.result.kind == t.kind
  }

  /** Nothing compares a returned result with its target. The results answer the plan's targets exactly when
      every adapter that is run answers its own. */
  lemma AnswersIff(results: seq<CheckResult>, adapters: map<string, Adapter>, targets: seq<Target>, b: Binding,
                   review: Option<Review>)
    requires ResultsOf(results, adapters, targets, b, review)
    ensures Answers(results, targets)
       <==> forall k :: 0 <= k < |targets| ==> AdapterAnswers(adapters, targets[k], b, review)
  {
    forall k | 0 <= k < |targets|
      ensures (results[k].targetBackend == targets[k].backend && results[k].kind == targets[k].kind)
         <==> AdapterAnswers(adapters, targets[k], b, review)
    {
      assert results[k] == ResultFor(adapters, targets[k], b, review);
    }
  }

  /** Two results count as one source exactly when they name one backend and kind, whatever targets they
      were for. */
  lemma SameSourceIff(r: CheckResult, s: CheckResult)
    ensures SourceId(r.targetBackend, r.kind) == SourceId(s.targetBackend, s.kind)
       <==> r.targetBackend == s.targetBackend && r.kind == s.kind
  {
    if SourceId(r.targetBackend, r.kind) == SourceId(s.targetBackend, s.kind) {
      SourceIdDecodes(r.targetBackend, r.kind, s.targetBackend, s.kind);
    }
  }

  /** When every adapter answers its target, a valid plan's results come from pairwise different sources. */
  lemma SourcesDistinct(results: seq<CheckResult>, adapters: map<string, Adapter>, targets: seq<Target>, b: Binding,
                        review: Option<Review>, i: nat, j: nat)
    requires ResultsOf(results, adapters, targets, b, review) && Distinct(targets) && i < j < |targets|
    requires forall k :: 0 <= k < |targets| ==> AdapterAnswers(adapters, targets[k], b, review)
    ensures SourceId(results[i].targetBackend, results[i].kind) != SourceId(results[j].targetBackend, results[j].kind)
  {
    AnswersIff(results, adapters, targets, b, review);
    assert Key(targets[i]) != Key(targets[j]);
    SameSourceIff(results[i], results[j]);
  }

  function FormalTarget(backend: string): Target {
    Target(backend, Formal, true, None, Some("proof"), None)
  }

  /** An adapter that answers every target with one result: two targets of a valid plan get one source, and
      one of them is not answered. */
  lemma ImpostorSharesSource(adapter: Adapter, r: CheckResult, b: Binding, review: Option<Review>,
                             results: seq<CheckResult>)
    requires forall t :: adapter(t, b, review) == Returned(r)
    requires ResultsOf(results, map["lean" := adapter, "coq" := adapter], [FormalTarget("lean"), FormalTarget("coq")],
                       b, review)
    ensures Distinct([FormalTarget("lean"), FormalTarget("coq")]) && results == [r, r]
    ensures !Answers(results, [FormalTarget("lean"), FormalTarget("coq")])
  {
    var targets := [FormalTarget("lean"), FormalTarget("coq")];
    assert |"lean"| == 4 && |"coq"| == 3;
    assert Lower("lean") == "lean" && Lower("coq") == "coq";
    assert targets[0] == FormalTarget("lean") && targets[1] == FormalTarget("coq");
    assert results[0] == r && results[1] == r;
  }

  /** The adapter that ran for a target gave its result this verdict. */
  ghost predicate AdapterGave(adapters: map<string, Adapter>, t: Target, b: Binding, review: Option<Review>,
                              r: CheckResult) {
    && Lower(t.backend) in adapters && t.artifactPath.Some?
    && adapters[Lower(t.backend)](t, b, review) == Returned(r)
  }

  lemma EarnedByAdapter(adapters: map<string, Adapter>, t: Target, b: Binding, review: Option<Review>)
    requires Earns(ResultFor(adapters, t, b, review))
    ensures AdapterGave(adapters, t, b, review, ResultFor(adapters, t, b, review))
  {
  }

  /** A level above D0 is always earned: some registered adapter, run on a target with an artifact,
      returned a formal or computational verdict. */
  lemma LevelIsEarned(record: ProofRecord, adapters: map<string, Adapter>, targets: seq<Target>)
    requires ValidBinding(record.binding) && |record.supplemental| == 0
    requires ResultsOf(record.results, adapters, targets, record.binding, record.review)
    requires AssuranceLevel(record) != Some(0)
    ensures exists k :: 0 <= k < |targets| && Earns(record.results[k])
                        && AdapterGave(adapters, targets[k], record.binding, record.review, record.results[k])
  {
    assert !NothingEarned(record.results) by {
      if NothingEarned(record.results) {
        NoAuthorityNoLevel(record);
      }
    }
    var r :| r in record.results && Earns(r);
    var k :| 0 <= k < |record.results| && record.results[k] == r;
    EarnedByAdapter(adapters, targets[k], record.binding, record.review);
  }

  /** What was just registered under a name is found under that name exactly when the name has no
      white space at its ends: registering strips the name, looking it up does not. */
  lemma FoundIff(adapters: map<string, Adapter>, backend: string, adapter: Adapter)
    requires Strip(backend) != "" && Lower(backend) !in adapters
    ensures Lower(backend) in adapters[Lower(Strip(backend)) := adapter] <==> Tight(backend)
  {
    StripKeepsTight(backend);
    assert |Lower(backend)| == |backend| && |Lower(Strip(backend))| == |Strip(backend)|;
  }

  /** A name with a space in front: registered, and not found under the same name. */
  lemma SpacedNameIsLost(adapter: Adapter)
    ensures Strip(" lean") != "" && Lower(" lean") !in map[Lower(Strip(" lean")) := adapter]
  {
    var adapters: map<string, Adapter> := map[];
    assert " lean"[1] == 'l' && !IsSpace('l');
    StripBlank(" lean");
    assert !Tight(" lean");
    FoundIff(adapters, " lean", adapter);
    assert adapters[Lower(Strip(" lean")) := adapter] == map[Lower(Strip(" lean")) := adapter];
  }
}
