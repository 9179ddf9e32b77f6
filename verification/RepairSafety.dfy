/** What every run of the repair loop of src/mvpc/hardening/repair_loop.py keeps, and when the frozen text
    is safe from every patcher. */
module RepairSafety {
  import opened ZoneGrammar
  import opened ZoneSkeleton
  import opened ZoneExtraction
  import opened LexicalZones
  import opened ZoneValidity
  import opened RepairLoop

  // ----- What every run keeps

  lemma AcceptedSkeleton(original: string, proposed: string)
    requires ApplyZonedEdit(original, proposed).Accepted?
    ensures Skeleton(EVOLVE, proposed) == Skeleton(EVOLVE, original)
  {
  }

  lemma KeepIsFrozen(source: string, current: string, proposed: string)
    requires Contains(source, BEGIN_BLOCK) && Decide(source, current, proposed).Keep?
    ensures Skeleton(EVOLVE, proposed) == Skeleton(EVOLVE, current)
  {
    AcceptedSkeleton(current, proposed);
  }

  lemma ConcludeKeepsFrozen(scan: Scanner, i: nat, current: string, proposed: string, decision: Decision)
    requires decision.Keep? ==> Skeleton(EVOLVE, proposed) == Skeleton(EVOLVE, current)
    ensures
      var t := Conclude(scan, i, current, proposed, decision);
      Skeleton(EVOLVE, if t.Stop? then t.outcome.finalSource else t.next) == Skeleton(EVOLVE, current)
  {
  }

  /** A source with a block marker: one attempt keeps the skeleton of the current source. */
  lemma TurnKeepsFrozen(scan: Scanner, patch: Patcher, source: string, errorTrace: string, i: nat, current: string)
    requires Contains(source, BEGIN_BLOCK)
    ensures
      var t := TurnAt(scan, patch, source, errorTrace, i, current);
      Skeleton(EVOLVE, if t.Stop? then t.outcome.finalSource else t.next) == Skeleton(EVOLVE, current)
  {
    if !Scans(scan, current) {
      var proposed := patch(current, Trace(scan, errorTrace, current), i);
      var decision := Decide(source, current, proposed);
      if decision.Keep? {
        KeepIsFrozen(source, current, proposed);
      }
      ConcludeKeepsFrozen(scan, i, current, proposed, decision);
    }
  }

  lemma {:induction false} LoopKeepsFrozen(scan: Scanner, patch: Patcher, depth: int, source: string,
                                           errorTrace: string, i: nat, current: string)
    requires Contains(source, BEGIN_BLOCK)
    ensures Skeleton(EVOLVE, Loop(scan, patch, depth, source, errorTrace, i, current).finalSource)
         == Skeleton(EVOLVE, current)
    decreases depth - i
  {
    if i <= depth {
      var t := TurnAt(scan, patch, source, errorTrace, i, current);
      TurnKeepsFrozen(scan, patch, source, errorTrace, i, current);
      if t.Go? {
        LoopKeepsFrozen(scan, patch, depth, source, errorTrace, i + 1, t.next);
      }
    }
  }

  /** Without any EVOLVE text the loop returns the source itself. */
  lemma {:induction false} LoopKeepsUnzoned(scan: Scanner, patch: Patcher, depth: int, source: string,
                                            errorTrace: string, i: nat)
    requires !Contains(source, BEGIN_BLOCK) && !Contains(source, EVOLVE_WORD)
    ensures Loop(scan, patch, depth, source, errorTrace, i, source).finalSource == source
    decreases depth - i
  {
    if i <= depth && TurnAt(scan, patch, source, errorTrace, i, source).Go? {
      LoopKeepsUnzoned(scan, patch, depth, source, errorTrace, i + 1);
    }
  }

  /** The log of a run: attempts are numbered from `i`, only the last can be accepted, and the run
      succeeds exactly when it is; then the returned source scans clean. */
  ghost predicate LogOk(scan: Scanner, depth: int, i: nat, r: Outcome) {
    && (forall k :: 0 <= k < |r.attempts| ==> r.attempts[k].number == i + k <= depth)
    && (forall k :: 0 <= k < |r.attempts| - 1 ==> !r.attempts[k].accepted)
    && (r.success <==> r.attempts != [] && r.attempts[|r.attempts| - 1].accepted)
    && (r.success ==> Scans(scan, r.finalSource))
    && (r.success <==> r.reason in {Clean, Repaired})
    && (r.reason == MaxDepth && i <= depth ==> |r.attempts| == depth - i + 1)
  }

  lemma TurnLog(scan: Scanner, patch: Patcher, depth: int, source: string, errorTrace: string, i: nat, current: string)
    requires i <= depth
    ensures
      match TurnAt(scan, patch, source, errorTrace, i, current)
      case Stop(r) => LogOk(scan, depth, i, r) && r.reason != MaxDepth
      case Go(a, _) => a.number == i && !a.accepted
  {
    if !Scans(scan, current) {
      var proposed := patch(current, Trace(scan, errorTrace, current), i);
      ConcludeLog(scan, depth, i, current, proposed, Decide(source, current, proposed));
    }
  }

  lemma ConcludeLog(scan: Scanner, depth: int, i: nat, current: string, proposed: string, decision: Decision)
    requires i <= depth
    ensures
      match Conclude(scan, i, current, proposed, decision)
      case Stop(r) => LogOk(scan, depth, i, r) && r.reason != MaxDepth
      case Go(a, _) => a.number == i && !a.accepted
  {
  }

  lemma {:induction false} LoopLog(scan: Scanner, patch: Patcher, depth: int, source: string, errorTrace: string,
                                   i: nat, current: string)
    ensures LogOk(scan, depth, i, Loop(scan, patch, depth, source, errorTrace, i, current))
    decreases depth - i
  {
    if i <= depth {
      var t := TurnAt(scan, patch, source, errorTrace, i, current);
      TurnLog(scan, patch, depth, source, errorTrace, i, current);
      if t.Go? {
        LoopLog(scan, patch, depth, source, errorTrace, i + 1, t.next);
        RecordLog(scan, depth, i, t.attempt, Loop(scan, patch, depth, source, errorTrace, i + 1, t.next));
      }
    }
  }

  lemma RecordLog(scan: Scanner, depth: int, i: nat, a: Attempt, rest: Outcome)
    requires a.number == i <= depth && !a.accepted && LogOk(scan, depth, i + 1, rest)
    requires i == depth && rest.reason == MaxDepth ==> rest.attempts == []
    ensures LogOk(scan, depth, i, Record(a, rest))
  {
    var all := Record(a, rest).attempts;
    assert forall k :: 1 <= k < |all| ==> all[k] == rest.attempts[k - 1];
  }

  lemma RepairLog(scan: Scanner, patch: Patcher, depth: int, source: string, errorTrace: string)
    ensures
      var r := Repair(scan, patch, depth, source, errorTrace);
      && |r.attempts| <= (if depth > 0 then depth else 0)
      && LogOk(scan, depth, 1, r)
  {
    LoopLog(scan, patch, depth, source, errorTrace, 1, source);
    var r := Repair(scan, patch, depth, source, errorTrace);
    if r.attempts != [] {
      assert r.attempts[|r.attempts| - 1].number == |r.attempts|;
    }
  }

  // ----- When the frozen text is safe

  /** The sources, depths and scans for which no patcher can change frozen text. */
  predicate Guarded(scan: Scanner, depth: int, source: string) {
    || Contains(source, BEGIN_BLOCK)
    || !Contains(source, EVOLVE_WORD)
    || depth <= 0
    || Scans(scan, source)
    || (Zoned(source) && Validate(source).Some?)
  }

  lemma GuardedKeepsFrozen(scan: Scanner, patch: Patcher, depth: int, source: string,
                           errorTrace: string)
    requires Guarded(scan, depth, source)
    ensures Skeleton(EVOLVE, Repair(scan, patch, depth, source, errorTrace).finalSource) == Skeleton(EVOLVE, source)
  {
    if Contains(source, BEGIN_BLOCK) {
      LoopKeepsFrozen(scan, patch, depth, source, errorTrace, 1, source);
    } else if !Contains(source, EVOLVE_WORD) {
      LoopKeepsUnzoned(scan, patch, depth, source, errorTrace, 1);
    }
  }

  /** Outside the guarded cases a patcher that empties the source gets its way. */
  lemma {:induction false} EraserWins(scan: Scanner, depth: int, source: string, errorTrace: string, i: nat)
    requires !Contains(source, BEGIN_BLOCK) && Contains(source, EVOLVE_WORD)
    ensures Loop(scan, (c, t, k) => "", depth, source, errorTrace, i, "").finalSource == ""
    decreases depth - i
  {
    if i <= depth && !Scans(scan, "") {
      EraserWins(scan, depth, source, errorTrace, i + 1);
    }
  }

  lemma SkeletonEmpty(source: string)
    ensures Skeleton(EVOLVE, source) == "" <==> source == ""
  {
    var l := Split(EVOLVE, source);
    SplitLossless(EVOLVE, source);
    SplitCanonical(EVOLVE, source);
    if l.segments != [] {
      assert SegmentOk(EVOLVE, l.segments[0]);
      assert |WriteSegment(Frozen(l).segments[0])| > 0;
      assert |WriteSegment(l.segments[0])| > 0;
    }
  }

  lemma UnguardedIsErased(scan: Scanner, depth: int, source: string, errorTrace: string)
    requires !Guarded(scan, depth, source)
    ensures
      var r := Repair(scan, (c, t, k) => "", depth, source, errorTrace);
      Skeleton(EVOLVE, r.finalSource) != Skeleton(EVOLVE, source)
  {
    EraserWins(scan, depth, source, errorTrace, 2);
    SkeletonEmpty(source);
    SkeletonEmpty("");
    var i :| 0 <= i <= |source| && HasAt(source, i, EVOLVE_WORD);
    assert source != "";
  }

  /** The loop protects the frozen text against every patcher exactly in the guarded cases. A
      source with EVOLVE text but no block marker, such as one with value zones only, is not
      among them: its proposals go through no zone check at all. */
  lemma FrozenSafeIff(scan: Scanner, depth: int, source: string, errorTrace: string)
    ensures Guarded(scan, depth, source) <==>
      forall patch: Patcher ::
        Skeleton(EVOLVE, Repair(scan, patch, depth, source, errorTrace).finalSource) == Skeleton(EVOLVE, source)
  {
    if Guarded(scan, depth, source) {
      forall patch: Patcher {
        GuardedKeepsFrozen(scan, patch, depth, source, errorTrace);
      }
    } else {
      UnguardedIsErased(scan, depth, source, errorTrace);
    }
  }

  /** One such source: a valid one whose only zone is a value zone, when the scan finds something in it. */
  lemma ValueZoneIsErased(scan: Scanner, depth: int, errorTrace: string)
    requires depth > 0 && !Scans(scan, VALUE_ZONE_SOURCE)
    ensures Validate(VALUE_ZONE_SOURCE).None?
    ensures
      var r := Repair(scan, (c, t, k) => "", depth, VALUE_ZONE_SOURCE, errorTrace);
      Skeleton(EVOLVE, r.finalSource) != Skeleton(EVOLVE, VALUE_ZONE_SOURCE)
  {
    ValueZoneIsValid();
    forall i: nat
      ensures !HasAt(VALUE_ZONE_SOURCE, i, BEGIN_BLOCK)
    {
      ValueZoneHasNoBlock(i);
    }
    HoldsWord();
    UnguardedIsErased(scan, depth, VALUE_ZONE_SOURCE, errorTrace);
  }

  lemma HoldsWord()
    ensures Contains(VALUE_ZONE_SOURCE, EVOLVE_WORD)
  {
    HasAtIsSlice(VALUE_ZONE_SOURCE, 0, EVOLVE_WORD);
    assert VALUE_ZONE_SOURCE[0..|EVOLVE_WORD|] == EVOLVE_WORD;
  }
}
