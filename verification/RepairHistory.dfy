/** The whole history of a run of src/mvpc/hardening/repair_loop.py: what the patcher is given at each attempt, what
    the attempt leaves, and how the run ends. */
module RepairHistory {
  import opened Wrappers
  import opened ZoneGrammar
  import opened ZoneExtraction
  import opened LexicalZones
  import opened RepairLoop

  lemma ContainsIff(s: string, word: string)
    ensures Contains(s, word) <==> exists before, after :: s == before + word + after
  {
    if Contains(s, word) {
      var i :| 0 <= i <= |s| && HasAt(s, i, word);
      HasAtIsSlice(s, i, word);
      assert s == s[..i] + word + s[i + |word|..];
    }
    if before, after :| s == before + word + after {
      HasAtIsSlice(s, |before|, word);
      assert s[|before|..|before| + |word|] == word;
    }
  }

  /** The words that the loop looks for. */
  lemma Words()
    ensures BEGIN_BLOCK == "EVOLVE-BLOCK-BEGIN" && BEGIN_VALUE == "EVOLVE-VALUE-BEGIN" && EVOLVE_WORD == "EVOLVE"
  {
  }

  /** Why a proposal is turned down, if it is: with a block zone in the source, for what is wrong with it as an edit of
      zones; without EVOLVE text, for being a rewrite. */
  function Refusal(source: string, current: string, proposed: string): Option<Note> {
    if Contains(source, BEGIN_BLOCK) then
      match ApplyZonedEdit(current, proposed)
      case Accepted(_) => None
      case Refused(e) => Some(ZoneError(e))
    else if Contains(source, EVOLVE_WORD) || proposed == source then None
    else Some(RefusingRewrite)
  }

  /** The patcher is given the current source, the caller's trace or else the first finding's message, and the number
      of the attempt. */
  function Proposal(scan: Scanner, patch: Patcher, errorTrace: string, number: nat, current: string): string
    requires scan(current) != []
  {
    patch(current, if errorTrace == "" then scan(current)[0].message else errorTrace, number)
  }

  /** An admitted proposal is the next source, and accepted when it scans clean; another one is dropped with a note. */
  ghost predicate Settled(scan: Scanner, number: nat, current: string, proposed: string, refusal: Option<Note>,
                          a: Attempt, next: string) {
    match refusal
    case None =>
      && next == proposed
      && a == if scan(proposed) == [] then Attempt(number, true, NowClean)
              else Attempt(number, false, StillDirty(scan(proposed)))
    case Some(note) => next == current && a == Attempt(number, false, note)
  }

  /** An attempt finds a clean source, or settles what the patcher proposes. */
  ghost predicate Step(scan: Scanner, patch: Patcher, source: string, errorTrace: string, number: nat,
                       current: string, a: Attempt, next: string) {
    if scan(current) == [] then a == Attempt(number, true, AlreadyClean) && next == current
    else
      var proposed := Proposal(scan, patch, errorTrace, number, current);
      Settled(scan, number, current, proposed, Refusal(source, current, proposed), a, next)
  }

  type Relation = (int, string, Attempt, string) -> bool

  ghost function Steps(scan: Scanner, patch: Patcher, source: string, errorTrace: string): Relation {
    (number, current, a, next) => number >= 0 && Step(scan, patch, source, errorTrace, number, current, a, next)
  }

  predicate Ends(note: Note) {
    note.AlreadyClean? || note.NowClean? || note.RefusingRewrite?
  }

  /** How a run ends whose last attempt is the last of these. */
  function ReasonAfter(attempts: seq<Attempt>): StopReason {
    if attempts == [] then MaxDepth
    else
      match attempts[|attempts| - 1].note
      case AlreadyClean => Clean
      case NowClean => Repaired
      case RefusingRewrite => NoEvolveZones
      case _ => MaxDepth
  }

  /** One step after another from the first attempt number on; only the last can end the run early. */
  ghost predicate History(step: Relation, depth: int, first: nat, states: seq<string>, r: Outcome) {
    && |states| == |r.attempts| + 1
    && (forall k :: 0 <= k < |r.attempts| ==> step(first + k, states[k], r.attempts[k], states[k + 1]))
    && (forall k :: 0 <= k < |r.attempts| - 1 ==> !Ends(r.attempts[k].note))
    && r.finalSource == states[|r.attempts|]
    && r.reason == ReasonAfter(r.attempts) && (r.success <==> r.reason in {Clean, Repaired})
    && (r.attempts != [] ==> first + |r.attempts| <= depth + 1)
    && (r.reason == MaxDepth ==> first + |r.attempts| > depth)
  }

  /** What follows a decision. */
  lemma ConcludeSettles(scan: Scanner, i: nat, current: string, proposed: string, decision: Decision,
                        refusal: Option<Note>)
    requires refusal == match decision
                        case Keep => None
                        case Skip(e) => Some(ZoneError(e))
                        case GiveUp => Some(RefusingRewrite)
    ensures
      match Conclude(scan, i, current, proposed, decision)
      case Stop(r) =>
        && |r.attempts| == 1 && Ends(r.attempts[0].note)
        && Settled(scan, i, current, proposed, refusal, r.attempts[0], r.finalSource)
        && r.reason == ReasonAfter(r.attempts) && (r.success <==> r.reason in {Clean, Repaired})
      case Go(a, next) => Settled(scan, i, current, proposed, refusal, a, next) && !Ends(a.note)
  {
  }

  ghost predicate TurnSteps(step: Relation, i: nat, current: string, t: Turn) {
    match t
    case Stop(r) =>
      && |r.attempts| == 1 && Ends(r.attempts[0].note)
      && step(i, current, r.attempts[0], r.finalSource)
      && r.reason == ReasonAfter(r.attempts) && (r.success <==> r.reason in {Clean, Repaired})
    case Go(a, next) => step(i, current, a, next) && !Ends(a.note)
  }

  /** A relation that holds of everything settled with a decision holds of what follows from it. */
  lemma ConcludeSteps(step: Relation, scan: Scanner, i: nat, current: string, proposed: string, decision: Decision,
                      refusal: Option<Note>)
    requires refusal == match decision
                        case Keep => None
                        case Skip(e) => Some(ZoneError(e))
                        case GiveUp => Some(RefusingRewrite)
    requires forall a, next :: Settled(scan, i, current, proposed, refusal, a, next) ==> step(i, current, a, next)
    ensures TurnSteps(step, i, current, Conclude(scan, i, current, proposed, decision))
  {
    ConcludeSettles(scan, i, current, proposed, decision, refusal);
  }

  lemma SettledIsStep(scan: Scanner, patch: Patcher, source: string, errorTrace: string, i: nat, current: string,
                      proposed: string, refusal: Option<Note>)
    requires scan(current) != [] && proposed == Proposal(scan, patch, errorTrace, i, current)
    requires refusal == Refusal(source, current, proposed)
    ensures forall a, next :: Settled(scan, i, current, proposed, refusal, a, next) ==>
      Steps(scan, patch, source, errorTrace)(i, current, a, next)
  {
  }

  lemma TurnIsStep(scan: Scanner, patch: Patcher, source: string, errorTrace: string, i: nat, current: string)
    ensures TurnSteps(Steps(scan, patch, source, errorTrace), i, current,
                      TurnAt(scan, patch, source, errorTrace, i, current))
  {
    if scan(current) != [] {
      DirtyIsStep(scan, patch, source, errorTrace, i, current, Proposal(scan, patch, errorTrace, i, current));
    }
  }

  lemma DirtyIsStep(scan: Scanner, patch: Patcher, source: string, errorTrace: string, i: nat, current: string,
                    proposed: string)
    requires scan(current) != [] && proposed == Proposal(scan, patch, errorTrace, i, current)
    ensures TurnSteps(Steps(scan, patch, source, errorTrace), i, current,
                      Conclude(scan, i, current, proposed, Decide(source, current, proposed)))
  {
    var refusal := Refusal(source, current, proposed);
    SettledIsStep(scan, patch, source, errorTrace, i, current, proposed, refusal);
    GateRefuses(source, current, proposed);
    ConcludeSteps(Steps(scan, patch, source, errorTrace), scan, i, current, proposed,
                  Decide(source, current, proposed), refusal);
  }

  lemma GateRefuses(source: string, current: string, proposed: string)
    ensures Refusal(source, current, proposed)
         == match Decide(source, current, proposed)
            case Keep => None
            case Skip(e) => Some(ZoneError(e))
            case GiveUp => Some(RefusingRewrite)
  {
    if Contains(source, BEGIN_BLOCK) {
      match ApplyZonedEdit(current, proposed)
      case Accepted(_) => assert Decide(source, current, proposed) == Keep;
      case Refused(e) => assert Decide(source, current, proposed) == Skip(e);
    } else if Contains(source, EVOLVE_WORD) || proposed == source {
      assert Decide(source, current, proposed) == Keep;
    } else {
      assert Decide(source, current, proposed) == GiveUp;
    }
  }

  /** A step leaves one next source and one attempt. */
  lemma StepUnique(scan: Scanner, patch: Patcher, source: string, errorTrace: string, i: nat, current: string,
                   a: Attempt, next: string, t: Turn)
    requires Steps(scan, patch, source, errorTrace)(i, current, a, next)
    requires t == TurnAt(scan, patch, source, errorTrace, i, current)
    ensures
      match t
      case Stop(r) => [a] == r.attempts && next == r.finalSource
      case Go(b, after) => a == b && next == after
  {
    TurnIsStep(scan, patch, source, errorTrace, i, current);
    OneStep(scan, patch, source, errorTrace, i, current, a, next,
            if t.Stop? then t.outcome.attempts[0] else t.attempt, if t.Stop? then t.outcome.finalSource else t.next);
  }

  lemma OneSettled(scan: Scanner, number: nat, current: string, proposed: string, refusal: Option<Note>,
                   a: Attempt, next: string, b: Attempt, after: string)
    requires Settled(scan, number, current, proposed, refusal, a, next)
    requires Settled(scan, number, current, proposed, refusal, b, after)
    ensures a == b && next == after
  {
  }

  lemma OneStep(scan: Scanner, patch: Patcher, source: string, errorTrace: string, i: nat, current: string,
                a: Attempt, next: string, b: Attempt, after: string)
    requires Step(scan, patch, source, errorTrace, i, current, a, next)
    requires Step(scan, patch, source, errorTrace, i, current, b, after)
    ensures a == b && next == after
  {
    if scan(current) != [] {
      var proposed := Proposal(scan, patch, errorTrace, i, current);
      OneSettled(scan, i, current, proposed, Refusal(source, current, proposed), a, next, b, after);
    }
  }

  lemma LoopTurn(scan: Scanner, patch: Patcher, depth: int, source: string, errorTrace: string, i: nat,
                 current: string, t: Turn)
    requires i <= depth && t == TurnAt(scan, patch, source, errorTrace, i, current)
    ensures Loop(scan, patch, depth, source, errorTrace, i, current)
         == match t
            case Stop(r) => r
            case Go(a, next) => Record(a, Loop(scan, patch, depth, source, errorTrace, i + 1, next))
  {
  }

  lemma LoopEnds(scan: Scanner, patch: Patcher, depth: int, source: string, errorTrace: string, i: nat,
                 current: string)
    requires i > depth
    ensures Loop(scan, patch, depth, source, errorTrace, i, current) == Outcome(false, current, [], MaxDepth)
  {
  }

  lemma StopHistory(step: Relation, depth: int, i: nat, current: string, r: Outcome)
    requires i <= depth && TurnSteps(step, i, current, Stop(r))
    ensures History(step, depth, i, [current, r.finalSource], r)
  {
    forall k | 0 <= k < |r.attempts|
      ensures step(i + k, [current, r.finalSource][k], r.attempts[k], [current, r.finalSource][k + 1])
    {
    }
  }

  lemma {:induction false} LoopHistory(scan: Scanner, patch: Patcher, depth: int, source: string, errorTrace: string,
                                       i: nat, current: string) returns (states: seq<string>)
    ensures states != [] && states[0] == current
    ensures History(Steps(scan, patch, source, errorTrace), depth, i, states,
                    Loop(scan, patch, depth, source, errorTrace, i, current))
    decreases depth - i
  {
    var step := Steps(scan, patch, source, errorTrace);
    if i > depth {
      LoopEnds(scan, patch, depth, source, errorTrace, i, current);
      states := [current];
    } else {
      var t := TurnAt(scan, patch, source, errorTrace, i, current);
      TurnIsStep(scan, patch, source, errorTrace, i, current);
      LoopTurn(scan, patch, depth, source, errorTrace, i, current, t);
      if t.Stop? {
        StopHistory(step, depth, i, current, t.outcome);
        states := [current, t.outcome.finalSource];
      } else {
        var rest := LoopHistory(scan, patch, depth, source, errorTrace, i + 1, t.next);
        HistoryGoesOn(step, depth, i, current, t.attempt, rest,
                      Loop(scan, patch, depth, source, errorTrace, i + 1, t.next));
        states := [current] + rest;
      }
    }
  }

  lemma HistoryGoesOn(step: Relation, depth: int, i: nat, current: string, a: Attempt, states: seq<string>, r: Outcome)
    requires i <= depth && !Ends(a.note) && History(step, depth, i + 1, states, r)
    requires step(i, current, a, states[0])
    ensures History(step, depth, i, [current] + states, Record(a, r))
  {
    var all, attempts := [current] + states, Record(a, r).attempts;
    forall k | 0 <= k < |attempts|
      ensures step(i + k, all[k], attempts[k], all[k + 1])
    {
      if k > 0 {
        assert attempts[k] == r.attempts[k - 1] && all[k] == states[k - 1] && all[k + 1] == states[k];
        assert i + k == i + 1 + (k - 1);
      }
    }
  }

  /** A run that is not refused at once for its zones is a history from the source on. */
  lemma RepairIsHistory(scan: Scanner, patch: Patcher, depth: int, source: string, errorTrace: string)
      returns (states: seq<string>)
    ensures
      var zoned := Contains(source, BEGIN_BLOCK) || Contains(source, BEGIN_VALUE);
      var r := Repair(scan, patch, depth, source, errorTrace);
      if zoned && Validate(source).Some? then r == Outcome(false, source, [], InvalidZones(Validate(source).value))
      else
        && states != [] && states[0] == source
        && History(Steps(scan, patch, source, errorTrace), depth, 1, states, r)
  {
    states := LoopHistory(scan, patch, depth, source, errorTrace, 1, source);
  }

  lemma HistoryTail(step: Relation, depth: int, i: nat, states: seq<string>, r: Outcome)
    requires History(step, depth, i, states, r) && r.attempts != []
    ensures
      var rest := r.(attempts := r.attempts[1..]);
      && step(i, states[0], r.attempts[0], states[1]) && Record(r.attempts[0], rest) == r
      && (!Ends(r.attempts[0].note) ==> History(step, depth, i + 1, states[1..], rest))
  {
    var rest, tail := r.(attempts := r.attempts[1..]), states[1..];
    assert step(i + 0, states[0], r.attempts[0], states[0 + 1]);
    forall k | 0 <= k < |rest.attempts|
      ensures step(i + 1 + k, tail[k], rest.attempts[k], tail[k + 1])
    {
      assert step(i + (k + 1), states[k + 1], r.attempts[k + 1], states[k + 1 + 1]);
    }
  }

  /** Only the run itself has a history. */
  lemma {:induction false} HistoryUnique(scan: Scanner, patch: Patcher, depth: int, source: string, errorTrace: string,
                                         i: nat, states: seq<string>, r: Outcome)
    requires History(Steps(scan, patch, source, errorTrace), depth, i, states, r)
    ensures r == Loop(scan, patch, depth, source, errorTrace, i, states[0])
    decreases |r.attempts|
  {
    if r.attempts == [] {
      LoopEnds(scan, patch, depth, source, errorTrace, i, states[0]);
    } else {
      var t, rest := TurnAt(scan, patch, source, errorTrace, i, states[0]), r.(attempts := r.attempts[1..]);
      HistoryTail(Steps(scan, patch, source, errorTrace), depth, i, states, r);
      TurnIsStep(scan, patch, source, errorTrace, i, states[0]);
      StepUnique(scan, patch, source, errorTrace, i, states[0], r.attempts[0], states[1], t);
      LoopTurn(scan, patch, depth, source, errorTrace, i, states[0], t);
      if t.Go? {
        HistoryUnique(scan, patch, depth, source, errorTrace, i + 1, states[1..], rest);
      } else {
        OneOutcome(Steps(scan, patch, source, errorTrace), depth, i, states, r, t.outcome);
      }
    }
  }

  lemma OneOutcome(step: Relation, depth: int, i: nat, states: seq<string>, r: Outcome, other: Outcome)
    requires History(step, depth, i, states, r) && r.attempts != [] && TurnSteps(step, i, states[0], Stop(other))
    requires other.attempts == [r.attempts[0]] && other.finalSource == states[1]
    ensures r == other
  {
    EndsAtOnce(r.attempts);
    assert r.attempts == [r.attempts[0]];
  }

  lemma EndsAtOnce(attempts: seq<Attempt>)
    requires attempts != [] && Ends(attempts[0].note)
    requires forall k :: 0 <= k < |attempts| - 1 ==> !Ends(attempts[k].note)
    ensures |attempts| == 1
  {
  }

  // ----- Runs that make progress

  /** Each proposal is made on the one before it and is admitted. */
  ghost predicate Progress(scan: Scanner, patch: Patcher, source: string, errorTrace: string, first: nat,
                           s: seq<string>) {
    forall k :: 0 <= k < |s| - 1 ==>
      && scan(s[k]) != []
      && s[k + 1] == Proposal(scan, patch, errorTrace, first + k, s[k])
      && Refusal(source, s[k], s[k + 1]) == None
  }

  lemma AdmittedTurn(scan: Scanner, patch: Patcher, source: string, errorTrace: string, i: nat, current: string,
                     proposed: string)
    requires scan(current) != [] && proposed == Proposal(scan, patch, errorTrace, i, current)
    requires Refusal(source, current, proposed) == None
    ensures TurnAt(scan, patch, source, errorTrace, i, current)
         == if scan(proposed) == [] then Stop(Outcome(true, proposed, [Attempt(i, true, NowClean)], Repaired))
            else Go(Attempt(i, false, StillDirty(scan(proposed))), proposed)
  {
    GateRefuses(source, current, proposed);
    assert Decide(source, current, proposed) == Keep;
  }

  lemma ProgressTail(scan: Scanner, patch: Patcher, source: string, errorTrace: string, first: nat, s: seq<string>)
    requires |s| > 1 && Progress(scan, patch, source, errorTrace, first, s)
    ensures scan(s[0]) != [] && s[1] == Proposal(scan, patch, errorTrace, first, s[0])
    ensures Refusal(source, s[0], s[1]) == None
    ensures Progress(scan, patch, source, errorTrace, first + 1, s[1..]) && (|s| > 2 ==> scan(s[1]) != [])
  {
    assert s[0 + 1] == Proposal(scan, patch, errorTrace, first + 0, s[0]);
    forall k | 0 <= k < |s[1..]| - 1
      ensures
        && scan(s[1..][k]) != []
        && s[1..][k + 1] == Proposal(scan, patch, errorTrace, first + 1 + k, s[1..][k])
        && Refusal(source, s[1..][k], s[1..][k + 1]) == None
    {
      assert s[1..][k] == s[k + 1] && s[1..][k + 1] == s[k + 1 + 1] && first + 1 + k == first + (k + 1);
    }
  }

  /** The loop ends with the last of them: when it scans clean, or when the attempts are used up. */
  lemma {:induction false} LoopProgress(scan: Scanner, patch: Patcher, depth: int, source: string, errorTrace: string,
                                        first: nat, s: seq<string>)
    requires s != [] && first + |s| <= depth + 2 && Progress(scan, patch, source, errorTrace, first, s)
    requires if scan(s[|s| - 1]) == [] then |s| > 1 else first + |s| == depth + 2
    ensures
      var r := Loop(scan, patch, depth, source, errorTrace, first, s[0]);
      && r.finalSource == s[|s| - 1] && |r.attempts| == |s| - 1
      && r.reason == (if scan(s[|s| - 1]) == [] then Repaired else MaxDepth)
      && (r.success <==> scan(s[|s| - 1]) == [])
    decreases |s|
  {
    if |s| == 1 {
      LoopEnds(scan, patch, depth, source, errorTrace, first, s[0]);
    } else {
      var t := if scan(s[1]) == [] then Stop(Outcome(true, s[1], [Attempt(first, true, NowClean)], Repaired))
               else Go(Attempt(first, false, StillDirty(scan(s[1]))), s[1]);
      ProgressTail(scan, patch, source, errorTrace, first, s);
      AdmittedTurn(scan, patch, source, errorTrace, first, s[0], s[1]);
      LoopTurn(scan, patch, depth, source, errorTrace, first, s[0], t);
      if t.Go? {
        LoopProgress(scan, patch, depth, source, errorTrace, first + 1, s[1..]);
      }
    }
  }

  /** Proposals are made one on the other: if each passes the gate and the n-th is the first that scans clean, the run
      returns it after n attempts; if none does, it returns the last the depth allows. */
  lemma RepairProgress(scan: Scanner, patch: Patcher, depth: int, source: string, errorTrace: string, s: seq<string>)
    requires Contains(source, BEGIN_BLOCK) || Contains(source, BEGIN_VALUE) ==> Validate(source).None?
    requires s != [] && s[0] == source && |s| - 1 <= depth && Progress(scan, patch, source, errorTrace, 1, s)
    requires if scan(s[|s| - 1]) == [] then |s| > 1 else |s| - 1 == depth
    ensures
      var r := Repair(scan, patch, depth, source, errorTrace);
      && r.finalSource == s[|s| - 1] && |r.attempts| == |s| - 1
      && r.reason == (if scan(s[|s| - 1]) == [] then Repaired else MaxDepth)
      && (r.success <==> scan(s[|s| - 1]) == [])
  {
    Starts(scan, patch, depth, source, errorTrace);
    LoopProgress(scan, patch, depth, source, errorTrace, 1, s);
  }

  lemma Starts(scan: Scanner, patch: Patcher, depth: int, source: string, errorTrace: string)
    requires Contains(source, BEGIN_BLOCK) || Contains(source, BEGIN_VALUE) ==> Validate(source).None?
    ensures Repair(scan, patch, depth, source, errorTrace) == Loop(scan, patch, depth, source, errorTrace, 1, source)
  {
  }
}
