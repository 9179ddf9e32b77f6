/** The bounded repair loop of src/mvpc/hardening/repair_loop.py. The scanner and the
    patcher are parameters; a patcher that keeps state of its own is still a function
    of the attempt number, because it is called once per attempt. What the loop
    promises is proved in modules of its own. */
module RepairLoop {
  import opened ZoneGrammar
  import opened ZoneSkeleton
  import opened ZoneExtraction
  import opened LexicalZones
  import opened ZoneValidity

  const EVOLVE_WORD := "EVOLVE"

  predicate Contains(s: string, word: string) {
    exists i | 0 <= i <= |s| :: HasAt(s, i, word)
  }

  datatype Finding = Finding(rule: string, message: string)

  type Scanner = string -> seq<Finding>

  /** The scan finds nothing. */
  predicate Scans(scan: Scanner, source: string) {
    |scan(source)| == 0
  }

  type Patcher = (string, string, nat) -> string

  datatype Note =
    | AlreadyClean | RefusingRewrite | ZoneError(error: Error) | NowClean | StillDirty(findings: seq<Finding>)

  datatype Attempt = Attempt(number: nat, accepted: bool, note: Note)

  datatype StopReason = InvalidZones(error: Error) | Clean | NoEvolveZones | Repaired | MaxDepth

  datatype Outcome = Outcome(success: bool, finalSource: string, attempts: seq<Attempt>, reason: StopReason)

  /** What the loop does with one proposal: keep it, refuse it and go on, or give up. */
  datatype Decision = Keep | Skip(error: Error) | GiveUp

  function Decide(source: string, current: string, proposed: string): Decision {
    if Contains(source, BEGIN_BLOCK) then
      match ApplyZonedEdit(current, proposed)
      case Accepted(_) => Keep
      case Refused(e) => Skip(e)
    else if proposed != source && !Contains(source, EVOLVE_WORD) then GiveUp
    else Keep
  }

  function Record(a: Attempt, rest: Outcome): Outcome {
    rest.(attempts := [a] + rest.attempts)
  }

  function Trace(scan: Scanner, errorTrace: string, current: string): string
    requires !Scans(scan, current)
  {
    if |errorTrace| > 0 then errorTrace else scan(current)[0].message
  }

  /** One attempt: the run ends, or the attempt is logged and the next source is set. */
  datatype Turn = Stop(outcome: Outcome) | Go(attempt: Attempt, next: string)

  function Conclude(scan: Scanner, i: nat, current: string, proposed: string, decision: Decision): Turn {
    match decision
    case Skip(e) => Go(Attempt(i, false, ZoneError(e)), current)
    case GiveUp => Stop(Outcome(false, current, [Attempt(i, false, RefusingRewrite)], NoEvolveZones))
    case Keep =>
      if Scans(scan, proposed) then Stop(Outcome(true, proposed, [Attempt(i, true, NowClean)], Repaired))
      else Go(Attempt(i, false, StillDirty(scan(proposed))), proposed)
  }

  function TurnAt(scan: Scanner, patch: Patcher, source: string, errorTrace: string, i: nat, current: string): Turn {
    if Scans(scan, current) then Stop(Outcome(true, current, [Attempt(i, true, AlreadyClean)], Clean))
    else
      var proposed := patch(current, Trace(scan, errorTrace, current), i);
      Conclude(scan, i, current, proposed, Decide(source, current, proposed))
  }

  /** The run from attempt `i` on. */
  function Loop(scan: Scanner, patch: Patcher, depth: int, source: string, errorTrace: string, i: nat,
                current: string): Outcome
    decreases depth - i
  {
    if i > depth then Outcome(false, current, [], MaxDepth)
    else
      match TurnAt(scan, patch, source, errorTrace, i, current)
      case Stop(r) => r
      case Go(a, next) => Record(a, Loop(scan, patch, depth, source, errorTrace, i + 1, next))
  }

  predicate Zoned(source: string) {
    Contains(source, BEGIN_BLOCK) || Contains(source, BEGIN_VALUE)
  }

  function Repair(scan: Scanner, patch: Patcher, depth: int, source: string, errorTrace: string): Outcome {
    if Zoned(source) && Validate(source).Some?
    then Outcome(false, source, [], InvalidZones(Validate(source).value))
    else Loop(scan, patch, depth, source, errorTrace, 1, source)
  }

  class RepairRunner {
    const scan: Scanner
    const patch: Patcher
    const maxDepth: int

    constructor (scan: Scanner, patch: Patcher, maxDepth: int)
      ensures this.scan == scan && this.patch == patch && this.maxDepth == maxDepth
    {
      this.scan, this.patch, this.maxDepth := scan, patch, maxDepth;
    }

    /** One attempt of the loop. */
    method TakeTurn(source: string, errorTrace: string, i: nat, current: string) returns (turn: Turn)
      ensures turn == TurnAt(scan, patch, source, errorTrace, i, current)
    {
      if Scans(scan, current) {
        return Stop(Outcome(true, current, [Attempt(i, true, AlreadyClean)], Clean));
      }
      var proposed := patch(current, Trace(scan, errorTrace, current), i);
      match Decide(source, current, proposed) {
        case GiveUp => turn := Stop(Outcome(false, current, [Attempt(i, false, RefusingRewrite)], NoEvolveZones));
        case Skip(e) => turn := Go(Attempt(i, false, ZoneError(e)), current);
        case Keep =>
          if Scans(scan, proposed) {
            turn := Stop(Outcome(true, proposed, [Attempt(i, true, NowClean)], Repaired));
          } else {
            turn := Go(Attempt(i, false, StillDirty(scan(proposed))), proposed);
          }
      }
    }

    method Run(source: string, errorTrace: string) returns (r: Outcome)
      ensures r == Repair(scan, patch, maxDepth, source, errorTrace)
    {
      if Zoned(source) && Validate(source).Some? {
        return Outcome(false, source, [], InvalidZones(Validate(source).value));
      }
      r := RunLoop(source, errorTrace);
    }

    method RunLoop(source: string, errorTrace: string) returns (r: Outcome)
      ensures r == Loop(scan, patch, maxDepth, source, errorTrace, 1, source)
    {
      var current := source;
      var attempts: seq<Attempt> := [];
      var i: nat := 1;
      while i <= maxDepth
        invariant Loop(scan, patch, maxDepth, source, errorTrace, 1, source)
               == After(attempts, Loop(scan, patch, maxDepth, source, errorTrace, i, current))
        decreases maxDepth - i
      {
        var turn := TakeTurn(source, errorTrace, i, current);
        match turn {
          case Stop(outcome) => return outcome.(attempts := attempts + outcome.attempts);
          case Go(a, next) =>
            AfterRecord(attempts, a, Loop(scan, patch, maxDepth, source, errorTrace, i + 1, next));
            attempts := attempts + [a];
            current := next;
        }
        i := i + 1;
      }
      r := Outcome(false, current, attempts, MaxDepth);
    }
  }

  ghost function After(attempts: seq<Attempt>, rest: Outcome): Outcome {
    rest.(attempts := attempts + rest.attempts)
  }

  lemma AfterRecord(attempts: seq<Attempt>, a: Attempt, rest: Outcome)
    ensures After(attempts, Record(a, rest)) == After(attempts + [a], rest)
  {
    assert attempts + ([a] + rest.attempts) == attempts + [a] + rest.attempts;
  }
}
