/** The edit zones of src/mvpc/core/lexical_zones.py, character by character: which sources are
    valid and which edits are accepted. */
module LexicalZones {
  import opened Wrappers
  import opened ZoneGrammar
  import opened ZoneSkeleton
  import opened ZoneExtraction

  const BEGIN_BLOCK := "EVOLVE-BLOCK-BEGIN"
  const END_BLOCK := "EVOLVE-BLOCK-END"
  const BEGIN_VALUE := "EVOLVE-VALUE-BEGIN"
  const END_VALUE := "EVOLVE-VALUE-END"

  const EVOLVE: Markers := MarkerTexts(BEGIN_BLOCK, BEGIN_VALUE, END_BLOCK, END_VALUE)

  // ----- Validity and acceptance

  /** Non-overlapping occurrences, counted from the left. */
  function Count(s: string, mark: string): nat
    requires mark != ""
    decreases |s|
  {
    if |s| < |mark| then 0
    else if HasAt(s, 0, mark) then 1 + Count(s[|mark|..], mark)
    else Count(s[1..], mark)
  }

  function Validate(s: string): Option<Error> {
    var e := MatchError(EVOLVE, Split(EVOLVE, s).segments);
    if e.Some? then e
    else if Count(s, BEGIN_BLOCK) != Count(s, END_BLOCK) then Some(UnbalancedBlock)
    else if Count(s, BEGIN_VALUE) != Count(s, END_VALUE) then Some(UnbalancedValue)
    else None
  }

  datatype Edit = Accepted(source: string) | Refused(error: Error)

  function ApplyZonedEdit(original: string, proposed: string): Edit {
    if Validate(original).Some? then Refused(Validate(original).value)
    else if Validate(proposed).Some? then Refused(Validate(proposed).value)
    else if Skeleton(EVOLVE, original) != Skeleton(EVOLVE, proposed) then Refused(TouchesFrozen)
    else Accepted(proposed)
  }

  // ----- The EVOLVE markers do not overlap

  /** "EV" starts at position `d`, or `x` ends on its "E". */
  predicate HeadAt(x: string, d: nat)
    requires d < |x|
  {
    x[d] == 'E' && (d + 1 < |x| ==> x[d + 1] == 'V')
  }

  lemma ApartByHead(x: string, y: string)
    requires |y| >= 2 && y[0] == 'E' && y[1] == 'V'
    requires forall d :: 0 < d < |x| ==> !HeadAt(x, d)
    ensures Apart(x, y)
  {
    forall d | 0 < d < |x| && |x| - d <= |y|
      ensures x[d..] != y[..|x| - d]
    {
      var u, v := x[d..], y[..|x| - d];
      assert !HeadAt(x, d);
      assert u[0] == x[d] && v[0] == y[0];
      assert d + 1 < |x| ==> u[1] == x[d + 1] && v[1] == y[1];
    }
  }

  lemma EvolveEndsApart()
    ensures EndsApart(EVOLVE) && |PLACEHOLDER| < EVOLVE.EndWidth()
  {
    forall x, y | x in {END_BLOCK, END_VALUE} && y in {END_BLOCK, END_VALUE}
      ensures Apart(x, y)
    {
      forall d | 0 < d < |x|
        ensures !HeadAt(x, d)
      {
      }
      ApartByHead(x, y);
    }
  }

  // ----- Main results

  /** Taking the skeleton twice is taking it once, and the skeleton holds exactly the frozen text
      and the kinds of the zones. */
  lemma SkeletonExact(s: string, t: string)
    ensures Skeleton(EVOLVE, Skeleton(EVOLVE, s)) == Skeleton(EVOLVE, s)
    ensures Skeleton(EVOLVE, s) == Skeleton(EVOLVE, t) <==> Frozen(Split(EVOLVE, s)) == Frozen(Split(EVOLVE, t))
  {
    EvolveEndsApart();
    SkeletonIdempotent(EVOLVE, s);
    SkeletonDeterminesFrozen(EVOLVE, s, t);
  }

  /** An edit is accepted exactly when both sources are valid and the proposal is the original
      with other zone bodies: the same number of zones, of the same kinds in the same order, and
      the same text before, between and behind them. */
  lemma AcceptedIff(original: string, proposed: string)
    ensures ApplyZonedEdit(original, proposed).Accepted? <==>
      && Validate(original).None? && Validate(proposed).None?
      && |Split(EVOLVE, original).segments| == |Split(EVOLVE, proposed).segments|
      && Split(EVOLVE, original).tail == Split(EVOLVE, proposed).tail
      && forall k :: 0 <= k < |Split(EVOLVE, original).segments| ==>
        var a, b := Split(EVOLVE, original).segments[k], Split(EVOLVE, proposed).segments[k];
        a.frozen == b.frozen && a.begin == b.begin && a.end == b.end
    ensures ApplyZonedEdit(original, proposed).Accepted? ==>
      && ApplyZonedEdit(original, proposed).source == proposed
      && |Bodies(Split(EVOLVE, proposed))| == |Split(EVOLVE, original).segments|
      && proposed == Write(WithBodies(Split(EVOLVE, original), Bodies(Split(EVOLVE, proposed))))
  {
    var a, b := Split(EVOLVE, original), Split(EVOLVE, proposed);
    EvolveEndsApart();
    SkeletonDeterminesFrozen(EVOLVE, original, proposed);
    if Frozen(a) == Frozen(b) {
      forall k | 0 <= k < |a.segments|
        ensures a.segments[k].frozen == b.segments[k].frozen
        ensures a.segments[k].begin == b.segments[k].begin && a.segments[k].end == b.segments[k].end
      {
        assert Frozen(a).segments[k] == Frozen(b).segments[k];
      }
      SplitLossless(EVOLVE, proposed);
      assert WithBodies(a, Bodies(b)) == b;
    }
    if |a.segments| == |b.segments| && a.tail == b.tail
       && forall k :: 0 <= k < |a.segments| ==>
         a.segments[k].frozen == b.segments[k].frozen && a.segments[k].begin == b.segments[k].begin
         && a.segments[k].end == b.segments[k].end {
      assert Frozen(a) == Frozen(b);
    }
  }

  /** Completeness: replacing the zone bodies by any texts free of end markers is accepted,
      whenever the outcome is valid at all, and changes nothing but the bodies. */
  lemma EditInsideZones(original: string, bodies: seq<string>)
    requires |bodies| == |Split(EVOLVE, original).segments|
    requires forall b :: b in bodies ==> forall k :: 0 <= k < |b| ==> !EndAt(EVOLVE, b, k)
    ensures
      var proposed := Write(WithBodies(Split(EVOLVE, original), bodies));
      && Split(EVOLVE, proposed) == WithBodies(Split(EVOLVE, original), bodies)
      && (ApplyZonedEdit(original, proposed) == Accepted(proposed) <==>
          Validate(original).None? && Validate(proposed).None?)
  {
    var l := WithBodies(Split(EVOLVE, original), bodies);
    EvolveEndsApart();
    SplitWithBodies(EVOLVE, original, bodies);
    SkeletonDeterminesFrozen(EVOLVE, original, Write(l));
    assert Frozen(l) == Frozen(Split(EVOLVE, original));
  }

  /** Acceptance is an equivalence on valid sources. */
  lemma AcceptanceIsEquivalence(a: string, b: string, c: string)
    ensures Validate(a).None? ==> ApplyZonedEdit(a, a) == Accepted(a)
    ensures ApplyZonedEdit(a, b).Accepted? ==> ApplyZonedEdit(b, a) == Accepted(a)
    ensures ApplyZonedEdit(a, b).Accepted? && ApplyZonedEdit(b, c).Accepted? ==> ApplyZonedEdit(a, c) == Accepted(c)
  {
  }
}
