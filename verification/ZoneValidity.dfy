/** When an edit of zone bodies leaves a source valid: what counting the markers of
    src/mvpc/core/lexical_zones.py finds in a text written from its zones. Markers
    neither overlap nor cross the end of another marker, so that a text is counted
    piece by piece. */
module ZoneValidity {
  import opened Wrappers
  import opened ZoneGrammar
  import opened ZoneSkeleton
  import opened ZoneExtraction
  import opened LexicalZones

  /** What the four marker texts have in common: they begin with "EV", which no marker holds further on,
      and a begin marker parts from an end marker at position 13. */
  ghost predicate Shaped(x: string) {
    && |x| in {16, 18} && x[0] == 'E' && x[1] == 'V' && x[13] == (if |x| == 18 then 'B' else 'E')
    && forall d :: 0 < d < |x| ==> !HeadAt(x, d)
  }

  lemma MarksShaped(x: string)
    requires x in {BEGIN_BLOCK, END_BLOCK, BEGIN_VALUE, END_VALUE}
    ensures Shaped(x)
  {
    forall d | 0 < d < |x|
      ensures !HeadAt(x, d)
    {
    }
  }

  lemma HasAtReads(s: string, i: nat, mark: string, d: nat)
    requires HasAt(s, i, mark) && d < |mark|
    ensures i + |mark| <= |s| && s[i + d] == mark[d]
  {
    HasAtIsSlice(s, i, mark);
    assert s[i..i + |mark|][d] == s[i + d];
  }

  lemma HasAtShifts(s: string, k: nat, i: nat, mark: string)
    requires k <= |s|
    ensures HasAt(s[k..], i, mark) <==> HasAt(s, k + i, mark)
  {
    HasAtIsSlice(s[k..], i, mark);
    HasAtIsSlice(s, k + i, mark);
    if k + i + |mark| <= |s| {
      assert s[k..][i..i + |mark|] == s[k + i..k + i + |mark|];
    }
  }

  lemma HasAtFront(a: string, b: string, i: nat, mark: string)
    requires i + |mark| <= |a|
    ensures HasAt(a + b, i, mark) <==> HasAt(a, i, mark)
  {
    HasAtIsSlice(a + b, i, mark);
    HasAtIsSlice(a, i, mark);
    assert (a + b)[i..i + |mark|] == a[i..i + |mark|];
  }

  /** No occurrence starts in `a` and ends in `b`. */
  ghost predicate NoCrossing(a: string, b: string, mark: string) {
    forall i :: 0 <= i < |a| && HasAt(a + b, i, mark) ==> i + |mark| <= |a|
  }

  lemma NoCrossingTail(a: string, b: string, mark: string, k: nat)
    requires NoCrossing(a, b, mark) && k <= |a|
    ensures NoCrossing(a[k..], b, mark)
  {
    assert a[k..] + b == (a + b)[k..];
    forall i | 0 <= i < |a[k..]| && HasAt(a[k..] + b, i, mark)
      ensures i + |mark| <= |a[k..]|
    {
      HasAtShifts(a + b, k, i, mark);
    }
  }

  lemma {:induction false} CountAppend(a: string, b: string, mark: string)
    requires mark != "" && NoCrossing(a, b, mark)
    ensures Count(a + b, mark) == Count(a, mark) + Count(b, mark)
    decreases |a|
  {
    if |a| == 0 {
      assert a + b == b;
    } else if HasAt(a + b, 0, mark) {
      HasAtFront(a, b, 0, mark);
      NoCrossingTail(a, b, mark, |mark|);
      assert (a + b)[|mark|..] == a[|mark|..] + b;
      CountAppend(a[|mark|..], b, mark);
    } else {
      NoCrossingTail(a, b, mark, 1);
      assert (a + b)[1..] == a[1..] + b;
      if |a| >= |mark| {
        HasAtFront(a, b, 0, mark);
      }
      CountAppend(a[1..], b, mark);
    }
  }

  lemma NothingCrossesInto(a: string, x: string, b: string, mark: string)
    requires Shaped(x) && Shaped(mark)
    ensures NoCrossing(a, x + b, mark)
  {
    var whole := a + (x + b);
    assert whole[|a|] == 'E' && whole[|a| + 1] == 'V';
    forall i | 0 <= i < |a| && HasAt(whole, i, mark)
      ensures i + |mark| <= |a|
    {
      var d := |a| - i;
      if d < |mark| {
        HasAtReads(whole, i, mark, d);
        if d + 1 < |mark| {
          HasAtReads(whole, i, mark, d + 1);
        }
        assert HeadAt(mark, d);
      }
    }
  }

  lemma NothingCrossesOut(x: string, b: string, mark: string)
    requires Shaped(x) && Shaped(mark)
    ensures NoCrossing(x, b, mark)
  {
    var whole := x + b;
    forall i | 0 <= i < |x| && HasAt(whole, i, mark)
      ensures i + |mark| <= |x|
    {
      HasAtReads(whole, i, mark, 0);
      HasAtReads(whole, i, mark, 1);
      HasAtReads(whole, i, mark, 13);
      if i > 0 {
        assert HeadAt(x, i);
      }
    }
  }

  /** Around a marker occurrences are counted apart. */
  lemma CountAround(a: string, x: string, b: string, mark: string)
    requires Shaped(x) && Shaped(mark)
    ensures Count(a + (x + b), mark) == Count(a, mark) + Count(x, mark) + Count(b, mark)
  {
    NothingCrossesInto(a, x, b, mark);
    CountAppend(a, x + b, mark);
    NothingCrossesOut(x, b, mark);
    CountAppend(x, b, mark);
  }

  /** The occurrences inside the bodies. */
  function CountInBodies(bodies: seq<string>, mark: string): nat
    requires mark != ""
  {
    if |bodies| == 0 then 0 else Count(bodies[0], mark) + CountInBodies(bodies[1..], mark)
  }

  ghost predicate Marked(l: Layout) {
    forall k :: 0 <= k < |l.segments| ==> Shaped(l.segments[k].begin) && Shaped(l.segments[k].end)
  }

  lemma CountSegment(g: Segment, rest: string, mark: string)
    requires Shaped(g.begin) && Shaped(g.end) && Shaped(mark)
    ensures Count(WriteSegment(g) + rest, mark)
         == Count(g.frozen, mark) + Count(g.begin, mark) + Count(g.body, mark) + Count(g.end, mark) + Count(rest, mark)
  {
    var behind := g.body + (g.end + rest);
    assert WriteSegment(g) + rest == g.frozen + (g.begin + behind);
    CountAround(g.frozen, g.begin, behind, mark);
    CountAround(g.body, g.end, rest, mark);
  }

  /** Whatever the bodies, a layout holds its bodies' occurrences and a number that does not depend on them. */
  lemma {:induction false} CountDiffers(l: Layout, bodies: seq<string>, mark: string)
    requires Marked(l) && |bodies| == |l.segments| && Shaped(mark)
    ensures Count(Write(WithBodies(l, bodies)), mark) + CountInBodies(Bodies(l), mark)
         == Count(Write(l), mark) + CountInBodies(bodies, mark)
    decreases |bodies|
  {
    if |bodies| > 0 {
      var rest := Layout(l.segments[1..], l.tail);
      var other := WithBodies(l, bodies);
      CountDiffers(rest, bodies[1..], mark);
      assert Layout(other.segments[1..], other.tail) == WithBodies(rest, bodies[1..]);
      assert Bodies(l)[1..] == Bodies(rest);
      CountSegment(l.segments[0], Write(rest), mark);
      CountSegment(other.segments[0], Write(WithBodies(rest, bodies[1..])), mark);
    }
  }

  ghost predicate Lacks(s: string, mark: string) {
    forall i :: 0 <= i < |s| ==> !HasAt(s, i, mark)
  }

  lemma {:induction false} CountNone(s: string, mark: string)
    requires mark != "" && Lacks(s, mark)
    ensures Count(s, mark) == 0
    decreases |s|
  {
    if |s| >= |mark| {
      forall i | 0 <= i < |s[1..]|
        ensures !HasAt(s[1..], i, mark)
      {
        HasAtShifts(s, 1, i, mark);
      }
      CountNone(s[1..], mark);
    }
  }

  ghost predicate EndFree(bodies: seq<string>) {
    forall b :: b in bodies ==> forall k :: 0 <= k < |b| ==> !EndAt(EVOLVE, b, k)
  }

  lemma {:induction false} FreeCounts(bodies: seq<string>, mark: string)
    requires mark != "" && forall b :: b in bodies ==> Lacks(b, mark)
    ensures CountInBodies(bodies, mark) == 0
  {
    if |bodies| > 0 {
      assert bodies[0] in bodies;
      CountNone(bodies[0], mark);
      FreeCounts(bodies[1..], mark);
    }
  }

  lemma MarkerFreeCounts(m: Markers, bodies: seq<string>)
    requires forall b :: b in bodies ==> forall k :: 0 <= k < |b| ==> !EndAt(m, b, k)
    ensures CountInBodies(bodies, m.endBlock) == 0 && CountInBodies(bodies, m.endValue) == 0
  {
    forall b | b in bodies
      ensures Lacks(b, m.endBlock) && Lacks(b, m.endValue)
    {
      forall k | 0 <= k < |b|
        ensures !HasAt(b, k, m.endBlock) && !HasAt(b, k, m.endValue)
      {
        assert !EndAt(m, b, k);
      }
    }
    FreeCounts(bodies, m.endBlock);
    FreeCounts(bodies, m.endValue);
  }

  lemma EndFreeCounts(bodies: seq<string>)
    requires EndFree(bodies)
    ensures CountInBodies(bodies, END_BLOCK) == 0 && CountInBodies(bodies, END_VALUE) == 0
  {
    MarkerFreeCounts(EVOLVE, bodies);
  }

  lemma SplitBodiesEndFree(s: string)
    ensures Marked(Split(EVOLVE, s)) && EndFree(Bodies(Split(EVOLVE, s)))
  {
    SplitCanonical(EVOLVE, s);
    var l := Split(EVOLVE, s);
    forall k | 0 <= k < |l.segments|
      ensures Shaped(l.segments[k].begin) && Shaped(l.segments[k].end)
      ensures forall j :: 0 <= j < |l.segments[k].body| ==> !EndAt(EVOLVE, l.segments[k].body, j)
    {
      BodyEndFree(l.segments[k]);
    }
  }

  lemma BodyEndFree(g: Segment)
    requires SegmentOk(EVOLVE, g)
    ensures Shaped(g.begin) && Shaped(g.end)
    ensures forall j :: 0 <= j < |g.body| ==> !EndAt(EVOLVE, g.body, j)
  {
    MarksShaped(g.begin);
    MarksShaped(g.end);
    forall j | 0 <= j < |g.body|
      ensures !EndAt(EVOLVE, g.body, j)
    {
      assert FreeAt(g.body, g.end, j, END_BLOCK, END_VALUE);
      if HasAt(g.body, j, END_BLOCK) {
        HasAtFront(g.body, g.end, j, END_BLOCK);
      }
      if HasAt(g.body, j, END_VALUE) {
        HasAtFront(g.body, g.end, j, END_VALUE);
      }
    }
  }

  lemma {:induction false} MatchErrorIgnoresBodies(segments: seq<Segment>, other: seq<Segment>)
    requires |segments| == |other|
    requires forall k :: 0 <= k < |segments| ==> segments[k].begin == other[k].begin && segments[k].end == other[k].end
    ensures MatchError(EVOLVE, segments) == MatchError(EVOLVE, other)
  {
    if |segments| > 0 {
      MatchErrorIgnoresBodies(segments[1..], other[1..]);
    }
  }

  lemma EndCountsStay(original: string, bodies: seq<string>, mark: string)
    requires |bodies| == |Split(EVOLVE, original).segments| && Shaped(mark)
    requires CountInBodies(bodies, mark) == CountInBodies(Bodies(Split(EVOLVE, original)), mark) == 0
    ensures Count(Write(WithBodies(Split(EVOLVE, original), bodies)), mark) == Count(original, mark)
  {
    BodyCounts(original, bodies, mark);
  }

  lemma BodyCounts(original: string, bodies: seq<string>, mark: string)
    requires |bodies| == |Split(EVOLVE, original).segments| && Shaped(mark)
    ensures Count(Write(WithBodies(Split(EVOLVE, original), bodies)), mark)
          + CountInBodies(Bodies(Split(EVOLVE, original)), mark)
         == Count(original, mark) + CountInBodies(bodies, mark)
  {
    SplitBodiesEndFree(original);
    SplitLossless(EVOLVE, original);
    CountDiffers(Split(EVOLVE, original), bodies, mark);
  }

  lemma ValidIff(s: string)
    ensures Validate(s).None?
       <==> (&& MatchError(EVOLVE, Split(EVOLVE, s).segments).None?
             && Count(s, BEGIN_BLOCK) == Count(s, END_BLOCK) && Count(s, BEGIN_VALUE) == Count(s, END_VALUE))
  {
  }

  lemma EndsUnchanged(original: string, bodies: seq<string>)
    requires |bodies| == |Split(EVOLVE, original).segments| && EndFree(bodies)
    ensures
      var proposed := Write(WithBodies(Split(EVOLVE, original), bodies));
      && Count(proposed, END_BLOCK) == Count(original, END_BLOCK)
      && Count(proposed, END_VALUE) == Count(original, END_VALUE)
  {
    SplitBodiesEndFree(original);
    EndFreeCounts(bodies);
    EndFreeCounts(Bodies(Split(EVOLVE, original)));
    MarksShaped(END_BLOCK);
    MarksShaped(END_VALUE);
    EndCountsStay(original, bodies, END_BLOCK);
    EndCountsStay(original, bodies, END_VALUE);
  }

  /** The proposal is valid exactly when the new bodies bring as many begin markers as the old ones. */
  lemma BodiesDecideValidity(original: string, bodies: seq<string>)
    requires Validate(original).None? && |bodies| == |Split(EVOLVE, original).segments| && EndFree(bodies)
    ensures
      var l := Split(EVOLVE, original);
      Validate(Write(WithBodies(l, bodies))).None?
      <==> (&& CountInBodies(bodies, BEGIN_BLOCK) == CountInBodies(Bodies(l), BEGIN_BLOCK)
            && CountInBodies(bodies, BEGIN_VALUE) == CountInBodies(Bodies(l), BEGIN_VALUE))
  {
    var l := Split(EVOLVE, original);
    var other := WithBodies(l, bodies);
    ValidIff(original);
    ValidIff(Write(other));
    assert Split(EVOLVE, Write(other)) == other by {
      EditInsideZones(original, bodies);
    }
    MatchErrorIgnoresBodies(l.segments, other.segments);
    EndsUnchanged(original, bodies);
    MarksShaped(BEGIN_BLOCK);
    MarksShaped(BEGIN_VALUE);
    BodyCounts(original, bodies, BEGIN_BLOCK);
    BodyCounts(original, bodies, BEGIN_VALUE);
  }

  /** An edit of the bodies of a valid source, free of end markers, is accepted exactly when the new bodies
      hold as many begin markers of either kind as the old ones; with none in either, always. */
  lemma BodyEditAcceptedIff(original: string, bodies: seq<string>)
    requires Validate(original).None? && |bodies| == |Split(EVOLVE, original).segments| && EndFree(bodies)
    ensures
      var l := Split(EVOLVE, original);
      var proposed := Write(WithBodies(l, bodies));
      ApplyZonedEdit(original, proposed) == Accepted(proposed)
      <==> (&& CountInBodies(bodies, BEGIN_BLOCK) == CountInBodies(Bodies(l), BEGIN_BLOCK)
            && CountInBodies(bodies, BEGIN_VALUE) == CountInBodies(Bodies(l), BEGIN_VALUE))
  {
    var l := Split(EVOLVE, original);
    EditInsideZones(original, bodies);
    BodiesDecideValidity(original, bodies);
  }

  // ----- A source of one zone

  lemma OneZoneSplits(m: Markers, g: Segment)
    requires SegmentOk(m, g) && g.frozen == ""
    ensures Split(m, g.begin + (g.body + g.end)) == Layout([g], "")
  {
    var l := Layout([g], "");
    assert FirstZone(m, "").NoZone?;
    assert Layout(l.segments[1..], l.tail) == Layout([], "");
    assert Write(l) == g.begin + (g.body + g.end);
    SplitWritten(m, l);
  }

  /** A marker occurs in another one only if it is that one. */
  lemma CountMark(x: string, mark: string)
    requires Shaped(x) && Shaped(mark)
    ensures Count(x, mark) == if x == mark then 1 else 0
  {
    HasAtIsSlice(x, 0, mark);
    if x == mark {
      assert x[0..|x|] == x && x[|x|..] == "";
    } else {
      forall i | 0 <= i < |x|
        ensures !HasAt(x, i, mark)
      {
        if HasAt(x, i, mark) {
          MarkInMark(x, mark, i);
        }
      }
      CountNone(x, mark);
    }
  }

  lemma MarkInMark(x: string, mark: string, i: nat)
    requires Shaped(x) && Shaped(mark) && i < |x| && HasAt(x, i, mark)
    ensures i == 0 && x == mark
  {
    assert x[0..|x|] == x;
    assert i > 0 ==> !HeadAt(x, i);
    HasAtIsSlice(x, i, mark);
    HasAtReads(x, i, mark, 0);
    HasAtReads(x, i, mark, 1);
    HasAtReads(x, i, mark, 13);
  }

  lemma OneZoneCount(begin: string, body: string, end: string, mark: string)
    requires Shaped(begin) && Shaped(end) && Shaped(mark) && |body| < 16
    ensures Count(begin + (body + end), mark) == (if begin == mark then 1 else 0) + (if end == mark then 1 else 0)
  {
    var rest := body + (end + "");
    assert begin + (body + end) == "" + (begin + rest);
    CountAround("", begin, rest, mark);
    CountAround(body, end, "", mark);
    CountMark(begin, mark);
    CountMark(end, mark);
  }

  lemma NotInOneZone(begin: string, body: string, end: string, mark: string, i: nat)
    requires Shaped(begin) && Shaped(mark) && |begin| == |mark| && begin != mark && |body + end| < |mark|
    ensures !HasAt(begin + (body + end), i, mark)
  {
    var whole := begin + (body + end);
    HasAtIsSlice(whole, i, mark);
    NothingCrossesOut(begin, body + end, mark);
    assert whole[0..|begin|] == begin;
  }

  const VALUE_ZONE := Segment("", BEGIN_VALUE, "x", END_VALUE)

  const VALUE_ZONE_SOURCE := VALUE_ZONE.begin + (VALUE_ZONE.body + VALUE_ZONE.end)

  lemma AllShaped()
    ensures Shaped(BEGIN_BLOCK) && Shaped(END_BLOCK) && Shaped(BEGIN_VALUE) && Shaped(END_VALUE)
  {
    MarksShaped(BEGIN_BLOCK);
    MarksShaped(END_BLOCK);
    MarksShaped(BEGIN_VALUE);
    MarksShaped(END_VALUE);
  }

  lemma NoneInLetter(c: char, mark: string, a: string, b: string)
    requires a != "" && b != "" && a[0] != c && b[0] != c
    ensures NoneIn([c], mark, a, b)
  {
    forall k | 0 <= k < 1
      ensures FreeAt([c], mark, k, a, b)
    {
    }
  }

  lemma ValueZoneOk()
    ensures SegmentOk(EVOLVE, VALUE_ZONE)
  {
    assert END_BLOCK[0] == 'E' && END_VALUE[0] == 'E';
    NoneInLetter('x', END_VALUE, END_BLOCK, END_VALUE);
  }

  /** A zone with markers of one kind makes a valid source. */
  lemma OneZoneValid(m: Markers, g: Segment)
    requires m == EVOLVE && SegmentOk(m, g) && g.frozen == "" && |g.body| < 16
    requires g.begin == m.beginValue && g.end == m.endValue
    requires Shaped(m.beginBlock) && Shaped(m.endBlock) && Shaped(m.beginValue) && Shaped(m.endValue)
    requires m.beginBlock != m.beginValue && m.endBlock != m.endValue && m.BeginWidth() != m.EndWidth()
    ensures Validate(g.begin + (g.body + g.end)).None?
  {
    OneZoneSplits(m, g);
    OneZoneCount(g.begin, g.body, g.end, m.beginBlock);
    OneZoneCount(g.begin, g.body, g.end, m.endBlock);
    OneZoneCount(g.begin, g.body, g.end, m.beginValue);
    OneZoneCount(g.begin, g.body, g.end, m.endValue);
    assert MatchError(m, [g]).None? by {
      assert [g][1..] == [];
    }
    ValidIff(g.begin + (g.body + g.end));
  }

  lemma ValueZoneIsValid()
    ensures Validate(VALUE_ZONE_SOURCE).None?
  {
    AllShaped();
    ValueZoneOk();
    OneZoneValid(EVOLVE, VALUE_ZONE);
  }

  lemma ValueZoneHasNoBlock(i: nat)
    ensures !HasAt(VALUE_ZONE_SOURCE, i, BEGIN_BLOCK)
  {
    AllShaped();
    NotInOneZone(VALUE_ZONE.begin, VALUE_ZONE.body, VALUE_ZONE.end, BEGIN_BLOCK, i);
  }
}
