/** What the skeleton of src/mvpc/core/lexical_zones.py says of a text, for markers whose occurrences
    cannot overlap. */
module ZoneSkeleton {
  import opened ZoneGrammar

  // ----- Markers that cannot overlap

  /** No proper suffix of `x` starts `y`. */
  ghost predicate Apart(x: string, y: string) {
    forall d :: 0 < d < |x| && |x| - d <= |y| ==> x[d..] != y[..|x| - d]
  }

  ghost predicate EndsApart(m: Markers) {
    && Apart(m.endBlock, m.endBlock) && Apart(m.endBlock, m.endValue)
    && Apart(m.endValue, m.endBlock) && Apart(m.endValue, m.endValue)
  }

  lemma NoOverlap(m: Markers, t: string, i: nat, j: nat)
    requires EndsApart(m) && EndAt(m, t, i) && i < j < i + m.EndWidth()
    ensures !EndAt(m, t, j)
  {
    var x := if HasAt(t, i, m.endBlock) then m.endBlock else m.endValue;
    forall y | y in {m.endBlock, m.endValue}
      ensures !HasAt(t, j, y)
    {
      ApartMarks(t, x, i, y, j);
    }
  }

  /** Of two apart texts of one width, the second does not begin inside the first. */
  lemma ApartMarks(t: string, x: string, i: nat, y: string, j: nat)
    requires Apart(x, y) && |x| == |y| && HasAt(t, i, x) && i < j < i + |x|
    ensures !HasAt(t, j, y)
  {
    var d := j - i;
    HasAtIsSlice(t, i, x);
    HasAtIsSlice(t, j, y);
    assert |x| - d <= |y|;
    if j + |y| <= |t| {
      assert x[d..] == t[j..i + |x|];
      assert t[j..j + |y|][..|x| - d] == t[j..i + |x|];
    }
  }

  /** Text free of end markers stays free when an end marker is put behind it. */
  lemma MarkerFree(m: Markers, body: string, end: string)
    requires EndsApart(m) && end in {m.endBlock, m.endValue}
    requires forall k :: 0 <= k < |body| ==> !EndAt(m, body, k)
    ensures NoneIn(body, end, m.endBlock, m.endValue)
  {
    var t, w := body + end, m.EndWidth();
    assert t[|body|..|body| + w] == end;
    assert t[0..|body|] == body;
    MarkHere(t, |body|, end, m.endBlock, m.endValue);
    forall k | 0 <= k < |body|
      ensures FreeAt(body, end, k, m.endBlock, m.endValue)
    {
      if k + w <= |body| {
        assert !EndAt(m, body, k);
        InContext(t, 0, body, k, m.endBlock, m.endValue);
      } else if EndAt(m, t, k) {
        NoOverlap(m, t, k, |body|);
        assert EndAt(m, t, |body|);
      }
    }
  }

  // ----- Skeletons

  lemma FrozenCanonical(m: Markers, l: Layout)
    requires EndsApart(m) && |PLACEHOLDER| < m.EndWidth() && Canonical(m, l)
    ensures Canonical(m, Frozen(l))
  {
    forall k | 0 <= k < |l.segments|
      ensures SegmentOk(m, Frozen(l).segments[k])
    {
      MarkerFree(m, PLACEHOLDER, l.segments[k].end);
    }
  }

  /** The skeleton splits into exactly the frozen parts and kinds of the source. */
  lemma SplitSkeleton(m: Markers, s: string)
    requires EndsApart(m) && |PLACEHOLDER| < m.EndWidth()
    ensures Split(m, Skeleton(m, s)) == Frozen(Split(m, s))
  {
    SplitCanonical(m, s);
    FrozenCanonical(m, Split(m, s));
    SplitWritten(m, Frozen(Split(m, s)));
  }

  lemma SkeletonIdempotent(m: Markers, s: string)
    requires EndsApart(m) && |PLACEHOLDER| < m.EndWidth()
    ensures Skeleton(m, Skeleton(m, s)) == Skeleton(m, s)
  {
    SplitSkeleton(m, s);
    assert Frozen(Frozen(Split(m, s))) == Frozen(Split(m, s));
  }

  lemma SkeletonDeterminesFrozen(m: Markers, s: string, t: string)
    requires EndsApart(m) && |PLACEHOLDER| < m.EndWidth()
    ensures Skeleton(m, s) == Skeleton(m, t) <==> Frozen(Split(m, s)) == Frozen(Split(m, t))
  {
    SplitSkeleton(m, s);
    SplitSkeleton(m, t);
  }

  /** Other zone bodies, free of end markers, leave the decomposition as it was. */
  lemma SplitWithBodies(m: Markers, s: string, bodies: seq<string>)
    requires EndsApart(m) && |bodies| == |Split(m, s).segments|
    requires forall b :: b in bodies ==> forall k :: 0 <= k < |b| ==> !EndAt(m, b, k)
    ensures Split(m, Write(WithBodies(Split(m, s), bodies))) == WithBodies(Split(m, s), bodies)
  {
    var l := WithBodies(Split(m, s), bodies);
    SplitCanonical(m, s);
    forall k | 0 <= k < |l.segments|
      ensures SegmentOk(m, l.segments[k])
    {
      assert bodies[k] in bodies;
      MarkerFree(m, bodies[k], l.segments[k].end);
    }
    SplitWritten(m, l);
  }
}
