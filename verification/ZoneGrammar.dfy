/** Texts with begin and end markers, as the zone pattern of
    src/mvpc/core/lexical_zones.py matches them: the leftmost begin marker that has
    an end marker behind it, up to the first such end marker, again and again. The
    marker texts are parameters. */
module ZoneGrammar {
  import opened Wrappers

  /** The four markers of a pattern; both begin markers have one width, and both end markers. */
  datatype MarkerTexts = MarkerTexts(beginBlock: string, beginValue: string, endBlock: string, endValue: string) {
    function BeginWidth(): nat { |beginBlock| }
    function EndWidth(): nat { |endBlock| }
  }

  type Markers = m: MarkerTexts |
    |m.beginBlock| == |m.beginValue| > 0 && |m.endBlock| == |m.endValue| > 0
    witness MarkerTexts("a", "b", "c", "d")

  const PLACEHOLDER := "__ZONE__"

  /** `mark` stands at position `i`, compared character by character. */
  predicate HasAt(s: string, i: nat, mark: string)
    ensures HasAt(s, i, mark) ==> i + |mark| <= |s|
    decreases |mark|
  {
    if mark == "" then i <= |s| else i < |s| && s[i] == mark[0] && HasAt(s, i + 1, mark[1..])
  }

  lemma {:induction false} HasAtIsSlice(s: string, i: nat, mark: string)
    ensures HasAt(s, i, mark) <==> i + |mark| <= |s| && s[i..i + |mark|] == mark
    decreases |mark|
  {
    if mark != "" && i < |s| {
      HasAtIsSlice(s, i + 1, mark[1..]);
      if i + |mark| <= |s| {
        assert s[i..i + |mark|] == [s[i]] + s[i + 1..i + |mark|];
        assert mark == [mark[0]] + mark[1..];
      }
    }
  }

  /** Either of two markers at position `i`. */
  predicate EitherAt(s: string, i: nat, a: string, b: string) {
    HasAt(s, i, a) || HasAt(s, i, b)
  }

  /** The first position from `i` on with either marker; the length of `s` if there is none. */
  function Find(s: string, i: nat, a: string, b: string): (p: nat)
    requires i <= |s| && |a| == |b|
    ensures i <= p <= |s|
    ensures p < |s| ==> p + |a| <= |s|
    decreases |s| - i
  {
    if i == |s| || EitherAt(s, i, a, b) then i else Find(s, i + 1, a, b)
  }

  lemma {:induction false} FindIsFirst(s: string, i: nat, a: string, b: string)
    requires i <= |s| && |a| == |b|
    ensures Find(s, i, a, b) < |s| ==> EitherAt(s, Find(s, i, a, b), a, b)
    ensures forall k :: i <= k < Find(s, i, a, b) ==> !EitherAt(s, k, a, b)
    decreases |s| - i
  {
    if i < |s| && !EitherAt(s, i, a, b) {
      FindIsFirst(s, i + 1, a, b);
    }
  }

  // ----- Decomposition

  /** Frozen text, a begin marker, the zone body, an end marker. */
  datatype Segment = Segment(frozen: string, begin: string, body: string, end: string)

  datatype Layout = Layout(segments: seq<Segment>, tail: string)

  /** The leftmost zone of a text: where its begin marker and its end marker stand. */
  datatype Hit = NoZone | Zone(begin: nat, end: nat)

  predicate EndAt(m: Markers, s: string, i: nat) {
    EitherAt(s, i, m.endBlock, m.endValue)
  }

  function FirstZone(m: Markers, s: string): (z: Hit)
    ensures z.Zone? ==> z.begin + m.BeginWidth() <= z.end && z.end + m.EndWidth() <= |s|
  {
    var p := Find(s, 0, m.beginBlock, m.beginValue);
    if p == |s| then NoZone
    else
      var q := Find(s, p + m.BeginWidth(), m.endBlock, m.endValue);
      if q == |s| then NoZone else Zone(p, q)
  }

  function FirstSegment(m: Markers, s: string, p: nat, q: nat): Segment
    requires p + m.BeginWidth() <= q && q + m.EndWidth() <= |s|
  {
    Segment(s[..p], s[p..p + m.BeginWidth()], s[p + m.BeginWidth()..q], s[q..q + m.EndWidth()])
  }

  /** The left-to-right decomposition that matching the zone pattern again and again produces. */
  function Split(m: Markers, s: string): (l: Layout)
    decreases |s|
  {
    match FirstZone(m, s)
    case NoZone => Layout([], s)
    case Zone(p, q) =>
      var rest := Split(m, s[q + m.EndWidth()..]);
      Layout([FirstSegment(m, s, p, q)] + rest.segments, rest.tail)
  }

  function WriteSegment(g: Segment): string {
    g.frozen + g.begin + g.body + g.end
  }

  function Write(l: Layout): string
    decreases |l.segments|
  {
    if l.segments == [] then l.tail
    else WriteSegment(l.segments[0]) + Write(Layout(l.segments[1..], l.tail))
  }

  /** The layout with the zone bodies replaced, one for one. */
  function WithBodies(l: Layout, bodies: seq<string>): (r: Layout)
    requires |bodies| == |l.segments|
    ensures |r.segments| == |l.segments| && r.tail == l.tail
    ensures forall k :: 0 <= k < |bodies| ==> r.segments[k] == l.segments[k].(body := bodies[k])
  {
    Layout(seq(|bodies|, k requires 0 <= k < |bodies| => l.segments[k].(body := bodies[k])), l.tail)
  }

  function Bodies(l: Layout): (b: seq<string>)
    ensures |b| == |l.segments|
    ensures forall k :: 0 <= k < |b| ==> b[k] == l.segments[k].body
  {
    seq(|l.segments|, k requires 0 <= k < |l.segments| => l.segments[k].body)
  }

  /** The layout with every body replaced by the placeholder: all that is frozen. */
  function Frozen(l: Layout): (r: Layout)
    ensures |r.segments| == |l.segments| && r.tail == l.tail
    ensures forall k :: 0 <= k < |l.segments| ==> r.segments[k] == l.segments[k].(body := PLACEHOLDER)
  {
    WithBodies(l, seq(|l.segments|, k => PLACEHOLDER))
  }

  function Skeleton(m: Markers, s: string): string {
    Write(Frozen(Split(m, s)))
  }

  // ----- Splitting and writing are inverse

  lemma SplitUnfold(m: Markers, s: string, p: nat, q: nat, g: Segment, rest: string)
    requires FirstZone(m, s) == Zone(p, q) && FirstSegment(m, s, p, q) == g && s[q + m.EndWidth()..] == rest
    ensures Split(m, s) == Layout([g] + Split(m, rest).segments, Split(m, rest).tail)
  {
  }

  lemma SegmentWhole(m: Markers, s: string, p: nat, q: nat)
    requires p + m.BeginWidth() <= q && q + m.EndWidth() <= |s|
    ensures WriteSegment(FirstSegment(m, s, p, q)) + s[q + m.EndWidth()..] == s
  {
    assert WriteSegment(FirstSegment(m, s, p, q)) == s[..q + m.EndWidth()];
  }

  lemma {:induction false} SplitLossless(m: Markers, s: string)
    ensures Write(Split(m, s)) == s
    decreases |s|
  {
    var z := FirstZone(m, s);
    if z.Zone? {
      var g, rest := FirstSegment(m, s, z.begin, z.end), s[z.end + m.EndWidth()..];
      SplitUnfold(m, s, z.begin, z.end, g, rest);
      SplitLossless(m, rest);
      SegmentWhole(m, s, z.begin, z.end);
    }
  }

  /** Neither marker starts inside `text` when `mark` follows it. */
  ghost predicate NoneIn(text: string, mark: string, a: string, b: string) {
    forall k :: 0 <= k < |text| ==> FreeAt(text, mark, k, a, b)
  }

  ghost predicate FreeAt(text: string, mark: string, k: nat, a: string, b: string) {
    !EitherAt(text + mark, k, a, b)
  }

  ghost predicate SegmentOk(m: Markers, g: Segment) {
    && g.begin in {m.beginBlock, m.beginValue}
    && g.end in {m.endBlock, m.endValue}
    && NoneIn(g.frozen, g.begin, m.beginBlock, m.beginValue)
    && NoneIn(g.body, g.end, m.endBlock, m.endValue)
  }

  /** The layouts that splitting produces. */
  ghost predicate Canonical(m: Markers, l: Layout) {
    (forall k :: 0 <= k < |l.segments| ==> SegmentOk(m, l.segments[k])) && FirstZone(m, l.tail).NoZone?
  }

  lemma SliceOfSlice(s: string, i: nat, n: nat, k: nat, w: nat)
    requires i + n <= |s| && k + w <= n
    ensures s[i..i + n][k..k + w] == s[i + k..i + k + w]
  {
    var t := s[i..i + n];
    var u, v := t[k..k + w], s[i + k..i + k + w];
    forall j | 0 <= j < w
      ensures u[j] == v[j]
    {
      assert t[k + j] == s[i + (k + j)];
    }
  }

  /** Inside a text that goes on with `t`, markers within `t` are where they are in `t` alone. */
  lemma InContext(s: string, i: nat, t: string, k: nat, a: string, b: string)
    requires i + |t| <= |s| && s[i..i + |t|] == t
    requires |a| == |b| && k + |a| <= |t|
    ensures EitherAt(t, k, a, b) <==> EitherAt(s, i + k, a, b)
  {
    HasInContext(s, i, t, k, a);
    HasInContext(s, i, t, k, b);
  }

  lemma HasInContext(s: string, i: nat, t: string, k: nat, mark: string)
    requires i + |t| <= |s| && s[i..i + |t|] == t && k + |mark| <= |t|
    ensures HasAt(t, k, mark) <==> HasAt(s, i + k, mark)
  {
    HasAtIsSlice(t, k, mark);
    HasAtIsSlice(s, i + k, mark);
    SliceOfSlice(s, i, |t|, k, |mark|);
    assert t[k..k + |mark|] == s[i + k..i + k + |mark|];
  }

  lemma NoneInContext(s: string, i: nat, text: string, mark: string, a: string, b: string)
    requires |a| == |b| == |mark| && i + |text| + |mark| <= |s|
    requires s[i..i + |text| + |mark|] == text + mark
    ensures NoneIn(text, mark, a, b) <==> forall k :: i <= k < i + |text| ==> !EitherAt(s, k, a, b)
  {
    var t := text + mark;
    forall k | 0 <= k < |text|
      ensures FreeAt(text, mark, k, a, b) <==> !EitherAt(s, i + k, a, b)
    {
      InContext(s, i, t, k, a, b);
    }
    if NoneIn(text, mark, a, b) {
      forall k | i <= k < i + |text|
        ensures !EitherAt(s, k, a, b)
      {
        assert FreeAt(text, mark, k - i, a, b);
      }
    }
  }

  lemma FindIs(s: string, i: nat, p: nat, a: string, b: string)
    requires i <= p < |s| && |a| == |b| && EitherAt(s, p, a, b)
    requires forall k :: i <= k < p ==> !EitherAt(s, k, a, b)
    ensures Find(s, i, a, b) == p
  {
    FindIsFirst(s, i, a, b);
  }

  /** From position `i` on, `s` reads `text` and then `mark`. */
  ghost predicate Reads(s: string, i: nat, text: string, mark: string) {
    var j, e := i + |text|, i + |text| + |mark|;
    e <= |s| && s[i..e] == text + mark && s[i..j] == text && s[j..e] == mark
  }

  /** `s` starts with the parts of `g`. */
  ghost predicate StartsWith(s: string, g: Segment, rest: string) {
    var b, e := |g.frozen| + |g.begin|, |WriteSegment(g)|;
    Reads(s, 0, g.frozen, g.begin) && Reads(s, b, g.body, g.end) && s[e..] == rest
  }

  lemma MarkHere(s: string, i: nat, mark: string, a: string, b: string)
    requires i + |mark| <= |s| && s[i..i + |mark|] == mark && mark in {a, b}
    ensures EitherAt(s, i, a, b)
  {
    HasAtIsSlice(s, i, mark);
  }

  /** Free text with a marker behind it: the search from its start finds that marker. */
  lemma FindBehind(s: string, i: nat, text: string, mark: string, a: string, b: string)
    requires |a| == |b| == |mark| > 0 && mark in {a, b} && NoneIn(text, mark, a, b)
    requires Reads(s, i, text, mark)
    ensures Find(s, i, a, b) == i + |text|
  {
    NoneInContext(s, i, text, mark, a, b);
    MarkHere(s, i + |text|, mark, a, b);
    FindIs(s, i, i + |text|, a, b);
  }

  lemma BeginFound(m: Markers, s: string, g: Segment)
    requires SegmentOk(m, g) && Reads(s, 0, g.frozen, g.begin)
    ensures Find(s, 0, m.beginBlock, m.beginValue) == |g.frozen|
  {
    FindBehind(s, 0, g.frozen, g.begin, m.beginBlock, m.beginValue);
  }

  lemma EndFound(m: Markers, s: string, i: nat, g: Segment)
    requires SegmentOk(m, g) && Reads(s, i, g.body, g.end)
    ensures Find(s, i, m.endBlock, m.endValue) == i + |g.body|
  {
    FindBehind(s, i, g.body, g.end, m.endBlock, m.endValue);
  }

  lemma SegmentPositions(m: Markers, s: string, g: Segment, rest: string)
    requires SegmentOk(m, g) && StartsWith(s, g, rest)
    ensures FirstZone(m, s) == Zone(|g.frozen|, |g.frozen| + m.BeginWidth() + |g.body|)
  {
    BeginFound(m, s, g);
    EndFound(m, s, |g.frozen| + |g.begin|, g);
  }

  lemma SplitStep(m: Markers, s: string, g: Segment, rest: string)
    requires SegmentOk(m, g) && StartsWith(s, g, rest)
    ensures Split(m, s) == Layout([g] + Split(m, rest).segments, Split(m, rest).tail)
  {
    var p, q := |g.frozen|, |g.frozen| + m.BeginWidth() + |g.body|;
    SegmentPositions(m, s, g, rest);
    assert FirstSegment(m, s, p, q) == g;
    assert q + m.EndWidth() == |WriteSegment(g)|;
    SplitUnfold(m, s, p, q, g, rest);
  }

  lemma WrittenSplits(m: Markers, g: Segment, rest: string)
    requires SegmentOk(m, g)
    ensures Split(m, WriteSegment(g) + rest) == Layout([g] + Split(m, rest).segments, Split(m, rest).tail)
  {
    SplitStep(m, WriteSegment(g) + rest, g, rest);
  }

  /** A canonical layout is the only decomposition of the text it writes. */
  lemma {:induction false} SplitWritten(m: Markers, l: Layout)
    requires Canonical(m, l)
    ensures Split(m, Write(l)) == l
    decreases |l.segments|
  {
    if l.segments != [] {
      var g, tail := l.segments[0], Layout(l.segments[1..], l.tail);
      SplitWritten(m, tail);
      WrittenSplits(m, g, Write(tail));
      assert [g] + l.segments[1..] == l.segments;
    }
  }

  lemma FirstZonePosition(m: Markers, s: string, p: nat, q: nat)
    requires FirstZone(m, s) == Zone(p, q)
    ensures EitherAt(s, p, m.beginBlock, m.beginValue)
    ensures EitherAt(s, q, m.endBlock, m.endValue)
    ensures forall k :: 0 <= k < p ==> !EitherAt(s, k, m.beginBlock, m.beginValue)
    ensures forall k :: p + m.BeginWidth() <= k < q ==> !EitherAt(s, k, m.endBlock, m.endValue)
  {
    FindIsFirst(s, 0, m.beginBlock, m.beginValue);
    FindIsFirst(s, p + m.BeginWidth(), m.endBlock, m.endValue);
  }

  lemma FirstSegmentOk(m: Markers, s: string, p: nat, q: nat)
    requires FirstZone(m, s) == Zone(p, q)
    ensures SegmentOk(m, FirstSegment(m, s, p, q))
  {
    var b := p + m.BeginWidth();
    FirstZonePosition(m, s, p, q);
    assert s[0..p] == s[..p];
    MarkSlice(s, p, m.beginBlock, m.beginValue);
    MarkSlice(s, q, m.endBlock, m.endValue);
    SliceFree(s, 0, p, b, m.beginBlock, m.beginValue);
    SliceFree(s, b, q, q + m.EndWidth(), m.endBlock, m.endValue);
  }

  lemma MarkSlice(s: string, i: nat, a: string, b: string)
    requires EitherAt(s, i, a, b) && |a| == |b|
    ensures s[i..i + |a|] in {a, b}
  {
    HasAtIsSlice(s, i, a);
    HasAtIsSlice(s, i, b);
  }

  lemma SliceFree(s: string, i: nat, j: nat, e: nat, a: string, b: string)
    requires i <= j <= e <= |s| && |a| == |b| == e - j
    requires forall k :: i <= k < j ==> !EitherAt(s, k, a, b)
    ensures NoneIn(s[i..j], s[j..e], a, b)
  {
    assert s[i..e] == s[i..j] + s[j..e];
    NoneInContext(s, i, s[i..j], s[j..e], a, b);
  }

  lemma {:induction false} SplitCanonical(m: Markers, s: string)
    ensures Canonical(m, Split(m, s))
    decreases |s|
  {
    var z := FirstZone(m, s);
    if z.Zone? {
      var p, q := z.begin, z.end;
      var rest := s[q + m.EndWidth()..];
      FirstSegmentOk(m, s, p, q);
      SplitCanonical(m, rest);
      SplitUnfold(m, s, p, q, FirstSegment(m, s, p, q), rest);
    }
  }
}
