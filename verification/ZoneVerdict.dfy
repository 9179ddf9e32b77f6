/** What src/mvpc/core/lexical_zones.py finds in a source and rejects, said on the text and its zones alone. */
module ZoneVerdict {
  import opened Wrappers
  import opened ZoneGrammar
  import opened Text
  import opened ManifestNames
  import opened ZoneSkeleton
  import opened ZoneExtraction
  import opened LexicalZones
  import opened ZoneValidity

  /** `HasAtIsSlice` says what this means for the text. */
  ghost predicate BeginsAt(m: Markers, s: string, i: nat) {
    HasAt(s, i, m.beginBlock) || HasAt(s, i, m.beginValue)
  }

  ghost predicate EndsAt(m: Markers, s: string, i: nat) {
    HasAt(s, i, m.endBlock) || HasAt(s, i, m.endValue)
  }

  // ----- Which stretches are zones

  lemma FirstBegin(m: Markers, s: string)
    ensures
      var p := Find(s, 0, m.beginBlock, m.beginValue);
      && (forall k: nat :: k < p ==> !BeginsAt(m, s, k))
      && (if p < |s| then BeginsAt(m, s, p) else forall k: nat :: !BeginsAt(m, s, k))
  {
    FindIsFirst(s, 0, m.beginBlock, m.beginValue);
    assert forall k: nat :: BeginsAt(m, s, k) <==> EitherAt(s, k, m.beginBlock, m.beginValue);
  }

  lemma FirstEnd(m: Markers, s: string, i: nat)
    requires i <= |s|
    ensures
      var q := Find(s, i, m.endBlock, m.endValue);
      && (forall k: nat :: i <= k < q ==> !EndsAt(m, s, k))
      && (if q < |s| then EndsAt(m, s, q) else forall k: nat :: i <= k ==> !EndsAt(m, s, k))
  {
    FindIsFirst(s, i, m.endBlock, m.endValue);
    assert forall k: nat :: EndsAt(m, s, k) <==> EitherAt(s, k, m.endBlock, m.endValue);
  }

  /** The first zone runs from the first begin marker to the first end marker behind it. */
  lemma FirstZoneIff(m: Markers, s: string, p: nat, q: nat)
    ensures FirstZone(m, s) == Zone(p, q)
       <==> && BeginsAt(m, s, p) && (forall k: nat :: k < p ==> !BeginsAt(m, s, k))
            && p + |m.beginBlock| <= q && EndsAt(m, s, q)
            && forall k: nat :: p + |m.beginBlock| <= k < q ==> !EndsAt(m, s, k)
  {
    FirstBegin(m, s);
    var b := Find(s, 0, m.beginBlock, m.beginValue);
    if b < |s| {
      FirstEnd(m, s, b + |m.beginBlock|);
    }
  }

  /** No zone means no begin marker with an end marker anywhere behind it. */
  lemma NoZoneIff(m: Markers, s: string)
    ensures FirstZone(m, s).NoZone?
       <==> forall p: nat, q: nat :: p + |m.beginBlock| <= q && BeginsAt(m, s, p) ==> !EndsAt(m, s, q)
  {
    FirstBegin(m, s);
    var b := Find(s, 0, m.beginBlock, m.beginValue);
    if b < |s| {
      FirstEnd(m, s, b + |m.beginBlock|);
    }
  }

  // ----- Counting

  /** How many positions from `i` on the marker stands at. */
  function Occurrences(s: string, mark: string, i: nat): nat
    decreases |s| - i
  {
    if i >= |s| then 0 else (if HasAt(s, i, mark) then 1 else 0) + Occurrences(s, mark, i + 1)
  }

  lemma {:induction false} NoneBetween(s: string, mark: string, i: nat, j: nat)
    requires i <= j && forall k: nat :: i <= k < j ==> !HasAt(s, k, mark)
    ensures Occurrences(s, mark, i) == Occurrences(s, mark, j)
    decreases j - i
  {
    if i < j {
      NoneBetween(s, mark, i + 1, j);
    }
  }

  /** No two occurrences of a marker overlap. */
  lemma Separate(s: string, mark: string, i: nat, j: nat)
    requires Shaped(mark) && HasAt(s, i, mark) && HasAt(s, j, mark) && i < j
    ensures i + |mark| <= j
  {
    var d := j - i;
    HasAtReads(s, j, mark, 0);
    HasAtReads(s, j, mark, 1);
    if d < |mark| {
      HasAtReads(s, i, mark, d);
      if d + 1 < |mark| {
        HasAtReads(s, i, mark, d + 1);
      }
      assert HeadAt(mark, d);
    }
  }

  /** Counting from the left counts all occurrences of a marker. */
  lemma {:induction false} CountFrom(s: string, mark: string, i: nat)
    requires Shaped(mark) && i <= |s|
    ensures Count(s[i..], mark) == Occurrences(s, mark, i)
    decreases |s| - i
  {
    HasAtShifts(s, i, 0, mark);
    var w := |mark|;
    if |s| - i < w {
      NoneBetween(s, mark, i, |s|);
    } else if HasAt(s, i, mark) {
      forall k: nat | i + 1 <= k < i + w
        ensures !HasAt(s, k, mark)
      {
        if HasAt(s, k, mark) {
          Separate(s, mark, i, k);
        }
      }
      NoneBetween(s, mark, i + 1, i + w);
      assert s[i..][w..] == s[i + w..];
      CountFrom(s, mark, i + w);
    } else {
      assert s[i..][1..] == s[i + 1..];
      CountFrom(s, mark, i + 1);
    }
  }

  lemma CountIsOccurrences(s: string, mark: string)
    requires Shaped(mark)
    ensures Count(s, mark) == Occurrences(s, mark, 0)
  {
    assert s[0..] == s;
    CountFrom(s, mark, 0);
  }

  // ----- Extraction

  ghost predicate Matched(g: Segment) {
    || (g.begin == "EVOLVE-BLOCK-BEGIN" && g.end == "EVOLVE-BLOCK-END")
    || (g.begin == "EVOLVE-VALUE-BEGIN" && g.end == "EVOLVE-VALUE-END")
  }

  ghost predicate AllMatched(segments: seq<Segment>) {
    forall k :: 0 <= k < |segments| ==> Matched(segments[k])
  }

  ghost predicate FirstMismatch(segments: seq<Segment>, k: nat) {
    k < |segments| && !Matched(segments[k]) && forall j :: 0 <= j < k ==> Matched(segments[j])
  }

  /** Every zone begins with one of the begin markers and ends with one of the end markers. */
  ghost predicate MarkedAll(segments: seq<Segment>) {
    forall k :: 0 <= k < |segments| ==>
      && segments[k].begin in {"EVOLVE-BLOCK-BEGIN", "EVOLVE-VALUE-BEGIN"}
      && segments[k].end in {"EVOLVE-BLOCK-END", "EVOLVE-VALUE-END"}
  }

  lemma SplitMarked(s: string)
    ensures MarkedAll(Split(EVOLVE, s).segments)
  {
    SplitCanonical(EVOLVE, s);
    var segments := Split(EVOLVE, s).segments;
    forall k | 0 <= k < |segments|
      ensures segments[k].begin in {"EVOLVE-BLOCK-BEGIN", "EVOLVE-VALUE-BEGIN"}
      ensures segments[k].end in {"EVOLVE-BLOCK-END", "EVOLVE-VALUE-END"}
    {
      assert SegmentOk(EVOLVE, segments[k]);
    }
  }

  ghost function MismatchOf(g: Segment): Error {
    if g.begin == "EVOLVE-BLOCK-BEGIN" then MismatchedBlock else MismatchedValue
  }

  lemma {:induction false} MatchErrorIff(segments: seq<Segment>)
    requires MarkedAll(segments)
    ensures MatchError(EVOLVE, segments).None? <==> AllMatched(segments)
    ensures forall k: nat :: FirstMismatch(segments, k) ==>
      MatchError(EVOLVE, segments) == Some(MismatchOf(segments[k]))
  {
    if segments != [] {
      var rest := segments[1..];
      assert forall k :: 0 < k < |segments| ==> segments[k] == rest[k - 1];
      MatchErrorIff(rest);
      forall k: nat | FirstMismatch(segments, k)
        ensures MatchError(EVOLVE, segments) == Some(MismatchOf(segments[k]))
      {
        if k > 0 {
          assert Matched(segments[0]);
          assert FirstMismatch(rest, k - 1) by {
            assert forall j :: 0 <= j < k - 1 ==> rest[j] == segments[j + 1];
          }
        }
      }
    }
  }

  /** Extraction fails on the first zone whose markers do not match, and with the error of its begin marker. */
  lemma ExtractionFails(s: string, k: nat)
    requires FirstMismatch(Split(EVOLVE, s).segments, k)
    ensures Outcome(EVOLVE, Split(EVOLVE, s).segments, 0, 0) == Failed(MismatchOf(Split(EVOLVE, s).segments[k]))
  {
    SplitMarked(s);
    MatchErrorIff(Split(EVOLVE, s).segments);
  }

  /** The first line of a text and what comes behind its line end. */
  ghost predicate FirstLine(text: string, line: string, rest: string) {
    '\n' !in line && if '\n' in text then text == line + "\n" + rest else text == line && rest == ""
  }

  lemma {:induction false} LineEndIs(text: string, line: string, rest: string)
    requires FirstLine(text, line, rest)
    ensures LineEnd(text) == |line| && text[..|line|] == line
    ensures rest == if |line| + 1 <= |text| then text[|line| + 1..] else ""
    decreases |text|
  {
    if line != "" {
      assert text[0] == line[0];
      FirstLineTail(text, line, rest);
      LineEndIs(text[1..], line[1..], rest);
    }
  }

  lemma FirstLineTail(text: string, line: string, rest: string)
    requires FirstLine(text, line, rest) && line != ""
    ensures text != "" && text[0] == line[0] && text[0] != '\n' && FirstLine(text[1..], line[1..], rest)
  {
    assert text == [text[0]] + text[1..];
    assert line == [line[0]] + line[1..];
    if '\n' in text {
      assert '\n' in text[1..];
      assert text[1..] == line[1..] + "\n" + rest;
    }
  }

  /** A record says the kind of its zone, its name and body, and where it stands. */
  ghost predicate RecordOf(m: Markers, s: string, g: Segment, number: nat, z: ZoneRecord) {
    && (z.kind == Block <==> g.begin == m.beginBlock)
    && z.name == ZoneName(g.body, number) && z.body == ZoneBody(g.body)
    && z.start <= z.end <= |s| && s[z.start..z.end] == g.begin + g.body + g.end
  }

  /** The name of a zone is its first line without white space at the ends, or its number if that line is blank; its
      body is what follows the first line, or all of it if nothing does. */
  lemma NameAndBody(text: string, line: string, rest: string, number: nat)
    requires FirstLine(text, line, rest)
    ensures ZoneName(text, number) == if AllSpace(line) then "zone_" + Decimal(number) else Strip(line)
    ensures ZoneBody(text) == if rest == "" then text else rest
    ensures Number(Decimal(number)) == number
  {
    LineEndIs(text, line, rest);
    StripBlank(line);
    NumberOfDecimal(number);
  }

  lemma {:induction false} RecordsInOrder(m: Markers, segments: seq<Segment>, base: nat, number: nat)
    ensures
      var zones := ZonesAt(m, segments, base, number);
      && |zones| == |segments|
      && forall k :: 0 <= k < |zones| ==>
           zones[k].start == (if k == 0 then base else zones[k - 1].end) + |segments[k].frozen|
  {
    if segments != [] {
      RecordsInOrder(m, segments[1..], ZoneOf(m, segments[0], base, number).end, number + 1);
    }
  }

  function Length(segments: seq<Segment>): nat {
    if segments == [] then 0 else |WriteSegment(segments[0])| + Length(segments[1..])
  }

  lemma LengthStep(segments: seq<Segment>, k: nat)
    requires 0 < k <= |segments|
    ensures Length(segments[..k]) == |WriteSegment(segments[0])| + Length(segments[1..][..k - 1])
  {
    assert segments[..k][1..] == segments[1..][..k - 1];
  }

  /** The k-th record is that of the k-th segment, at the offset where it stands. */
  lemma {:induction false} RecordAt(m: Markers, segments: seq<Segment>, base: nat, number: nat, k: nat, g: Segment,
                                    at: nat, n: nat)
    requires k < |segments| && g == segments[k] && at == base + Length(segments[..k]) && n == number + k
    ensures |ZonesAt(m, segments, base, number)| > k
    ensures ZonesAt(m, segments, base, number)[k] == ZoneOf(m, g, at, n)
    decreases k
  {
    if k > 0 {
      LengthStep(segments, k);
      RecordAt(m, segments[1..], base + |WriteSegment(segments[0])|, number + 1, k - 1, g, at, n);
    }
  }

  lemma {:induction false} WrittenAround(segments: seq<Segment>, tail: string, k: nat)
    returns (before: string, after: string)
    requires k < |segments|
    ensures Write(Layout(segments, tail)) == before + (WriteSegment(segments[k]) + after)
    ensures |before| == Length(segments[..k])
    decreases k
  {
    var first, rest := WriteSegment(segments[0]), Write(Layout(segments[1..], tail));
    assert Write(Layout(segments, tail)) == first + rest;
    if k == 0 {
      before, after := "", rest;
    } else {
      var b, a := WrittenAround(segments[1..], tail, k - 1);
      before, after := first + b, a;
      assert segments[..k][1..] == segments[1..][..k - 1];
      assert first + (b + (WriteSegment(segments[k]) + a)) == first + b + (WriteSegment(segments[k]) + a);
    }
  }

  lemma SliceMiddle(a: string, b: string, c: string)
    ensures |a| + |b| <= |a + b + c| && (a + b + c)[|a|..|a| + |b|] == b
  {
  }

  lemma RecordWritten(m: Markers, s: string, before: string, g: Segment, after: string, number: nat)
    requires s == before + (WriteSegment(g) + after)
    ensures RecordOf(m, s, g, number, ZoneOf(m, g, |before|, number))
  {
    var front, zone := before + g.frozen, g.begin + g.body + g.end;
    assert s == front + zone + after;
    SliceMiddle(front, zone, after);
  }

  lemma RecordOfZone(m: Markers, s: string, l: Layout, k: nat)
    requires k < |l.segments| && s == Write(l)
    ensures |ZonesAt(m, l.segments, 0, 0)| == |l.segments|
    ensures RecordOf(m, s, l.segments[k], k, ZonesAt(m, l.segments, 0, 0)[k])
  {
    RecordsInOrder(m, l.segments, 0, 0);
    RecordAt(m, l.segments, 0, 0, k, l.segments[k], Length(l.segments[..k]), k);
    var before, after := WrittenAround(l.segments, l.tail, k);
    RecordWritten(m, s, before, l.segments[k], after, k);
  }

  /** Otherwise extraction gives one record per zone, in order, with its kind, name and body and the stretch from its
      begin marker to its end marker. */
  lemma ExtractionGives(s: string)
    requires AllMatched(Split(EVOLVE, s).segments)
    ensures
      var segments, r := Split(EVOLVE, s).segments, Outcome(EVOLVE, Split(EVOLVE, s).segments, 0, 0);
      && r.Zones? && |r.zones| == |segments|
      && (forall k :: 0 <= k < |segments| ==> RecordOf(EVOLVE, s, segments[k], k, r.zones[k]))
      && (forall k :: 0 <= k < |segments| ==>
            r.zones[k].start == (if k == 0 then 0 else r.zones[k - 1].end) + |segments[k].frozen|)
  {
    var l := Split(EVOLVE, s);
    SplitMarked(s);
    MatchErrorIff(l.segments);
    SplitLossless(EVOLVE, s);
    RecordsInOrder(EVOLVE, l.segments, 0, 0);
    RecordOfZones(EVOLVE, s, l);
  }

  lemma RecordOfZones(m: Markers, s: string, l: Layout)
    requires s == Write(l)
    ensures |ZonesAt(m, l.segments, 0, 0)| == |l.segments|
    ensures forall k :: 0 <= k < |l.segments| ==> RecordOf(m, s, l.segments[k], k, ZonesAt(m, l.segments, 0, 0)[k])
  {
    RecordsInOrder(m, l.segments, 0, 0);
    forall k | 0 <= k < |l.segments|
      ensures RecordOf(m, s, l.segments[k], k, ZonesAt(m, l.segments, 0, 0)[k])
    {
      RecordOfZone(m, s, l, k);
    }
  }

  /** In the skeleton every zone body is the placeholder, and nothing else has changed. */
  lemma SkeletonText(s: string)
    ensures
      var before, after := Split(EVOLVE, s), Split(EVOLVE, Skeleton(EVOLVE, s));
      && |after.segments| == |before.segments| && after.tail == before.tail
      && forall k :: 0 <= k < |after.segments| ==> after.segments[k] == before.segments[k].(body := "__ZONE__")
  {
    EvolveEndsApart();
    SplitSkeleton(EVOLVE, s);
  }

  // ----- Validity and refusals

  ghost predicate Balanced(s: string, begin: string, end: string) {
    Occurrences(s, begin, 0) == Occurrences(s, end, 0)
  }

  lemma CountsIff(s: string)
    ensures Count(s, BEGIN_BLOCK) == Count(s, END_BLOCK) <==> Balanced(s, "EVOLVE-BLOCK-BEGIN", "EVOLVE-BLOCK-END")
    ensures Count(s, BEGIN_VALUE) == Count(s, END_VALUE) <==> Balanced(s, "EVOLVE-VALUE-BEGIN", "EVOLVE-VALUE-END")
  {
    AllShaped();
    CountIsOccurrences(s, BEGIN_BLOCK);
    CountIsOccurrences(s, END_BLOCK);
    CountIsOccurrences(s, BEGIN_VALUE);
    CountIsOccurrences(s, END_VALUE);
  }

  /** A source is valid exactly when every zone ends with the marker of its own kind and there are as many end markers
      of each kind in the text as begin markers. */
  lemma ValidateIff(s: string)
    ensures Validate(s).None?
       <==> && AllMatched(Split(EVOLVE, s).segments)
            && Balanced(s, "EVOLVE-BLOCK-BEGIN", "EVOLVE-BLOCK-END")
            && Balanced(s, "EVOLVE-VALUE-BEGIN", "EVOLVE-VALUE-END")
  {
    SplitMarked(s);
    MatchErrorIff(Split(EVOLVE, s).segments);
    CountsIff(s);
  }

  /** Which error an invalid source has: the first mismatched zone decides, then blocks, then values. */
  lemma MismatchDecides(s: string, k: nat)
    requires FirstMismatch(Split(EVOLVE, s).segments, k)
    ensures Validate(s) == Some(MismatchOf(Split(EVOLVE, s).segments[k]))
  {
    SplitMarked(s);
    MatchErrorIff(Split(EVOLVE, s).segments);
  }

  lemma UnbalancedIff(s: string)
    ensures Validate(s) == Some(UnbalancedBlock)
       <==> AllMatched(Split(EVOLVE, s).segments) && !Balanced(s, "EVOLVE-BLOCK-BEGIN", "EVOLVE-BLOCK-END")
    ensures Validate(s) == Some(UnbalancedValue)
       <==> && AllMatched(Split(EVOLVE, s).segments) && Balanced(s, "EVOLVE-BLOCK-BEGIN", "EVOLVE-BLOCK-END")
            && !Balanced(s, "EVOLVE-VALUE-BEGIN", "EVOLVE-VALUE-END")
  {
    SplitMarked(s);
    MatchErrorIff(Split(EVOLVE, s).segments);
    NoTouchError(Split(EVOLVE, s).segments);
    CountsIff(s);
  }

  /** A refused edit names the error of the original, or else of the proposal, or else the change of frozen text. */
  lemma RefusalNames(original: string, proposed: string)
    ensures ApplyZonedEdit(original, proposed) == Refused(TouchesFrozen)
       <==> && Validate(original).None? && Validate(proposed).None?
            && Frozen(Split(EVOLVE, original)) != Frozen(Split(EVOLVE, proposed))
    ensures Validate(original).Some? ==> ApplyZonedEdit(original, proposed) == Refused(Validate(original).value)
    ensures Validate(original).None? && Validate(proposed).Some? ==>
      ApplyZonedEdit(original, proposed) == Refused(Validate(proposed).value)
  {
    SkeletonExact(original, proposed);
    NeverTouches(original);
    NeverTouches(proposed);
  }

  lemma NeverTouches(s: string)
    ensures Validate(s) != Some(TouchesFrozen)
  {
    NoTouchError(Split(EVOLVE, s).segments);
  }

  lemma {:induction false} NoTouchError(segments: seq<Segment>)
    ensures MatchError(EVOLVE, segments) != Some(TouchesFrozen)
    ensures MatchError(EVOLVE, segments) !in {Some(UnbalancedBlock), Some(UnbalancedValue)}
  {
    if segments != [] {
      NoTouchError(segments[1..]);
    }
  }
}
