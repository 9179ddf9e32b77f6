/** The zone records of src/mvpc/core/lexical_zones.py and the loop that collects them. */
module ZoneExtraction {
  import opened Wrappers
  import opened Text
  import opened ManifestNames
  import opened ZoneGrammar

  datatype Error = MismatchedBlock | MismatchedValue | UnbalancedBlock | UnbalancedValue | TouchesFrozen

  function SegmentError(m: Markers, g: Segment): Option<Error> {
    if g.begin == m.beginBlock && g.end != m.endBlock then Some(MismatchedBlock)
    else if g.begin == m.beginValue && g.end != m.endValue then Some(MismatchedValue)
    else None
  }

  /** The first mismatched zone, if any, decides the error. */
  function MatchError(m: Markers, segments: seq<Segment>): Option<Error> {
    if segments == [] then None
    else if SegmentError(m, segments[0]).Some? then SegmentError(m, segments[0])
    else MatchError(m, segments[1..])
  }

  datatype Kind = Block | ValueZone

  datatype ZoneRecord = ZoneRecord(kind: Kind, name: string, body: string, start: nat, end: nat)

  datatype Extraction = Zones(zones: seq<ZoneRecord>) | Failed(error: Error)

  /** Where the first line of a text ends. */
  function LineEnd(text: string): (e: nat)
    ensures e <= |text|
  {
    if text == "" || text[0] == '\n' then 0 else 1 + LineEnd(text[1..])
  }

  /** A zone is named by the first line of its body, and otherwise by its number. */
  function ZoneName(body: string, number: nat): string {
    var name := Strip(body[..LineEnd(body)]);
    if name != "" then name else "zone_" + Decimal(number)
  }

  /** The body without its first line, unless nothing would be left. */
  function ZoneBody(body: string): string {
    if LineEnd(body) + 1 < |body| then body[LineEnd(body) + 1..] else body
  }

  /** The zone of a segment written at offset `base` behind `number` others. */
  function ZoneOf(m: Markers, g: Segment, base: nat, number: nat): ZoneRecord {
    ZoneRecord(if g.begin == m.beginBlock then Block else ValueZone, ZoneName(g.body, number), ZoneBody(g.body),
               base + |g.frozen|, base + |g.frozen| + |g.begin| + |g.body| + |g.end|)
  }

  /** The zones of segments written one after another from offset `base` on. */
  function ZonesAt(m: Markers, segments: seq<Segment>, base: nat, number: nat): seq<ZoneRecord> {
    if segments == [] then []
    else
      var zone := ZoneOf(m, segments[0], base, number);
      [zone] + ZonesAt(m, segments[1..], zone.end, number + 1)
  }

  /** What the zones from offset `base` on amount to: the first error, or all of them. */
  function Outcome(m: Markers, segments: seq<Segment>, base: nat, number: nat): Extraction {
    match MatchError(m, segments)
    case Some(e) => Failed(e)
    case None => Zones(ZonesAt(m, segments, base, number))
  }

  /** The zones found so far, in front of those still to come. */
  function Prepend(zones: seq<ZoneRecord>, rest: Extraction): Extraction {
    if rest.Zones? then Zones(zones + rest.zones) else rest
  }

  lemma OutcomeDone(m: Markers, zones: seq<ZoneRecord>, base: nat)
    ensures Prepend(zones, Outcome(m, [], base, |zones|)) == Zones(zones)
  {
    assert zones + [] == zones;
  }

  lemma PrependNothing(rest: Extraction)
    ensures Prepend([], rest) == rest
  {
    if rest.Zones? {
      assert [] + rest.zones == rest.zones;
    }
  }

  /** One zone taken from the front of the remaining text. */
  lemma TakeZone(m: Markers, s: string, z: Hit, g: Segment, rest: string, zones: seq<ZoneRecord>, base: nat)
    requires z.Zone? && FirstZone(m, s) == z
    requires FirstSegment(m, s, z.begin, z.end) == g && s[z.end + m.EndWidth()..] == rest
    ensures Prepend(zones, Outcome(m, Split(m, s).segments, base, |zones|)) ==
      if SegmentError(m, g).Some? then Failed(SegmentError(m, g).value)
      else
        var zone := ZoneOf(m, g, base, |zones|);
        Prepend(zones + [zone], Outcome(m, Split(m, rest).segments, zone.end, |zones| + 1))
  {
    SplitUnfold(m, s, z.begin, z.end, g, rest);
  }

  method ExtractZones(m: Markers, source: string) returns (r: Extraction)
    ensures r == Outcome(m, Split(m, source).segments, 0, 0)
  {
    var zones, text := [], source;
    var pos: nat := 0;
    ghost var total := Outcome(m, Split(m, source).segments, 0, 0);
    PrependNothing(total);
    while true
      invariant total == Prepend(zones, Outcome(m, Split(m, text).segments, pos, |zones|))
      decreases |text|
    {
      var z := FirstZone(m, text);
      if z.NoZone? {
        OutcomeDone(m, zones, pos);
        return Zones(zones);
      }
      var g, rest := FirstSegment(m, text, z.begin, z.end), text[z.end + m.EndWidth()..];
      TakeZone(m, text, z, g, rest, zones, pos);
      var e := SegmentError(m, g);
      if e.Some? {
        return Failed(e.value);
      }
      var zone := ZoneOf(m, g, pos, |zones|);
      assert total == Prepend(zones + [zone], Outcome(m, Split(m, rest).segments, zone.end, |zones| + 1));
      zones, text, pos := zones + [zone], rest, zone.end;
    }
  }
}
