/** The import graph that src/mvpc/hardening/transitive_scan.py explores, and what its
    worklist computes: exactly the reachable files, nearest first, up to the cap. The
    graph is arbitrary; labels may be queued more than once. */
module ImportGraph {
  import opened Wrappers

  /** The entry source has a label of its own, which no file path equals. */
  datatype Label = Entry | File(path: string)

  datatype Finding = Finding(rule: string, line: nat, excerpt: string)

  /** What the scan reads: the entry text, the readable files, how an import name resolves to a
      file, which imports a text has and what the scanner finds in it. */
  datatype World = World(
    entry: string,
    files: map<string, string>,
    resolve: string -> Option<string>,
    imports: string -> seq<string>,
    findings: string -> seq<Finding>)

  predicate IsNode(w: World, l: Label) {
    l == Entry || l.path in w.files
  }

  function Text(w: World, l: Label): string
    requires IsNode(w, l)
  {
    if l == Entry then w.entry else w.files[l.path]
  }

  /** The file an import leads to, if it resolves and can be read. */
  function Target(w: World, name: string): Option<Label> {
    var p := w.resolve(name);
    if p.Some? && p.value in w.files then Some(File(p.value)) else None
  }

  function Imports(w: World, l: Label): seq<string>
    requires IsNode(w, l)
  {
    w.imports(Text(w, l))
  }

  ghost predicate Edge(w: World, l: Label, m: Label) {
    IsNode(w, l) && exists k :: 0 <= k < |Imports(w, l)| && Target(w, Imports(w, l)[k]) == Some(m)
  }

  function Nodes(w: World): set<Label> {
    {Entry} + set p | p in w.files :: File(p)
  }

  /** The labels reachable in at most `n` steps. */
  ghost function Within(w: World, n: nat): (r: set<Label>)
    ensures Entry in r
    ensures forall l :: l in r ==> IsNode(w, l)
  {
    if n == 0 then {Entry}
    else
      var r := Within(w, n - 1);
      r + set m | m in Nodes(w) && exists l :: l in r && Edge(w, l, m)
  }

  ghost predicate Reachable(w: World, l: Label) {
    exists n: nat :: l in Within(w, n)
  }

  ghost function ReachableSet(w: World): set<Label> {
    set l | l in Nodes(w) && Reachable(w, l)
  }

  /** `l` is at distance `d` from the entry. */
  ghost predicate IsDistance(w: World, l: Label, d: nat) {
    l in Within(w, d) && forall n: nat :: n < d ==> l !in Within(w, n)
  }

  lemma {:induction false} WithinGrows(w: World, m: nat, n: nat)
    requires m <= n
    ensures Within(w, m) <= Within(w, n)
    decreases n
  {
    if m < n {
      WithinGrows(w, m, n - 1);
    }
  }

  lemma EdgeWithin(w: World, l: Label, m: Label, n: nat)
    requires l in Within(w, n) && Edge(w, l, m)
    ensures m in Within(w, n + 1)
  {
    var k :| 0 <= k < |Imports(w, l)| && Target(w, Imports(w, l)[k]) == Some(m);
    assert m in Nodes(w);
  }

  // ----- The worklist, with the level of every item

  datatype Search = Search(queue: seq<Label>, queueLevels: seq<nat>, scanned: seq<Label>, levels: seq<nat>)

  ghost predicate Sorted(s: seq<nat>) {
    forall i, j :: 0 <= i < j < |s| ==> s[i] <= s[j]
  }

  ghost predicate Distinct(s: seq<Label>) {
    forall i, j :: 0 <= i < j < |s| ==> s[i] != s[j]
  }

  /** `m` waits in the queue at level `d` or nearer. */
  ghost predicate Queued(s: Search, m: Label, d: nat) {
    exists k :: 0 <= k < |s.queue| && k < |s.queueLevels| && s.queue[k] == m && s.queueLevels[k] <= d
  }

  ghost predicate QueueOk(w: World, s: Search) {
    && |s.queue| == |s.queueLevels|
    && Sorted(s.levels + s.queueLevels)
    && (forall k :: 0 <= k < |s.queue| ==> s.queue[k] in Within(w, s.queueLevels[k]))
    && (s.queue != [] && s.levels != [] ==> s.queueLevels[|s.queue| - 1] <= s.levels[|s.levels| - 1] + 1)
  }

  ghost predicate ScannedOk(w: World, s: Search) {
    && |s.scanned| == |s.levels|
    && Distinct(s.scanned)
    && (forall k :: 0 <= k < |s.scanned| ==> IsDistance(w, s.scanned[k], s.levels[k]))
  }

  /** Every import of a scanned file is scanned or waits one level further at most. */
  ghost predicate Frontier(w: World, s: Search) {
    && (s.scanned == [] ==> s.queue == [Entry] && s.queueLevels == [0])
    && (s.scanned != [] ==> Entry in s.scanned)
    && (forall k, m :: 0 <= k < |s.scanned| && k < |s.levels| && Edge(w, s.scanned[k], m) ==>
          m in s.scanned || Queued(s, m, s.levels[k] + 1))
  }

  ghost predicate Inv(w: World, s: Search) {
    QueueOk(w, s) && ScannedOk(w, s) && Frontier(w, s)
  }

  /** Everything nearer than the front of the queue has been scanned. */
  lemma {:induction false} NearerIsScanned(w: World, s: Search, n: nat)
    requires Inv(w, s)
    requires |s.queue| > 0 ==> n < s.queueLevels[0]
    requires |s.scanned| > 0
    ensures forall l :: l in Within(w, n) ==> l in s.scanned
  {
    if n > 0 {
      NearerIsScanned(w, s, n - 1);
      forall m | m in Within(w, n)
        ensures m in s.scanned
      {
        NextIsScanned(w, s, n, m);
      }
    }
  }

  lemma NextIsScanned(w: World, s: Search, n: nat, m: Label)
    requires Inv(w, s) && (|s.queue| > 0 ==> n < s.queueLevels[0])
    requires n > 0 && m in Within(w, n) && forall l :: l in Within(w, n - 1) ==> l in s.scanned
    ensures m in s.scanned
  {
    if m !in Within(w, n - 1) {
      var l := WithinBefore(w, n, m);
      ImportIsScanned(w, s, n, l, m);
    }
  }

  lemma WithinBefore(w: World, n: nat, m: Label) returns (l: Label)
    requires n > 0 && m in Within(w, n) && m !in Within(w, n - 1)
    ensures l in Within(w, n - 1) && Edge(w, l, m)
  {
    l :| l in Within(w, n - 1) && Edge(w, l, m);
  }

  lemma ImportIsScanned(w: World, s: Search, n: nat, l: Label, m: Label)
    requires Inv(w, s) && (|s.queue| > 0 ==> n < s.queueLevels[0])
    requires n > 0 && l in s.scanned && l in Within(w, n - 1) && Edge(w, l, m)
    ensures m in s.scanned
  {
    var k :| 0 <= k < |s.scanned| && s.scanned[k] == l;
    assert IsDistance(w, l, s.levels[k]);
    assert s.levels[k] <= n - 1;
    QueueFrontIsLeast(w, s);
    assert !Queued(s, m, s.levels[k] + 1);
  }

  lemma QueueFrontIsLeast(w: World, s: Search)
    requires QueueOk(w, s)
    ensures forall k :: 0 <= k < |s.queue| ==> s.queueLevels[0] <= s.queueLevels[k]
    ensures forall i, k :: 0 <= i < |s.levels| && 0 <= k < |s.queue| ==> s.levels[i] <= s.queueLevels[k]
  {
    var all := s.levels + s.queueLevels;
    assert forall k :: 0 <= k < |s.queue| ==> s.queueLevels[k] == all[|s.levels| + k];
    assert forall i :: 0 <= i < |s.levels| ==> s.levels[i] == all[i];
  }

  /** The front of the queue is at its level, if it has not been scanned. */
  lemma FrontDistance(w: World, s: Search)
    requires Inv(w, s) && s.queue != [] && s.queue[0] !in s.scanned
    ensures IsDistance(w, s.queue[0], s.queueLevels[0])
  {
    var d := s.queueLevels[0];
    if |s.scanned| > 0 && d > 0 {
      NearerIsScanned(w, s, d - 1);
      assert s.queue[0] !in Within(w, d - 1);
      forall n: nat | n < d
        ensures s.queue[0] !in Within(w, n)
      {
        WithinGrows(w, n, d - 1);
      }
    }
  }

  /** The items a scanned text adds: its readable imports not scanned before. */
  function Additions(w: World, scanned: set<Label>, names: seq<string>): seq<Label> {
    if names == [] then []
    else
      var init, t := Additions(w, scanned, names[..|names| - 1]), Target(w, names[|names| - 1]);
      if t.Some? && t.value !in scanned then init + [t.value] else init
  }

  lemma {:induction false} AdditionsAre(w: World, scanned: set<Label>, names: seq<string>)
    ensures forall m :: m in Additions(w, scanned, names) <==>
      m !in scanned && exists k :: 0 <= k < |names| && Target(w, names[k]) == Some(m)
  {
    if names != [] {
      var init := names[..|names| - 1];
      AdditionsAre(w, scanned, init);
      assert forall k :: 0 <= k < |init| ==> names[k] == init[k];
      forall m
        ensures m in Additions(w, scanned, names) <==>
          m !in scanned && exists k :: 0 <= k < |names| && Target(w, names[k]) == Some(m)
      {
        if m !in scanned && exists k :: 0 <= k < |names| && Target(w, names[k]) == Some(m) {
          var k :| 0 <= k < |names| && Target(w, names[k]) == Some(m);
          if k < |init| {
            assert Target(w, init[k]) == Some(m);
          }
        }
      }
    }
  }

  // ----- One turn of the worklist

  function Drop(s: Search): Search
    requires s.queue != [] && s.queueLevels != []
  {
    s.(queue := s.queue[1..], queueLevels := s.queueLevels[1..])
  }

  function Levels(n: nat, d: nat): (r: seq<nat>)
    ensures |r| == n && forall k :: 0 <= k < n ==> r[k] == d
  {
    seq(n, k => d)
  }

  ghost function ToSet(s: seq<Label>): set<Label> {
    set l | l in s
  }

  /** The front item is scanned and its imports are queued. */
  ghost function Advance(w: World, s: Search): Search
    requires s.queue != [] && s.queueLevels != [] && IsNode(w, s.queue[0])
  {
    var l, d := s.queue[0], s.queueLevels[0];
    var scanned := s.scanned + [l];
    var added := Additions(w, ToSet(scanned), Imports(w, l));
    Search(s.queue[1..] + added, s.queueLevels[1..] + Levels(|added|, d + 1), scanned, s.levels + [d])
  }

  lemma SortedWithout(x: seq<nat>, d: nat, y: seq<nat>)
    requires Sorted(x + ([d] + y))
    ensures Sorted(x + y)
  {
    var a, b := x + ([d] + y), x + y;
    forall i, j | 0 <= i < j < |b|
      ensures b[i] <= b[j]
    {
      assert b[i] == a[if i < |x| then i else i + 1];
      assert b[j] == a[if j < |x| then j else j + 1];
    }
  }

  lemma DropQueue(w: World, s: Search)
    requires QueueOk(w, s) && s.queue != []
    ensures QueueOk(w, Drop(s))
  {
    var d, rest := s.queueLevels[0], s.queueLevels[1..];
    assert s.queueLevels == [d] + rest;
    SortedWithout(s.levels, d, rest);
  }

  lemma DropKeeps(w: World, s: Search)
    requires Inv(w, s) && s.queue != [] && s.queue[0] in s.scanned
    ensures Inv(w, Drop(s))
  {
    var t := Drop(s);
    DropQueue(w, s);
    forall k, m | 0 <= k < |t.scanned| && Edge(w, t.scanned[k], m)
      ensures m in t.scanned || Queued(t, m, t.levels[k] + 1)
    {
      if m !in s.scanned {
        var j :| 0 <= j < |s.queue| && s.queue[j] == m && s.queueLevels[j] <= s.levels[k] + 1;
        assert t.queue[j - 1] == m && t.queueLevels[j - 1] == s.queueLevels[j];
      }
    }
  }

  lemma AdvanceQueue(w: World, s: Search)
    requires Inv(w, s) && s.queue != [] && s.queue[0] !in s.scanned && IsNode(w, s.queue[0])
    ensures QueueOk(w, Advance(w, s))
  {
    AdvanceSorted(w, s);
    AdvanceWithin(w, s);
    LevelBound(w, s);
    var all := s.levels + s.queueLevels;
    assert all[|all| - 1] == s.queueLevels[|s.queue| - 1];
  }

  lemma AdvanceSorted(w: World, s: Search)
    requires Inv(w, s) && s.queue != [] && IsNode(w, s.queue[0])
    ensures Sorted(Advance(w, s).levels + Advance(w, s).queueLevels)
  {
    var t, d := Advance(w, s), s.queueLevels[0];
    var n, all := |t.queue| - (|s.queue| - 1), s.levels + s.queueLevels;
    LevelBound(w, s);
    assert t.levels + t.queueLevels == all + Levels(n, d + 1);
  }

  lemma AdvanceWithin(w: World, s: Search)
    requires QueueOk(w, s) && s.queue != [] && IsNode(w, s.queue[0])
    ensures var t := Advance(w, s);
      forall k :: 0 <= k < |t.queue| ==> t.queue[k] in Within(w, t.queueLevels[k])
  {
    var t, l, d := Advance(w, s), s.queue[0], s.queueLevels[0];
    var n, added := |s.queue| - 1, Additions(w, ToSet(t.scanned), Imports(w, l));
    AdditionsWithin(w, l, d, ToSet(t.scanned));
    forall k | 0 <= k < |t.queue|
      ensures t.queue[k] in Within(w, t.queueLevels[k])
    {
      if k < n {
        assert t.queue[k] == s.queue[k + 1] && t.queueLevels[k] == s.queueLevels[k + 1];
      } else {
        assert t.queue[k] == added[k - n] && t.queueLevels[k] == d + 1;
        assert added[k - n] in added;
      }
    }
  }

  lemma AdditionsWithin(w: World, l: Label, d: nat, scanned: set<Label>)
    requires l in Within(w, d) && IsNode(w, l)
    ensures forall m :: m in Additions(w, scanned, Imports(w, l)) ==> m in Within(w, d + 1)
  {
    AdditionsAre(w, scanned, Imports(w, l));
    forall m | m in Additions(w, scanned, Imports(w, l))
      ensures m in Within(w, d + 1)
    {
      var j :| 0 <= j < |Imports(w, l)| && Target(w, Imports(w, l)[j]) == Some(m);
      EdgeWithin(w, l, m, d);
    }
  }

  /** No item in the queue is more than one level behind the front. */
  lemma LevelBound(w: World, s: Search)
    requires Inv(w, s) && s.queue != []
    ensures forall k :: 0 <= k < |s.levels + s.queueLevels| ==> (s.levels + s.queueLevels)[k] <= s.queueLevels[0] + 1
  {
    QueueFrontIsLeast(w, s);
    var all := s.levels + s.queueLevels;
    assert all[|all| - 1] == s.queueLevels[|s.queue| - 1];
    assert all[|all| - 1] <= s.queueLevels[0] + 1;
  }

  lemma AdvanceScanned(w: World, s: Search)
    requires Inv(w, s) && s.queue != [] && s.queue[0] !in s.scanned && IsNode(w, s.queue[0])
    ensures ScannedOk(w, Advance(w, s))
  {
    FrontDistance(w, s);
  }

  lemma StillQueued(w: World, s: Search, k: nat, m: Label)
    requires Inv(w, s) && |s.queue| > 0 && IsNode(w, s.queue[0]) && k < |s.scanned| && Edge(w, s.scanned[k], m)
    requires m !in s.scanned && m != s.queue[0]
    ensures Queued(Advance(w, s), m, s.levels[k] + 1)
  {
    var t := Advance(w, s);
    var j :| 0 <= j < |s.queue| && s.queue[j] == m && s.queueLevels[j] <= s.levels[k] + 1;
    assert t.queue[j - 1] == m && t.queueLevels[j - 1] == s.queueLevels[j];
  }

  lemma NewlyQueued(w: World, s: Search, m: Label)
    requires Inv(w, s) && |s.queue| > 0 && IsNode(w, s.queue[0]) && Edge(w, s.queue[0], m)
    requires m !in s.scanned && m != s.queue[0]
    ensures Queued(Advance(w, s), m, s.queueLevels[0] + 1)
  {
    var t, names := Advance(w, s), Imports(w, s.queue[0]);
    var added := Additions(w, ToSet(t.scanned), names);
    AdditionsAre(w, ToSet(t.scanned), names);
    assert m in added;
    var j :| 0 <= j < |added| && added[j] == m;
    AddedIsQueued(s.queue[1..], added, s.queueLevels[1..], s.queueLevels[0] + 1, j);
    var i := |s.queue[1..]| + j;
    assert t.queue[i] == m && t.queueLevels[i] == s.queueLevels[0] + 1;
  }

  lemma AddedIsQueued(queue: seq<Label>, added: seq<Label>, levels: seq<nat>, d: nat, j: nat)
    requires |queue| == |levels| && j < |added|
    ensures (queue + added)[|queue| + j] == added[j] && (levels + Levels(|added|, d))[|queue| + j] == d
  {
  }

  lemma AdvanceFrontier(w: World, s: Search)
    requires Inv(w, s) && s.queue != [] && s.queue[0] !in s.scanned && IsNode(w, s.queue[0])
    ensures Frontier(w, Advance(w, s))
  {
    var t := Advance(w, s);
    forall k, m | 0 <= k < |t.scanned| && Edge(w, t.scanned[k], m)
      ensures m in t.scanned || Queued(t, m, t.levels[k] + 1)
    {
      if m !in t.scanned {
        assert m !in s.scanned && m != s.queue[0] by {
          assert t.scanned[|s.scanned|] == s.queue[0];
          assert forall l :: l in s.scanned ==> l in t.scanned;
        }
        if k < |s.scanned| {
          assert t.scanned[k] == s.scanned[k] && t.levels[k] == s.levels[k];
          StillQueued(w, s, k, m);
        } else {
          NewlyQueued(w, s, m);
        }
      }
    }
  }

  lemma AdvanceKeeps(w: World, s: Search)
    requires Inv(w, s) && s.queue != [] && s.queue[0] !in s.scanned && IsNode(w, s.queue[0])
    ensures Inv(w, Advance(w, s))
  {
    AdvanceQueue(w, s);
    AdvanceScanned(w, s);
    AdvanceFrontier(w, s);
  }

  function Start(): Search {
    Search([Entry], [0], [], [])
  }

  lemma StartOk(w: World)
    ensures Inv(w, Start())
  {
  }

  // ----- What has been computed when the loop ends

  lemma ScannedReachable(w: World, s: Search)
    requires Inv(w, s)
    ensures ToSet(s.scanned) <= ReachableSet(w)
    ensures |ToSet(s.scanned)| == |s.scanned|
  {
    forall l | l in s.scanned
      ensures l in ReachableSet(w)
    {
      var k :| 0 <= k < |s.scanned| && s.scanned[k] == l;
      assert l in Within(w, s.levels[k]);
    }
    DistinctSize(s.scanned);
  }

  lemma {:induction false} DistinctSize(s: seq<Label>)
    requires Distinct(s)
    ensures |ToSet(s)| == |s|
  {
    if s != [] {
      var init := s[..|s| - 1];
      DistinctSize(init);
      assert ToSet(s) == ToSet(init) + {s[|s| - 1]};
      assert s[|s| - 1] !in ToSet(init);
    }
  }

  /** A drained queue: exactly the reachable labels have been scanned. */
  lemma DrainedIsReachable(w: World, s: Search)
    requires Inv(w, s) && s.queue == []
    ensures ToSet(s.scanned) == ReachableSet(w)
  {
    ScannedReachable(w, s);
    forall l | l in ReachableSet(w)
      ensures l in s.scanned
    {
      var n: nat :| l in Within(w, n);
      NearerIsScanned(w, s, n);
    }
  }

  function Capped(cap: int, n: nat): nat {
    if cap <= 0 then 0 else if cap < n then cap else n
  }

  /** However the loop ends, as many labels are scanned as there are reachable ones, or as the cap
      allows; without the cap biting they are all of them. */
  lemma ScannedExactly(w: World, s: Search, cap: int)
    requires Inv(w, s) && (s.queue == [] || |s.scanned| >= cap) && |s.scanned| <= (if cap > 0 then cap else 0)
    ensures |s.scanned| == Capped(cap, |ReachableSet(w)|)
    ensures |ReachableSet(w)| <= cap ==> ToSet(s.scanned) == ReachableSet(w)
  {
    ScannedReachable(w, s);
    SubsetSize(ToSet(s.scanned), ReachableSet(w));
    if s.queue == [] {
      DrainedIsReachable(w, s);
    }
  }

  lemma SubsetSize(a: set<Label>, b: set<Label>)
    requires a <= b
    ensures |a| <= |b|
    ensures |a| == |b| ==> a == b
  {
    assert b == a + (b - a);
  }
}
