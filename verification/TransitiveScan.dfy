/** The worklist loop of src/mvpc/hardening/transitive_scan.py over its mutable report. */
module TransitiveScan {
  import opened Wrappers
  import opened ImportGraph

  /** A finding with the label of its file. */
  datatype Located = Located(file: Label, finding: Finding)

  function Locate(l: Label, fs: seq<Finding>): (r: seq<Located>)
    ensures |r| == |fs|
    ensures forall k :: 0 <= k < |fs| ==> r[k] == Located(l, fs[k])
  {
    seq(|fs|, k requires 0 <= k < |fs| => Located(l, fs[k]))
  }

  function Findings(w: World, l: Label): seq<Finding>
    requires IsNode(w, l)
  {
    w.findings(Text(w, l))
  }

  ghost predicate AllNodes(w: World, scanned: seq<Label>) {
    forall l :: l in scanned ==> IsNode(w, l)
  }

  /** The findings of the scanned files, in scan order. */
  ghost function AllFindings(w: World, scanned: seq<Label>): seq<Located>
    requires AllNodes(w, scanned)
  {
    if scanned == [] then []
    else
      var l := scanned[|scanned| - 1];
      AllFindings(w, scanned[..|scanned| - 1]) + Locate(l, Findings(w, l))
  }

  /** An import is missing when it does not resolve, or leads to an unread file not scanned so far. */
  function IsMissing(w: World, seen: set<Label>, name: string): bool {
    var p := w.resolve(name);
    p.None? || (p.value !in w.files && File(p.value) !in seen)
  }

  function MissingOf(w: World, seen: set<Label>, names: seq<string>): seq<string> {
    if names == [] then []
    else
      var init := MissingOf(w, seen, names[..|names| - 1]);
      if IsMissing(w, seen, names[|names| - 1]) then init + [names[|names| - 1]] else init
  }

  ghost function AllMissing(w: World, scanned: seq<Label>): seq<string>
    requires AllNodes(w, scanned)
  {
    if scanned == [] then []
    else AllMissing(w, scanned[..|scanned| - 1]) + MissingOf(w, ToSet(scanned), Imports(w, scanned[|scanned| - 1]))
  }

  datatype Item = Item(at: Label, text: string)

  class Report {
    var clean: bool
    var filesScanned: seq<Label>
    var findings: seq<Located>
    var missingImports: seq<string>

    constructor ()
      ensures clean && filesScanned == [] && findings == [] && missingImports == []
    {
      clean, filesScanned, findings, missingImports := true, [], [], [];
    }

    /** The verdict and the findings are those of the scanned files. */
    ghost predicate FindingsOk(w: World)
      reads this
    {
      && AllNodes(w, filesScanned)
      && (clean <==> forall l :: l in filesScanned ==> Findings(w, l) == [])
      && findings == AllFindings(w, filesScanned)
    }

    /** The report says of the scanned files exactly what scanning them finds. */
    ghost predicate Accurate(w: World)
      reads this
    {
      FindingsOk(w) && missingImports == AllMissing(w, filesScanned)
    }

    method Record(w: World, at: Label, text: string)
      requires FindingsOk(w) && IsNode(w, at) && text == Text(w, at)
      modifies this`clean, this`filesScanned, this`findings
      ensures FindingsOk(w) && filesScanned == old(filesScanned) + [at]
    {
      ghost var before := filesScanned;
      filesScanned := filesScanned + [at];
      FindingsGrow(w, before, at);
      var found := w.findings(text);
      if found != [] {
        clean := false;
        findings := findings + Locate(at, found);
      } else {
        assert findings + Locate(at, found) == findings;
      }
      assert forall l :: l in filesScanned <==> l in before || l == at;
    }
  }

  lemma FindingsGrow(w: World, scanned: seq<Label>, at: Label)
    requires AllNodes(w, scanned + [at])
    ensures AllNodes(w, scanned)
    ensures AllFindings(w, scanned + [at]) == AllFindings(w, scanned) + Locate(at, Findings(w, at))
  {
    assert forall l :: l in scanned ==> l in scanned + [at];
    assert (scanned + [at])[..|scanned|] == scanned;
  }

  ghost predicate ItemsOf(w: World, queue: seq<Item>, labels: seq<Label>) {
    && |queue| == |labels|
    && forall k :: 0 <= k < |queue| ==>
      queue[k].at == labels[k] && IsNode(w, labels[k]) && queue[k].text == Text(w, labels[k])
  }

  /** The imports of a text are queued, or noted as missing. */
  method QueueImports(w: World, names: seq<string>, seen: set<Label>, queue: seq<Item>, ghost labels: seq<Label>,
                      missing: seq<string>)
    returns (queue': seq<Item>, missing': seq<string>)
    requires ItemsOf(w, queue, labels)
    ensures ItemsOf(w, queue', labels + Additions(w, seen, names))
    ensures missing' == missing + MissingOf(w, seen, names)
  {
    queue', missing' := queue, missing;
    assert labels + [] == labels && missing + [] == missing;
    for k := 0 to |names|
      invariant ItemsOf(w, queue', labels + Additions(w, seen, names[..k]))
      invariant missing' == missing + MissingOf(w, seen, names[..k])
    {
      var name := names[k];
      assert names[..k + 1][..k] == names[..k];
      var resolved := w.resolve(name);
      if resolved.None? {
        missing' := missing' + [name];
        continue;
      }
      var key := File(resolved.value);
      if key !in seen {
        if resolved.value in w.files {
          queue' := queue' + [Item(key, w.files[resolved.value])];
        } else {
          missing' := missing' + [name];
        }
      }
    }
    assert names[..|names|] == names;
  }

  /** One new file: it is reported and its imports are queued. */
  method Visit(w: World, at: Label, text: string, seen: set<Label>, queue: seq<Item>, report: Report, ghost s: Search)
    returns (queue': seq<Item>)
    requires s.queue != [] && s.queueLevels != [] && s.queue[0] == at && IsNode(w, at) && text == Text(w, at)
    requires ItemsOf(w, queue, s.queue[1..]) && seen == ToSet(s.scanned) + {at}
    requires report.Accurate(w) && report.filesScanned == s.scanned
    modifies report
    ensures report.Accurate(w) && report.filesScanned == Advance(w, s).scanned
    ensures ItemsOf(w, queue', Advance(w, s).queue)
    ensures seen == ToSet(Advance(w, s).scanned)
  {
    assert seen == ToSet(s.scanned + [at]);
    report.Record(w, at, text);
    var missing;
    queue', missing := QueueImports(w, w.imports(text), seen, queue, s.queue[1..], report.missingImports);
    report.missingImports := missing;
  }

  /** What a finished scan guarantees of the labels it scanned. */
  ghost predicate Result(w: World, maxFiles: int, scanned: seq<Label>) {
    && ToSet(scanned) <= ReachableSet(w)
    && Distinct(scanned)
    && (scanned != [] ==> scanned[0] == Entry)
    && |scanned| == Capped(maxFiles, |ReachableSet(w)|)
    && (|ReachableSet(w)| <= maxFiles ==> ToSet(scanned) == ReachableSet(w))
  }

  /** Between two turns of the loop the queue, the seen labels and the report are those of the search. */
  ghost predicate LoopInv(w: World, maxFiles: int, queue: seq<Item>, seen: set<Label>, scanned: seq<Label>, s: Search) {
    && Inv(w, s) && ItemsOf(w, queue, s.queue)
    && scanned == s.scanned && seen == ToSet(s.scanned)
    && (|s.scanned| == 0 || |s.scanned| <= maxFiles)
  }

  lemma SkipKeeps(w: World, maxFiles: int, queue: seq<Item>, seen: set<Label>, scanned: seq<Label>, s: Search)
    requires LoopInv(w, maxFiles, queue, seen, scanned, s) && |queue| > 0 && queue[0].at in seen
    ensures LoopInv(w, maxFiles, queue[1..], seen, scanned, Drop(s))
  {
    DropKeeps(w, s);
  }

  lemma VisitKeeps(w: World, maxFiles: int, queue: seq<Item>, seen: set<Label>, scanned: seq<Label>, s: Search,
                   at: Label,
                   queue': seq<Item>, seen': set<Label>, scanned': seq<Label>)
    requires LoopInv(w, maxFiles, queue, seen, scanned, s) && |queue| > 0 && |scanned| < maxFiles
    requires at == queue[0].at && at !in seen
    requires scanned' == Advance(w, s).scanned && ItemsOf(w, queue', Advance(w, s).queue)
    requires seen' == ToSet(Advance(w, s).scanned)
    ensures LoopInv(w, maxFiles, queue', seen', scanned', Advance(w, s))
    ensures at in Nodes(w)
  {
    AdvanceKeeps(w, s);
  }

  /** One turn of the loop: the front of the queue is skipped or visited. */
  method Turn(w: World, maxFiles: int, queue: seq<Item>, seen: set<Label>, report: Report, ghost s: Search)
    returns (queue': seq<Item>, seen': set<Label>, ghost s': Search)
    requires LoopInv(w, maxFiles, queue, seen, report.filesScanned, s) && report.Accurate(w)
    requires |queue| > 0 && |report.filesScanned| < maxFiles
    modifies report
    ensures LoopInv(w, maxFiles, queue', seen', report.filesScanned, s') && report.Accurate(w)
    ensures if queue[0].at in seen then seen' == seen && |queue'| < |queue|
            else queue[0].at in Nodes(w) && seen' == seen + {queue[0].at}
  {
    var at, text := queue[0].at, queue[0].text;
    if at in seen {
      SkipKeeps(w, maxFiles, queue, seen, report.filesScanned, s);
      return queue[1..], seen, Drop(s);
    }
    ghost var scanned := report.filesScanned;
    seen' := seen + {at};
    queue' := Visit(w, at, text, seen', queue[1..], report, s);
    VisitKeeps(w, maxFiles, queue, seen, scanned, s, at, queue', seen', report.filesScanned);
    s' := Advance(w, s);
  }

  /** The scan. Besides the report it returns, for the specification only, the distance of every
      scanned label from the entry. */
  method Scan(w: World, maxFiles: int) returns (report: Report, ghost levels: seq<nat>)
    ensures fresh(report) && report.Accurate(w)
    ensures Result(w, maxFiles, report.filesScanned)
    ensures |levels| == |report.filesScanned| && Sorted(levels)
    ensures forall k :: 0 <= k < |levels| ==> IsDistance(w, report.filesScanned[k], levels[k])
  {
    report := new Report();
    var queue, seen: set<Label> := [Item(Entry, w.entry)], {};
    ghost var s := Start();
    StartOk(w);
    while |queue| > 0 && |report.filesScanned| < maxFiles
      invariant LoopInv(w, maxFiles, queue, seen, report.filesScanned, s)
      invariant fresh(report) && report.Accurate(w)
      decreases Nodes(w) - seen, |queue|
    {
      queue, seen, s := Turn(w, maxFiles, queue, seen, report, s);
    }
    levels := s.levels;
    SearchDone(w, s, maxFiles);
  }

  lemma SearchDone(w: World, s: Search, maxFiles: int)
    requires Inv(w, s) && (|s.queue| == 0 || |s.scanned| >= maxFiles)
    requires |s.scanned| == 0 || |s.scanned| <= maxFiles
    ensures Result(w, maxFiles, s.scanned)
    ensures |s.levels| == |s.scanned| && Sorted(s.levels)
    ensures forall k :: 0 <= k < |s.levels| ==> IsDistance(w, s.scanned[k], s.levels[k])
  {
    ScannedExactly(w, s, maxFiles);
    ScannedReachable(w, s);
    SortedPrefix(s.levels, s.queueLevels);
    if s.scanned != [] {
      EntryFirst(w, s);
    }
  }

  lemma EntryFirst(w: World, s: Search)
    requires Inv(w, s) && Sorted(s.levels) && s.scanned != []
    ensures s.scanned[0] == Entry
  {
    var k :| 0 <= k < |s.scanned| && s.scanned[k] == Entry;
    assert Entry in Within(w, 0);
    assert IsDistance(w, s.scanned[k], s.levels[k]) && IsDistance(w, s.scanned[0], s.levels[0]);
    assert s.levels[k] == 0;
    assert s.levels[0] == 0;
  }

  lemma SortedPrefix(a: seq<nat>, b: seq<nat>)
    requires Sorted(a + b)
    ensures Sorted(a)
  {
    forall i, j | 0 <= i < j < |a|
      ensures a[i] <= a[j]
    {
      assert (a + b)[i] == a[i] && (a + b)[j] == a[j];
    }
  }

  // ----- What "clean" means

  ghost predicate AllClean(w: World, ls: set<Label>) {
    forall l :: l in ls && IsNode(w, l) ==> Findings(w, l) == []
  }

  /** The verdict on the scanned files is the one on all reachable files. */
  ghost predicate VerdictRight(w: World, scanned: seq<Label>) {
    AllClean(w, ToSet(scanned)) <==> AllClean(w, ReachableSet(w))
  }

  lemma EdgeIgnoresFindings(w: World, f: string -> seq<Finding>, l: Label, m: Label)
    ensures Edge(w.(findings := f), l, m) <==> Edge(w, l, m)
  {
    var w' := w.(findings := f);
    if IsNode(w, l) {
      assert Imports(w', l) == Imports(w, l);
      assert forall k :: 0 <= k < |Imports(w, l)| ==> Target(w', Imports(w', l)[k]) == Target(w, Imports(w, l)[k]);
    }
  }

  lemma {:induction false} WithinIgnoresFindings(w: World, f: string -> seq<Finding>, n: nat)
    ensures Within(w.(findings := f), n) == Within(w, n)
  {
    if n > 0 {
      WithinIgnoresFindings(w, f, n - 1);
      forall l, m
        ensures Edge(w.(findings := f), l, m) <==> Edge(w, l, m)
      {
        EdgeIgnoresFindings(w, f, l, m);
      }
    }
  }

  /** What is reachable does not depend on the scanner. */
  lemma ReachableIgnoresFindings(w: World, f: string -> seq<Finding>)
    ensures ReachableSet(w.(findings := f)) == ReachableSet(w)
  {
    var w' := w.(findings := f);
    assert Nodes(w') == Nodes(w);
    forall l
      ensures Reachable(w', l) <==> Reachable(w, l)
    {
      forall n: nat
        ensures Within(w', n) == Within(w, n)
      {
        WithinIgnoresFindings(w, f, n);
      }
    }
  }

  /** Every reachable file has the text of some scanned one. */
  ghost predicate TextsCovered(w: World, scanned: seq<Label>) {
    forall l :: l in ReachableSet(w) ==> exists m :: m in scanned && IsNode(w, m) && Text(w, m) == Text(w, l)
  }

  ghost predicate TextsApart(w: World) {
    forall l, m :: IsNode(w, l) && IsNode(w, m) && Text(w, l) == Text(w, m) ==> l == m
  }

  /** A scanner that objects to one text only. */
  function OnlyFlags(text: string): string -> seq<Finding> {
    t => if t == text then [Finding("rule", 1, t)] else []
  }

  /** The cap hides dirt: a scanner that objects only to a left-out file's text finds every scanned
      file clean, whatever the cap. */
  lemma CapHidesDirt(w: World, scanned: seq<Label>, lib: Label)
    requires lib in ReachableSet(w)
    requires forall m :: m in scanned && IsNode(w, m) ==> Text(w, m) != Text(w, lib)
    ensures
      var w' := w.(findings := OnlyFlags(Text(w, lib)));
      AllClean(w', ToSet(scanned)) && !AllClean(w', ReachableSet(w'))
  {
    var f := OnlyFlags(Text(w, lib));
    var w' := w.(findings := f);
    ReachableIgnoresFindings(w, f);
    assert Findings(w', lib) == f(Text(w, lib)) && |Findings(w', lib)| == 1;
    forall l | l in ToSet(scanned) && IsNode(w', l)
      ensures Findings(w', l) == []
    {
      assert Text(w, l) != Text(w, lib);
    }
  }

  /** The verdict is right for every scanner exactly when no reachable text was left out. */
  lemma RightForAllScannersIff(w: World, scanned: seq<Label>)
    requires ToSet(scanned) <= ReachableSet(w)
    ensures (forall f: string -> seq<Finding> :: VerdictRight(w.(findings := f), scanned)) <==> TextsCovered(w, scanned)
  {
    if TextsCovered(w, scanned) {
      forall f: string -> seq<Finding>
        ensures VerdictRight(w.(findings := f), scanned)
      {
        ReachableIgnoresFindings(w, f);
      }
    } else {
      var l :| l in ReachableSet(w) && !exists m :: m in scanned && IsNode(w, m) && Text(w, m) == Text(w, l);
      CapHidesDirt(w, scanned, l);
      assert !VerdictRight(w.(findings := OnlyFlags(Text(w, l))), scanned);
    }
  }

  lemma CoveredIff(w: World, maxFiles: int, scanned: seq<Label>)
    requires Result(w, maxFiles, scanned) && TextsApart(w)
    ensures TextsCovered(w, scanned) <==> |ReachableSet(w)| <= maxFiles
  {
    if TextsCovered(w, scanned) {
      forall l | l in ReachableSet(w)
        ensures l in ToSet(scanned)
      {
        var m :| m in scanned && IsNode(w, m) && Text(w, m) == Text(w, l);
      }
      assert ToSet(scanned) == ReachableSet(w);
      DistinctSize(scanned);
      assert Entry in Within(w, 0);
      assert Entry in ReachableSet(w);
    }
    if |ReachableSet(w)| <= maxFiles {
      forall l | l in ReachableSet(w)
        ensures exists m :: m in scanned && IsNode(w, m) && Text(w, m) == Text(w, l)
      {
        assert l in scanned && IsNode(w, l);
      }
    }
  }

  /** When the files have different texts, the cap is enough for a right verdict under every scanner
      exactly when it is at least the number of reachable files. */
  lemma CleanVerdict(w: World, maxFiles: int, scanned: seq<Label>)
    requires Result(w, maxFiles, scanned) && TextsApart(w)
    ensures |ReachableSet(w)| <= maxFiles <==>
      forall f: string -> seq<Finding> :: VerdictRight(w.(findings := f), scanned)
  {
    RightForAllScannersIff(w, scanned);
    CoveredIff(w, maxFiles, scanned);
  }

  /** Within the cap the verdict covers every reachable file, equal texts or not. */
  lemma WithinCapIsRight(w: World, maxFiles: int, scanned: seq<Label>)
    requires Result(w, maxFiles, scanned) && |ReachableSet(w)| <= maxFiles
    ensures VerdictRight(w, scanned)
  {
  }

  // ----- Every cap is too small for some project

  function Row(n: nat): string {
    seq(n, k => 'f')
  }

  /** Files "f", "ff" and so on up to `n`, each holding its own name. */
  function Rows(n: nat): (files: map<string, string>)
    ensures forall p :: p in files <==> exists k :: 1 <= k <= n && p == Row(k)
    ensures forall p :: p in files ==> files[p] == p && |p| > 0
  {
    if n == 0 then map[] else Rows(n - 1)[Row(n) := Row(n)]
  }

  /** An empty entry that imports `n` files, none of which imports anything. */
  function Star(n: nat): World {
    World("", Rows(n), name => Some(name),
          text => if |text| == 0 then seq(n, k requires 0 <= k => Row(k + 1)) else [], text => [])
  }

  lemma StarReaches(n: nat, k: nat)
    requires 1 <= k <= n
    ensures File(Row(k)) in ReachableSet(Star(n))
  {
    var w := Star(n);
    assert Row(k) in w.files;
    assert Imports(w, Entry)[k - 1] == Row(k);
    assert Target(w, Imports(w, Entry)[k - 1]) == Some(File(Row(k)));
    assert Entry in Within(w, 0);
    EdgeWithin(w, Entry, File(Row(k)), 0);
  }

  lemma {:induction false} RowLabels(n: nat) returns (ls: set<Label>)
    ensures |ls| == n && forall l :: l in ls ==> l.File? && exists k :: 1 <= k <= n && l == File(Row(k))
  {
    ls := {};
    if n > 0 {
      var fewer := RowLabels(n - 1);
      assert forall k: nat :: |Row(k)| == k;
      ls := fewer + {File(Row(n))};
    }
  }

  lemma StarContains(n: nat, ls: set<Label>)
    requires forall l :: l in ls ==> l.File? && exists k :: 1 <= k <= n && l == File(Row(k))
    ensures ls <= ReachableSet(Star(n)) && Entry in ReachableSet(Star(n))
  {
    assert Entry in Within(Star(n), 0);
    forall l | l in ls
      ensures l in ReachableSet(Star(n))
    {
      var k :| 1 <= k <= n && l == File(Row(k));
      StarReaches(n, k);
    }
  }

  lemma OneMore(some: set<Label>, l: Label, all: set<Label>)
    requires some <= all && l in all && l !in some
    ensures |all| > |some|
  {
    SubsetSize(some + {l}, all);
  }

  lemma StarOverflows(n: nat)
    ensures |ReachableSet(Star(n))| > n
  {
    var ls := RowLabels(n);
    StarContains(n, ls);
    OneMore(ls, Entry, ReachableSet(Star(n)));
  }

  /** For every cap, the default of 50 among them, there is a project and a scanner for which the
      capped verdict is wrong. */
  lemma EveryCapFails(cap: nat, scanned: seq<Label>)
    requires Result(Star(cap), cap, scanned)
    ensures exists f: string -> seq<Finding> :: !VerdictRight(Star(cap).(findings := f), scanned)
  {
    StarOverflows(cap);
    CleanVerdict(Star(cap), cap, scanned);
  }
}
