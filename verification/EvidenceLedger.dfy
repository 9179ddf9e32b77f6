/** The evidence ledger of src/mvpc/ledger.py: a hash-linked list of entries and an index from
    each parent to its children, which must tell the same story. */
module EvidenceLedger {
  import opened Wrappers
  import opened Hashing
  import opened JsonValues

  type Payload = map<string, Json>

  const ALLOW_BRANCH := "allow_branch"

  datatype Entry = Entry(
    sequence: nat, entryHash: string, previous: Option<string>, payloadHash: string,
    kind: string, createdAt: string, payload: Payload)

  type Hasher = Json -> string

  /** What an entry hash is computed from. */
  function Body(e: Entry): Json {
    Obj(map["sequence" := Int(e.sequence),
            "previous_hash" := (if e.previous.Some? then Str(e.previous.value) else Null),
            "payload_hash" := Str(e.payloadHash), "kind" := Str(e.kind),
            "created_at" := Str(e.createdAt), "payload" := Obj(e.payload)])
  }

  function Tip(entries: seq<Entry>): Option<string> {
    if entries == [] then None else Some(entries[|entries| - 1].entryHash)
  }

  function NewEntry(hash: Hasher, entries: seq<Entry>, kind: string, createdAt: string, payload: Payload): Entry {
    var e := Entry(|entries|, "", Tip(entries), hash(Obj(payload)), kind, createdAt, payload);
    e.(entryHash := hash(Body(e)))
  }

  type ParentIndex = map<Option<string>, seq<string>>

  function Kids(byPrev: ParentIndex, parent: Option<string>): seq<string> {
    if parent in byPrev then byPrev[parent] else []
  }

  datatype State = State(entries: seq<Entry>, byPrev: ParentIndex)

  /** The state after an append; `None` where the fork guard raises. */
  function AppendTo(hash: Hasher, st: State, kind: string, createdAt: string, payload: Payload): Option<State> {
    var tip := Tip(st.entries);
    if |Kids(st.byPrev, tip)| > 0 && !Truthy(Get(payload, ALLOW_BRANCH)) then None
    else
      var e := NewEntry(hash, st.entries, kind, createdAt, payload);
      Some(State(st.entries + [e], st.byPrev[tip := Kids(st.byPrev, tip) + [e.entryHash]]))
  }

  datatype ErrorKind = PreviousHash | PayloadHash

  datatype Error = Error(kind: ErrorKind, position: nat)

  function Stripped(payload: Payload): Payload {
    map key | key in payload && key != ALLOW_BRANCH :: payload[key]
  }

  function EntryErrors(hash: Hasher, e: Entry, k: nat, prev: Option<string>): seq<Error> {
    (if e.previous != prev then [Error(PreviousHash, k)] else [])
    + (if hash(Obj(e.payload)) != e.payloadHash && hash(Obj(Stripped(e.payload))) != e.payloadHash
       then [Error(PayloadHash, k)] else [])
  }

  function ChainErrors(hash: Hasher, entries: seq<Entry>): seq<Error> {
    if entries == [] then []
    else
      var n := |entries| - 1;
      ChainErrors(hash, entries[..n]) + EntryErrors(hash, entries[n], n, Tip(entries[..n]))
  }

  /** Reloading a saved ledger: every item is appended again, marked as an allowed branch. */
  function Reload(hash: Hasher, items: seq<Entry>, clock: nat -> string): Option<State>
    decreases |items|
  {
    if items == [] then Some(State([], map[]))
    else
      var n := |items| - 1;
      match Reload(hash, items[..n], clock)
      case None => None
      case Some(st) => AppendTo(hash, st, items[n].kind, clock(n), items[n].payload[ALLOW_BRANCH := Bool(true)])
  }

  class Ledger {
    const hash: Hasher
    var entries: seq<Entry>
    var byPrev: ParentIndex

    constructor (hash: Hasher)
      ensures this.hash == hash && entries == [] && byPrev == map[]
    {
      this.hash, entries, byPrev := hash, [], map[];
    }

    function Now(): State
      reads this
    {
      State(entries, byPrev)
    }

    method Append(kind: string, createdAt: string, payload: Payload) returns (entry: Option<Entry>)
      modifies this
      ensures AppendTo(hash, old(Now()), kind, createdAt, payload).None? ==>
        entry == None && entries == old(entries) && (forall p :: Kids(byPrev, p) == Kids(old(byPrev), p))
      ensures AppendTo(hash, old(Now()), kind, createdAt, payload).Some? ==>
        entry == Some(NewEntry(hash, old(entries), kind, createdAt, payload))
        && Now() == AppendTo(hash, old(Now()), kind, createdAt, payload).value
    {
      var prev := Tip(entries);
      var e := NewEntry(hash, entries, kind, createdAt, payload);
      if prev !in byPrev {
        byPrev := byPrev[prev := []];
      }
      var kids := byPrev[prev];
      if |kids| > 0 && !Truthy(Get(payload, ALLOW_BRANCH)) {
        return None;
      }
      byPrev := byPrev[prev := kids + [e.entryHash]];
      entries := entries + [e];
      entry := Some(e);
    }

    method VerifyChain() returns (errors: seq<Error>)
      ensures errors == ChainErrors(hash, entries)
    {
      errors := [];
      var prev: Option<string> := None;
      for k := 0 to |entries|
        invariant errors == ChainErrors(hash, entries[..k]) && prev == Tip(entries[..k])
      {
        var e := entries[k];
        assert entries[..k + 1][..k] == entries[..k];
        ghost var before := errors;
        var first, second := [], [];
        if e.previous != prev {
          first := [Error(PreviousHash, k)];
        }
        if hash(Obj(e.payload)) != e.payloadHash && hash(Obj(Stripped(e.payload))) != e.payloadHash {
          second := [Error(PayloadHash, k)];
        }
        errors := errors + (first + second);
        prev := Some(e.entryHash);
      }
      assert entries[..|entries|] == entries;
    }

    /** The ledger is rebuilt from the saved items; marked appends never raise. */
    method Load(items: seq<Entry>, clock: nat -> string)
      requires entries == [] && byPrev == map[]
      modifies this
      ensures Reload(hash, items, clock) == Some(Now())
    {
      for k := 0 to |items|
        invariant Reload(hash, items[..k], clock) == Some(Now())
      {
        assert items[..k + 1][..k] == items[..k];
        var payload := items[k].payload[ALLOW_BRANCH := Bool(true)];
        assert Truthy(Get(payload, ALLOW_BRANCH));
        var entry := Append(items[k].kind, clock(k), payload);
      }
      assert items[..|items|] == items;
    }
  }

  // ----- The list

  /** Entry `k` is numbered `k`, linked to the entry before, and hashed from its own content. */
  ghost predicate LinkOk(hash: Hasher, entries: seq<Entry>, k: nat)
    requires k < |entries|
  {
    && entries[k].sequence == k
    && entries[k].previous == Tip(entries[..k])
    && entries[k].payloadHash == hash(Obj(entries[k].payload))
    && entries[k].entryHash == hash(Contents(entries[k]))
  }

  /** Everything an entry says but its own hash. */
  ghost function Contents(e: Entry): Json {
    Obj(map["sequence" := Int(e.sequence), "payload_hash" := Str(e.payloadHash), "kind" := Str(e.kind),
            "created_at" := Str(e.createdAt), "payload" := Obj(e.payload),
            "previous_hash" := match e.previous
                               case None => Null
                               case Some(h) => Str(h)])
  }

  lemma BodyIsContents(e: Entry)
    ensures Body(e) == Contents(e)
  {
    assert Body(e).fields.Keys == Contents(e).fields.Keys;
    assert Body(e).fields == Contents(e).fields;
  }

  /** Only one entry, but for its hash, has these contents. */
  lemma ContentsDecode(d: Entry, e: Entry)
    requires Contents(d) == Contents(e)
    ensures d.(entryHash := e.entryHash) == e
  {
    var a, b := Contents(d).fields, Contents(e).fields;
    assert a["sequence"] == b["sequence"] && a["payload_hash"] == b["payload_hash"] && a["kind"] == b["kind"];
    assert a["created_at"] == b["created_at"] && a["payload"] == b["payload"];
    assert a["previous_hash"] == b["previous_hash"];
  }

  ghost predicate Chained(hash: Hasher, entries: seq<Entry>) {
    forall k :: 0 <= k < |entries| ==> LinkOk(hash, entries, k)
  }

  /** The parent of entry `k` of a chain. */
  lemma LinkAt(hash: Hasher, entries: seq<Entry>, k: nat)
    requires Chained(hash, entries) && k < |entries|
    ensures LinkOk(hash, entries, k)
    ensures entries[k].previous == if k == 0 then None else Some(entries[k - 1].entryHash)
  {
    assert LinkOk(hash, entries, k);
    if k > 0 {
      assert entries[..k][k - 1] == entries[k - 1];
    }
  }

  lemma AppendChains(hash: Hasher, entries: seq<Entry>, kind: string, createdAt: string, payload: Payload)
    requires Chained(hash, entries)
    ensures Chained(hash, entries + [NewEntry(hash, entries, kind, createdAt, payload)])
  {
    var all := entries + [NewEntry(hash, entries, kind, createdAt, payload)];
    forall k | 0 <= k < |all|
      ensures LinkOk(hash, all, k)
    {
      assert all[..k] == entries[..k];
      if k < |entries| {
        assert LinkOk(hash, entries, k) && all[k] == entries[k];
      } else {
        assert entries[..k] == entries;
        BodyIsContents(NewEntry(hash, entries, kind, createdAt, payload).(entryHash := ""));
      }
    }
  }

  lemma ChainedPrefix(hash: Hasher, entries: seq<Entry>, n: nat)
    requires Chained(hash, entries) && n <= |entries|
    ensures Chained(hash, entries[..n])
  {
    forall k | 0 <= k < n
      ensures LinkOk(hash, entries[..n], k)
    {
      assert entries[..n][..k] == entries[..k];
      assert LinkOk(hash, entries, k);
    }
  }

  /** A chained list verifies without errors. */
  lemma {:induction false} ChainedVerifies(hash: Hasher, entries: seq<Entry>)
    requires Chained(hash, entries)
    ensures ChainErrors(hash, entries) == []
  {
    if entries != [] {
      var n := |entries| - 1;
      ChainedPrefix(hash, entries, n);
      ChainedVerifies(hash, entries[..n]);
      assert LinkOk(hash, entries, n);
    }
  }

  /** The entry names the hash recorded in the entry before it, and its payload, with or without the branch
      flag, has the recorded hash. */
  ghost predicate EntryHolds(hash: Hasher, entries: seq<Entry>, k: nat)
    requires k < |entries|
  {
    && entries[k].previous == (if k == 0 then None else Some(entries[k - 1].entryHash))
    && entries[k].payloadHash in {hash(Obj(entries[k].payload)), hash(Obj(entries[k].payload - {"allow_branch"}))}
  }

  lemma StrippedIs(payload: Payload)
    ensures Stripped(payload) == payload - {"allow_branch"}
  {
  }

  /** Verification finds nothing exactly when every parent link and every payload hash holds. */
  lemma {:induction false} VerifiesIff(hash: Hasher, entries: seq<Entry>)
    ensures |ChainErrors(hash, entries)| == 0 <==> forall k :: 0 <= k < |entries| ==> EntryHolds(hash, entries, k)
  {
    if |entries| > 0 {
      var n := |entries| - 1;
      var init := entries[..n];
      VerifiesIff(hash, init);
      assert forall k :: 0 <= k < n ==> (EntryHolds(hash, init, k) <==> EntryHolds(hash, entries, k));
      assert Tip(init) == if n == 0 then None else Some(entries[n - 1].entryHash);
      StrippedIs(entries[n].payload);
      assert |EntryErrors(hash, entries[n], n, Tip(init))| == 0 <==> EntryHolds(hash, entries, n);
    }
  }

  /** The errors and where they are: every link and every payload that does not hold, and nothing else. */
  lemma {:induction false} ErrorsFound(hash: Hasher, entries: seq<Entry>, k: nat)
    ensures Error(PreviousHash, k) in ChainErrors(hash, entries)
       <==> k < |entries| && entries[k].previous != (if k == 0 then None else Some(entries[k - 1].entryHash))
    ensures Error(PayloadHash, k) in ChainErrors(hash, entries)
       <==> && k < |entries| && entries[k].payloadHash != hash(Obj(entries[k].payload))
            && entries[k].payloadHash != hash(Obj(entries[k].payload - {"allow_branch"}))
  {
    if |entries| > 0 {
      var n := |entries| - 1;
      ErrorsFound(hash, entries[..n], k);
      StrippedIs(entries[n].payload);
      assert Tip(entries[..n]) == if n == 0 then None else Some(entries[n - 1].entryHash);
    }
  }

  /** The entries agree in what verification looks at: links, payloads, payload hashes, and the entry hashes that
      a later entry names. */
  ghost predicate LookAlike(entries: seq<Entry>, other: seq<Entry>) {
    && |entries| == |other|
    && forall k :: 0 <= k < |entries| ==>
      && entries[k].previous == other[k].previous && entries[k].payload == other[k].payload
      && entries[k].payloadHash == other[k].payloadHash
      && (k < |entries| - 1 ==> entries[k].entryHash == other[k].entryHash)
  }

  /** Entry hashes are never recomputed: what is not looked at can be edited unnoticed. */
  lemma EditUnnoticed(hash: Hasher, entries: seq<Entry>, other: seq<Entry>)
    requires LookAlike(entries, other)
    ensures |ChainErrors(hash, entries)| == 0 <==> |ChainErrors(hash, other)| == 0
  {
    VerifiesIff(hash, entries);
    VerifiesIff(hash, other);
    assert forall k :: 0 <= k < |entries| ==> (EntryHolds(hash, entries, k) <==> EntryHolds(hash, other, k));
  }

  /** Among the edits that pass: another kind, time or number for any entry, another hash for the last. */
  lemma KindEditUnnoticed(hash: Hasher, entries: seq<Entry>, k: nat, kind: string, createdAt: string, sequence: nat,
                          last: string)
    requires k < |entries| && |ChainErrors(hash, entries)| == 0
    ensures
      var e := entries[k].(kind := kind, createdAt := createdAt, sequence := sequence);
      var edited := entries[k := if k == |entries| - 1 then e.(entryHash := last) else e];
      |ChainErrors(hash, edited)| == 0
  {
    var e := entries[k].(kind := kind, createdAt := createdAt, sequence := sequence);
    EditUnnoticed(hash, entries, entries[k := if k == |entries| - 1 then e.(entryHash := last) else e]);
  }

  /** Two entries of a chain with one hash are a collision: their bodies differ in the number. */
  lemma EqualHashesCollide(hash: Hasher, entries: seq<Entry>, i: nat, j: nat)
    requires Chained(hash, entries) && i < j < |entries| && entries[i].entryHash == entries[j].entryHash
    ensures CollidesOn(hash, (Body(entries[i]), Body(entries[j])))
  {
    assert LinkOk(hash, entries, i) && LinkOk(hash, entries, j);
    BodyIsContents(entries[i]);
    BodyIsContents(entries[j]);
    var a, b := Body(entries[i]).fields, Body(entries[j]).fields;
    assert a["sequence"] == Int(i) && b["sequence"] == Int(j);
    assert a["sequence"] != b["sequence"];
  }

  /** The contents that collide when two chains with one last hash differ: the last pair that is not equal, counting
      from the ends. */
  function ChainCollision(entries: seq<Entry>, other: seq<Entry>): (Json, Json) {
    if entries == [] || other == [] then (Null, Null)
    else
      var d, e := entries[|entries| - 1], other[|other| - 1];
      if Body(d) != Body(e) then (Body(d), Body(e))
      else ChainCollision(entries[..|entries| - 1], other[..|other| - 1])
  }

  lemma EqualPrefixes(entries: seq<Entry>, other: seq<Entry>)
    requires entries != [] && other != []
    requires entries[..|entries| - 1] == other[..|other| - 1] && entries[|entries| - 1] == other[|other| - 1]
    ensures entries == other
  {
    assert entries == entries[..|entries| - 1] + [entries[|entries| - 1]];
    assert other == other[..|other| - 1] + [other[|other| - 1]];
  }

  /** The last hash binds the whole list: two chains that end in the same hash are equal entry by entry, or two
      contents with one hash are named. */
  lemma {:induction false} TipBinds(hash: Hasher, entries: seq<Entry>, other: seq<Entry>)
    requires Chained(hash, entries) && Chained(hash, other) && Tip(entries) == Tip(other)
    ensures entries == other || CollidesOn(hash, ChainCollision(entries, other))
    decreases |entries|
  {
    if entries != [] {
      var n, m := |entries| - 1, |other| - 1;
      var d, e := entries[n], other[m];
      assert LinkOk(hash, entries, n) && LinkOk(hash, other, m);
      BodyIsContents(d);
      BodyIsContents(e);
      if Body(d) == Body(e) {
        ContentsDecode(d, e);
        ChainedPrefix(hash, entries, n);
        ChainedPrefix(hash, other, m);
        TipBinds(hash, entries[..n], other[..m]);
        if entries[..n] == other[..m] {
          EqualPrefixes(entries, other);
        }
      }
    }
  }

  // ----- The index

  /** The children of `parent` in the list, in order. */
  function Children(entries: seq<Entry>, parent: Option<string>): seq<string> {
    if entries == [] then []
    else
      var n := |entries| - 1;
      Children(entries[..n], parent) + (if entries[n].previous == parent then [entries[n].entryHash] else [])
  }

  /** The index lists for every parent exactly its children, and nothing else. */
  ghost predicate Indexed(st: State) {
    && (forall p :: Kids(st.byPrev, p) == Children(st.entries, p))
    && (forall p :: p in st.byPrev <==> exists k :: 0 <= k < |st.entries| && st.entries[k].previous == p)
  }

  lemma AppendIndexes(hash: Hasher, st: State, kind: string, createdAt: string, payload: Payload)
    requires Indexed(st) && AppendTo(hash, st, kind, createdAt, payload).Some?
    ensures Indexed(AppendTo(hash, st, kind, createdAt, payload).value)
  {
    var e := NewEntry(hash, st.entries, kind, createdAt, payload);
    var next := AppendTo(hash, st, kind, createdAt, payload).value;
    var all := st.entries + [e];
    assert all[..|st.entries|] == st.entries && all[|st.entries|] == e;
    forall p
      ensures Kids(next.byPrev, p) == Children(all, p)
    {
      assert Kids(st.byPrev, p) == Children(st.entries, p);
    }
    forall p
      ensures p in next.byPrev <==> exists k :: 0 <= k < |all| && all[k].previous == p
    {
      if p in st.byPrev {
        var k :| 0 <= k < |st.entries| && st.entries[k].previous == p;
        assert all[k].previous == p;
      }
      if exists k :: 0 <= k < |all| && all[k].previous == p {
        var k :| 0 <= k < |all| && all[k].previous == p;
        assert k < |st.entries| ==> st.entries[k].previous == p;
      }
    }
  }

  /** Where an entry is the parent of an entry before the last one. */
  function ParentOf(entries: seq<Entry>, parent: Option<string>): nat {
    if entries == [] then 0
    else if entries[|entries| - 1].previous == parent then |entries| - 1
    else ParentOf(entries[..|entries| - 1], parent)
  }

  lemma {:induction false} ParentFound(entries: seq<Entry>, parent: Option<string>)
    requires Children(entries, parent) != []
    ensures ParentOf(entries, parent) < |entries| && entries[ParentOf(entries, parent)].previous == parent
  {
    if entries[|entries| - 1].previous != parent {
      ParentFound(entries[..|entries| - 1], parent);
    }
  }

  /** The two bodies that collide when the fork guard fires on a chained ledger. */
  function ForkCollision(entries: seq<Entry>): (Json, Json) {
    var k := ParentOf(entries, Tip(entries));
    if 0 < k < |entries| then (Body(entries[k - 1]), Body(entries[|entries| - 1])) else (Null, Null)
  }

  /** The fork guard never fires on a ledger built by appends, short of a hash collision. */
  lemma ForkMeansCollision(hash: Hasher, st: State, kind: string, createdAt: string, payload: Payload)
    requires Chained(hash, st.entries) && Indexed(st)
    requires AppendTo(hash, st, kind, createdAt, payload).None?
    ensures CollidesOn(hash, ForkCollision(st.entries))
  {
    var entries, tip := st.entries, Tip(st.entries);
    assert Kids(st.byPrev, tip) == Children(entries, tip);
    ParentFound(entries, tip);
    var k := ParentOf(entries, tip);
    LinkAt(hash, entries, k);
    EqualHashesCollide(hash, entries, k - 1, |entries| - 1);
  }

  lemma {:induction false} HasChildIff(entries: seq<Entry>, parent: Option<string>)
    ensures Children(entries, parent) != [] <==> exists k :: 0 <= k < |entries| && entries[k].previous == parent
  {
    if entries != [] {
      HasChildIff(entries[..|entries| - 1], parent);
    }
  }

  /** On an indexed ledger an append is refused exactly when the last hash already has a child and the payload does
      not ask for a branch. */
  lemma RefusedIff(hash: Hasher, st: State, kind: string, createdAt: string, payload: Payload)
    requires Indexed(st)
    ensures AppendTo(hash, st, kind, createdAt, payload).None?
       <==> && st.entries != []
            && (var tip := st.entries[|st.entries| - 1].entryHash;
                exists k :: 0 <= k < |st.entries| && st.entries[k].previous == Some(tip))
            && ("allow_branch" !in payload || !Truthy(payload["allow_branch"]))
  {
    HasChildIff(st.entries, Tip(st.entries));
    assert Kids(st.byPrev, Tip(st.entries)) == Children(st.entries, Tip(st.entries));
  }

  /** Pairwise distinct entry hashes: what a collision-free hash gives. */
  ghost predicate DistinctHashes(entries: seq<Entry>) {
    forall i, j :: 0 <= i < j < |entries| ==> entries[i].entryHash != entries[j].entryHash
  }

  function Before(entries: seq<Entry>, k: nat): Option<string>
    requires k <= |entries|
  {
    if k == 0 then None else Some(entries[k - 1].entryHash)
  }

  /** In a chain without equal hashes an entry's parent is the one before it and no other. */
  lemma OneParent(hash: Hasher, entries: seq<Entry>, k: nat, n: nat)
    requires Chained(hash, entries) && DistinctHashes(entries) && k <= |entries| && n < |entries|
    ensures entries[n].previous == Before(entries, k) <==> k == n
  {
    LinkAt(hash, entries, n);
    if k > 0 && n > 0 {
      assert k < n ==> entries[k - 1].entryHash != entries[n - 1].entryHash;
      assert n < k ==> entries[n - 1].entryHash != entries[k - 1].entryHash;
    }
  }

  /** In such a chain every entry but the last has exactly one child, its successor, and the last
      has none. */
  lemma {:induction false} OneChildEach(hash: Hasher, entries: seq<Entry>, k: nat)
    requires Chained(hash, entries) && DistinctHashes(entries) && k <= |entries|
    ensures Children(entries, Before(entries, k)) == if k < |entries| then [entries[k].entryHash] else []
    decreases |entries|
  {
    if |entries| > 0 {
      var n := |entries| - 1;
      var init := entries[..n];
      OneParent(hash, entries, k, n);
      if k <= n {
        ChainedPrefix(hash, entries, n);
        OneChildEach(hash, init, k);
      } else {
        NoChild(hash, entries, n, n);
      }
    }
  }

  /** No entry up to number `m` has the last one, or a later one, as its parent. */
  lemma {:induction false} NoChild(hash: Hasher, entries: seq<Entry>, m: nat, last: nat)
    requires Chained(hash, entries) && DistinctHashes(entries) && m <= last + 1 && last < |entries|
    ensures Children(entries[..m], Some(entries[last].entryHash)) == []
  {
    if m > 0 {
      assert entries[..m][..m - 1] == entries[..m - 1];
      assert entries[..m][m - 1] == entries[m - 1];
      LinkAt(hash, entries, m - 1);
      NoChild(hash, entries, m - 1, last);
    }
  }

  // ----- Whole runs

  datatype Request = Request(kind: string, createdAt: string, payload: Payload)

  function RunAll(hash: Hasher, requests: seq<Request>): Option<State>
    decreases |requests|
  {
    if requests == [] then Some(State([], map[]))
    else
      var r := requests[|requests| - 1];
      match RunAll(hash, requests[..|requests| - 1])
      case None => None
      case Some(st) => AppendTo(hash, st, r.kind, r.createdAt, r.payload)
  }

  /** The list is a verified chain and the index agrees with it. */
  ghost predicate Consistent(hash: Hasher, st: State) {
    Chained(hash, st.entries) && Indexed(st) && ChainErrors(hash, st.entries) == []
  }

  ghost predicate Records(entries: seq<Entry>, requests: seq<Request>) {
    && |entries| == |requests|
    && forall k :: 0 <= k < |requests| ==>
      && entries[k].kind == requests[k].kind && entries[k].payload == requests[k].payload
      && entries[k].createdAt == requests[k].createdAt
  }

  lemma RecordsOneMore(entries: seq<Entry>, requests: seq<Request>, e: Entry, r: Request)
    requires Records(entries, requests) && e.kind == r.kind && e.payload == r.payload && e.createdAt == r.createdAt
    ensures Records(entries + [e], requests + [r])
  {
  }

  lemma RunOneMore(hash: Hasher, st: State, requests: seq<Request>, r: Request)
    requires Consistent(hash, st) && Records(st.entries, requests)
    requires AppendTo(hash, st, r.kind, r.createdAt, r.payload).Some?
    ensures
      var next := AppendTo(hash, st, r.kind, r.createdAt, r.payload).value;
      Consistent(hash, next) && Records(next.entries, requests + [r])
  {
    AppendConsistent(hash, st, r.kind, r.createdAt, r.payload);
    RecordsOneMore(st.entries, requests, NewEntry(hash, st.entries, r.kind, r.createdAt, r.payload), r);
  }

  lemma AppendConsistent(hash: Hasher, st: State, kind: string, createdAt: string, payload: Payload)
    requires Consistent(hash, st) && AppendTo(hash, st, kind, createdAt, payload).Some?
    ensures Consistent(hash, AppendTo(hash, st, kind, createdAt, payload).value)
  {
    AppendChains(hash, st.entries, kind, createdAt, payload);
    AppendIndexes(hash, st, kind, createdAt, payload);
    ChainedVerifies(hash, AppendTo(hash, st, kind, createdAt, payload).value.entries);
  }

  /** A run's last append, and the state it found. */
  lemma LastAppend(hash: Hasher, requests: seq<Request>) returns (init: seq<Request>, r: Request, st: State)
    requires |requests| > 0 && RunAll(hash, requests).Some?
    ensures requests == init + [r] && RunAll(hash, init) == Some(st)
    ensures RunAll(hash, requests) == AppendTo(hash, st, r.kind, r.createdAt, r.payload)
  {
    init, r := requests[..|requests| - 1], requests[|requests| - 1];
    st := RunAll(hash, init).value;
  }

  /** Every successful run is chained and indexed, verifies, and keeps kinds and payloads in order. */
  lemma {:induction false} RunsConsistent(hash: Hasher, requests: seq<Request>)
    requires RunAll(hash, requests).Some?
    ensures
      var st := RunAll(hash, requests).value;
      Consistent(hash, st) && Records(st.entries, requests)
    decreases |requests|
  {
    if requests != [] {
      var init, r, st := LastAppend(hash, requests);
      RunsConsistent(hash, init);
      RunOneMore(hash, st, init, r);
    }
  }

  /** A run fails only by exposing a collision. */
  lemma {:induction false} RunsFailOnlyByCollision(hash: Hasher, requests: seq<Request>)
    requires RunAll(hash, requests).None?
    ensures exists k, st ::
      0 <= k < |requests| && RunAll(hash, requests[..k]) == Some(st) && CollidesOn(hash, ForkCollision(st.entries))
    decreases |requests|
  {
    var n := |requests| - 1;
    var init, r := requests[..n], requests[n];
    if RunAll(hash, init).None? {
      RunsFailOnlyByCollision(hash, init);
      var k, st :| 0 <= k < |init| && RunAll(hash, init[..k]) == Some(st)
        && CollidesOn(hash, ForkCollision(st.entries));
      assert init[..k] == requests[..k];
    } else {
      var st := RunAll(hash, init).value;
      RunsConsistent(hash, init);
      ForkMeansCollision(hash, st, r.kind, r.createdAt, r.payload);
      assert RunAll(hash, requests[..n]) == Some(st);
    }
  }

  /** The items of a saved ledger as the requests that loading makes of them. */
  function LoadRequests(items: seq<Entry>, clock: nat -> string): (r: seq<Request>)
    ensures |r| == |items|
    ensures forall k :: 0 <= k < |r| ==>
      r[k] == Request(items[k].kind, clock(k), items[k].payload[ALLOW_BRANCH := Bool(true)])
  {
    seq(|items|, k requires 0 <= k < |items| =>
          Request(items[k].kind, clock(k), items[k].payload[ALLOW_BRANCH := Bool(true)]))
  }

  lemma {:induction false} ReloadIsRun(hash: Hasher, items: seq<Entry>, clock: nat -> string)
    ensures Reload(hash, items, clock) == RunAll(hash, LoadRequests(items, clock))
    ensures Reload(hash, items, clock).Some?
    decreases |items|
  {
    if items != [] {
      var n := |items| - 1;
      ReloadIsRun(hash, items[..n], clock);
      assert LoadRequests(items, clock)[..n] == LoadRequests(items[..n], clock);
    }
  }

  /** The entry an item becomes: its kind, the time of loading, and its payload with the branch flag set. */
  ghost predicate Reloaded(e: Entry, item: Entry, time: string) {
    && e.kind == item.kind && e.createdAt == time
    && e.payload.Keys == item.payload.Keys + {"allow_branch"} && e.payload["allow_branch"] == Bool(true)
    && e.payload - {"allow_branch"} == item.payload - {"allow_branch"}
  }

  lemma ReloadedEntries(entries: seq<Entry>, items: seq<Entry>, clock: nat -> string)
    requires Records(entries, LoadRequests(items, clock))
    ensures |entries| == |items| && forall k :: 0 <= k < |items| ==> Reloaded(entries[k], items[k], clock(k))
  {
    var requests := LoadRequests(items, clock);
    forall k | 0 <= k < |items|
      ensures Reloaded(entries[k], items[k], clock(k))
    {
      assert entries[k].payload == requests[k].payload == items[k].payload[ALLOW_BRANCH := Bool(true)];
      FlagSet(items[k].payload);
    }
  }

  lemma FlagSet(payload: Payload)
    ensures
      var marked := payload[ALLOW_BRANCH := Bool(true)];
      && marked.Keys == payload.Keys + {"allow_branch"} && marked["allow_branch"] == Bool(true)
      && marked - {"allow_branch"} == payload - {"allow_branch"}
  {
  }

  /** Saving and loading: loading never fails, and keeps kinds and payloads with the branch flag set;
      the loaded ledger is chained, indexed and verifies. */
  lemma {:induction false} ReloadKeeps(hash: Hasher, items: seq<Entry>, clock: nat -> string)
    ensures
      var st := Reload(hash, items, clock);
      && st.Some? && Consistent(hash, st.value)
      && |st.value.entries| == |items|
      && forall k :: 0 <= k < |items| ==> Reloaded(st.value.entries[k], items[k], clock(k))
  {
    ReloadIsRun(hash, items, clock);
    var requests := LoadRequests(items, clock);
    RunsConsistent(hash, requests);
    ReloadedEntries(Reload(hash, items, clock).value.entries, items, clock);
  }
}
