/** The system fingerprint and the comparison of two of them (src/mvpc/security.py). */
module Fingerprints {
  import opened Hashing
  import opened Ordering

  datatype FileEntry = FileEntry(path: string, sha: string)

  function Line(e: FileEntry): string {
    e.path + ":" + e.sha
  }

  function Join(lines: seq<string>): string {
    if |lines| == 0 then ""
    else if |lines| == 1 then lines[0]
    else lines[0] + "\n" + Join(lines[1..])
  }

  function Lines(entries: seq<FileEntry>): (lines: seq<string>)
    ensures |lines| == |entries| && forall k :: 0 <= k < |lines| ==> lines[k] == Line(entries[k])
  {
    seq(|entries|, k requires 0 <= k < |entries| => Line(entries[k]))
  }

  /** The text that is hashed. */
  function Text(entries: seq<FileEntry>): string {
    Join(Lines(entries)) + if |entries| > 0 then "\n" else ""
  }

  datatype SourceFile = SourceFile(path: string, content: string)

  function EntryOf(sha: string -> string, f: SourceFile): FileEntry {
    FileEntry(f.path, sha(f.content))
  }

  function Entries(sha: string -> string, files: seq<SourceFile>): (entries: seq<FileEntry>)
    ensures |entries| == |files| && forall k :: 0 <= k < |files| ==> entries[k] == EntryOf(sha, files[k])
  {
    seq(|files|, k requires 0 <= k < |files| => EntryOf(sha, files[k]))
  }

  /** The files arrive in the order in which the package is listed. */
  method ComputeFingerprint(sha: string -> string, files: seq<SourceFile>)
    returns (entries: seq<FileEntry>, fingerprint: string)
    ensures entries == Entries(sha, files)
    ensures fingerprint == sha(Text(entries))
  {
    entries := [];
    for k := 0 to |files|
      invariant |entries| == k && forall i :: 0 <= i < k ==> entries[i] == EntryOf(sha, files[i])
    {
      entries := entries + [FileEntry(files[k].path, sha(files[k].content))];
    }
    fingerprint := sha(Text(entries));
  }

  // ----- The text read back line by line

  /** One line with its end, then the rest. */
  function Render(entries: seq<FileEntry>): string {
    if |entries| == 0 then "" else Line(entries[0]) + "\n" + Render(entries[1..])
  }

  lemma LinesTail(entries: seq<FileEntry>)
    requires |entries| > 0
    ensures Lines(entries)[1..] == Lines(entries[1..])
  {
  }

  lemma {:induction false} TextIsRender(entries: seq<FileEntry>)
    ensures Text(entries) == Render(entries)
  {
    if |entries| == 1 {
      assert Render(entries[1..]) == "";
    } else if |entries| > 1 {
      TextIsRender(entries[1..]);
      LinesTail(entries);
    }
  }

  ghost predicate NewlineFree(s: string) {
    forall k :: 0 <= k < |s| ==> s[k] != '\n'
  }

  /** Digests have their fixed width and no line end, as hexadecimal digests do. */
  ghost predicate Digest(s: string) {
    |s| == DIGEST_WIDTH && NewlineFree(s)
  }

  /** The path reads as a shorter path, a digest and a line end, then more. */
  ghost predicate LineInside(path: string, i: nat) {
    && DIGEST_WIDTH < i < |path| && path[i] == '\n' && path[i - DIGEST_WIDTH - 1] == ':'
    && NewlineFree(path[i - DIGEST_WIDTH..i])
  }

  ghost predicate Ambiguous(path: string) {
    exists i :: LineInside(path, i)
  }

  ghost predicate Readable(e: FileEntry) {
    Digest(e.sha) && !Ambiguous(e.path)
  }

  lemma NewlineFreeIsReadable(e: FileEntry)
    requires Digest(e.sha) && NewlineFree(e.path)
    ensures Readable(e)
  {
  }

  lemma RenderCharacters(e: FileEntry, rest: string)
    requires Digest(e.sha)
    ensures
      var whole := Line(e) + "\n" + rest;
      && |whole| == |e.path| + DIGEST_WIDTH + 2 + |rest|
      && whole[..|e.path|] == e.path
      && whole[|e.path|] == ':'
      && whole[|e.path| + 1..|e.path| + 1 + DIGEST_WIDTH] == e.sha
      && whole[|e.path| + 1 + DIGEST_WIDTH] == '\n'
      && whole[|e.path| + 2 + DIGEST_WIDTH..] == rest
  {
  }

  lemma LongerIsAmbiguous(e: FileEntry, rest: string, e': FileEntry, rest': string)
    requires Digest(e.sha) && Digest(e'.sha) && |e'.path| < |e.path|
    requires Line(e) + "\n" + rest == Line(e') + "\n" + rest'
    ensures Ambiguous(e.path)
  {
    var whole := Line(e) + "\n" + rest;
    var n, i := |e.path|, |e'.path| + 1 + DIGEST_WIDTH;
    RenderCharacters(e, rest);
    RenderCharacters(e', rest');
    assert forall k :: n < k <= n + DIGEST_WIDTH ==> whole[k] == e.sha[k - n - 1];
    assert i < n;
    assert forall k :: 0 <= k < n ==> e.path[k] == whole[k];
    assert e.path[i - DIGEST_WIDTH..i] == e'.sha;
    assert LineInside(e.path, i);
  }

  lemma FirstLineUnique(e: FileEntry, rest: string, e': FileEntry, rest': string)
    requires Readable(e) && Readable(e')
    requires Line(e) + "\n" + rest == Line(e') + "\n" + rest'
    ensures e == e' && rest == rest'
  {
    if |e'.path| < |e.path| {
      LongerIsAmbiguous(e, rest, e', rest');
    } else if |e.path| < |e'.path| {
      LongerIsAmbiguous(e', rest', e, rest);
    }
    RenderCharacters(e, rest);
    RenderCharacters(e', rest');
  }

  /** The text determines the list of files, for all lists of readable entries. */
  lemma {:induction false} TextDecodes(a: seq<FileEntry>, b: seq<FileEntry>)
    requires forall e :: e in a ==> Readable(e)
    requires forall e :: e in b ==> Readable(e)
    requires Render(a) == Render(b)
    ensures a == b
    decreases |a|
  {
    if |a| > 0 && |b| > 0 {
      FirstLineUnique(a[0], Render(a[1..]), b[0], Render(b[1..]));
      TextDecodes(a[1..], b[1..]);
      assert a == [a[0]] + a[1..] && b == [b[0]] + b[1..];
    }
  }

  lemma {:induction false} RenderAppend(a: seq<FileEntry>, b: seq<FileEntry>)
    ensures Render(a + b) == Render(a) + Render(b)
  {
    if |a| == 0 {
      assert a + b == b;
    } else {
      var line := Line(a[0]) + "\n";
      assert (a + b)[1..] == a[1..] + b;
      assert Render(a) == line + Render(a[1..]) && Render(a + b) == line + Render(a[1..] + b);
      RenderAppend(a[1..], b);
    }
  }

  /** Readability is needed: an ambiguous path can be split into two entries of another list with
      the same text. */
  lemma AmbiguousPathsSplit(before: seq<FileEntry>, e: FileEntry, after: seq<FileEntry>, i: nat)
    requires Digest(e.sha) && LineInside(e.path, i)
    ensures
      var p, h := e.path[..i - DIGEST_WIDTH - 1], e.path[i - DIGEST_WIDTH..i];
      var split := [FileEntry(p, h), FileEntry(e.path[i + 1..], e.sha)];
      Digest(h) && Text(before + [e] + after) == Text(before + split + after)
  {
    var p, h := e.path[..i - DIGEST_WIDTH - 1], e.path[i - DIGEST_WIDTH..i];
    var first, second := FileEntry(p, h), FileEntry(e.path[i + 1..], e.sha);
    assert e.path == p + ":" + h + "\n" + e.path[i + 1..];
    assert Line(e) == Line(first) + "\n" + Line(second);
    assert Render([e]) == Line(e) + "\n";
    assert [first, second][1..] == [second];
    assert Render([second]) == Line(second) + "\n";
    assert Render([first, second]) == Render([e]);
    RenderAppend(before, [e]);
    RenderAppend(before + [e], after);
    RenderAppend(before, [first, second]);
    RenderAppend(before + [first, second], after);
    TextIsRender(before + [e] + after);
    TextIsRender(before + [first, second] + after);
  }

  // ----- What equal fingerprints mean

  /** Two contents at the first place where the files differ, or else the two hashed texts. */
  function ContentCollision(a: seq<SourceFile>, b: seq<SourceFile>): (string, string)
    requires |a| == |b|
  {
    if |a| == 0 then ("", "")
    else if a[0].content != b[0].content then (a[0].content, b[0].content)
    else ContentCollision(a[1..], b[1..])
  }

  function FingerprintCollision(sha: string -> string, a: seq<SourceFile>, b: seq<SourceFile>): (string, string) {
    if Entries(sha, a) == Entries(sha, b) then ContentCollision(a, b)
    else (Text(Entries(sha, a)), Text(Entries(sha, b)))
  }

  lemma {:induction false} SameEntries(sha: string -> string, a: seq<SourceFile>, b: seq<SourceFile>)
    requires |a| == |b| && forall k :: 0 <= k < |a| ==> EntryOf(sha, a[k]) == EntryOf(sha, b[k])
    ensures a == b || Collides(sha, ContentCollision(a, b))
    decreases |a|
  {
    if |a| > 0 {
      assert EntryOf(sha, a[0]) == EntryOf(sha, b[0]);
      if a[0].content == b[0].content {
        SameEntries(sha, a[1..], b[1..]);
        assert a == [a[0]] + a[1..] && b == [b[0]] + b[1..];
      }
    }
  }

  ghost predicate HexDigests(sha: string -> string) {
    forall s :: Digest(sha(s))
  }

  /** Equal fingerprints mean equal paths and contents, or two explicit texts with one digest. */
  lemma EqualFingerprints(sha: string -> string, a: seq<SourceFile>, b: seq<SourceFile>)
    requires HexDigests(sha)
    requires forall k :: 0 <= k < |a| ==> !Ambiguous(a[k].path)
    requires forall k :: 0 <= k < |b| ==> !Ambiguous(b[k].path)
    requires sha(Text(Entries(sha, a))) == sha(Text(Entries(sha, b)))
    ensures a == b || Collides(sha, FingerprintCollision(sha, a, b))
  {
    var ea, eb := Entries(sha, a), Entries(sha, b);
    if ea == eb {
      SameEntries(sha, a, b);
    } else if Text(ea) == Text(eb) {
      TextIsRender(ea);
      TextIsRender(eb);
      TextDecodes(ea, eb);
    }
  }

  // ----- Packages that share a fingerprint

  /** The path of a file whose name holds the whole line of another. */
  function MergedPath(sha: string -> string, p: string, x: string, r: string): string {
    p + ":" + sha(x) + "\n" + r
  }

  lemma EntriesAppend(sha: string -> string, a: seq<SourceFile>, b: seq<SourceFile>)
    ensures Entries(sha, a + b) == Entries(sha, a) + Entries(sha, b)
  {
  }

  lemma MergedIsAmbiguous(sha: string -> string, p: string, x: string, r: string)
    requires HexDigests(sha)
    ensures LineInside(MergedPath(sha, p, x, r), |p| + DIGEST_WIDTH + 1)
    ensures MergedPath(sha, p, x, r)[..|p|] == p
    ensures MergedPath(sha, p, x, r)[|p| + 1..|p| + 1 + DIGEST_WIDTH] == sha(x)
    ensures MergedPath(sha, p, x, r)[|p| + DIGEST_WIDTH + 2..] == r
  {
    assert Digest(sha(x));
    var path := MergedPath(sha, p, x, r);
    assert path[|p| + 1..|p| + 1 + DIGEST_WIDTH] == sha(x);
  }

  /** Two packages, with any other files around: one holds the files `p` and `r`, the other a single file
      with their merged path. Their fingerprints are equal, for all contents. */
  lemma MergedFilesShareFingerprint(sha: string -> string, before: seq<SourceFile>, p: string,
                                    x: string,
                                    r: string, y: string, after: seq<SourceFile>)
    requires HexDigests(sha)
    ensures
      var merged := before + [SourceFile(MergedPath(sha, p, x, r), y)] + after;
      var apart := before + [SourceFile(p, x), SourceFile(r, y)] + after;
      sha(Text(Entries(sha, merged))) == sha(Text(Entries(sha, apart))) && merged != apart
  {
    var file := SourceFile(MergedPath(sha, p, x, r), y);
    var pair := [SourceFile(p, x), SourceFile(r, y)];
    MergedIsAmbiguous(sha, p, x, r);
    assert Digest(sha(y));
    var i := |p| + DIGEST_WIDTH + 1;
    AmbiguousPathsSplit(Entries(sha, before), EntryOf(sha, file), Entries(sha, after), i);
    assert Entries(sha, [file]) == [EntryOf(sha, file)];
    assert Entries(sha, pair) == [EntryOf(sha, pair[0]), EntryOf(sha, pair[1])];
    EntriesAppend(sha, before, [file]);
    EntriesAppend(sha, before + [file], after);
    EntriesAppend(sha, before, pair);
    EntriesAppend(sha, before + pair, after);
    assert |before + [file] + after| != |before + pair + after|;
  }

  predicate IsPython(path: string) {
    |path| >= 3 && path[|path| - 3..] == ".py"
  }

  /** Such a pair of packages as the listing would give them: Python files in ascending order. */
  lemma PythonFilesShareFingerprint(sha: string -> string, x: string, y: string)
    requires HexDigests(sha)
    ensures
      var path := MergedPath(sha, "a.py", x, "b.py");
      && IsPython("a.py") && IsPython("b.py") && IsPython(path) && Leq("a.py", "b.py")
      && sha(Text(Entries(sha, [SourceFile(path, y)])))
         == sha(Text(Entries(sha, [SourceFile("a.py", x), SourceFile("b.py", y)])))
  {
    var path := MergedPath(sha, "a.py", x, "b.py");
    MergedFilesShareFingerprint(sha, [], "a.py", x, "b.py", y, []);
    assert path[|path| - 4..] == "b.py";
    assert [] + [SourceFile(path, y)] + [] == [SourceFile(path, y)];
    var pair := [SourceFile("a.py", x), SourceFile("b.py", y)];
    assert [] + pair + [] == pair;
  }

  // ----- Comparing two fingerprints

  type Files = map<string, string>

  datatype Change = Added(path: string) | Removed(path: string) | Modified(path: string)

  /** The map that a list of entries makes: a later entry replaces an earlier one of the same path. */
  function ByPath(entries: seq<FileEntry>): Files {
    if |entries| == 0 then map[]
    else ByPath(entries[..|entries| - 1])[entries[|entries| - 1].path := entries[|entries| - 1].sha]
  }

  predicate Differs(b: Files, a: Files, p: string) {
    (p in b) != (p in a) || (p in b && p in a && b[p] != a[p])
  }

  function ChangeAt(b: Files, a: Files, p: string): Change {
    if p !in b then Added(p) else if p !in a then Removed(p) else Modified(p)
  }

  function Itself(p: string): string {
    p
  }

  /** The changes of the first paths, each path that differs named once. */
  function Changes(b: Files, a: Files, paths: seq<string>): seq<Change> {
    if |paths| == 0 then []
    else
      var p := paths[|paths| - 1];
      var earlier := Changes(b, a, paths[..|paths| - 1]);
      if Differs(b, a, p) then earlier + [ChangeAt(b, a, p)] else earlier
  }

  method ListPaths(paths: set<string>) returns (listed: seq<string>)
    ensures multiset(listed) == multiset(paths)
  {
    listed := [];
    var pending := paths;
    while pending != {}
      invariant pending <= paths
      invariant multiset(listed) + multiset(pending) == multiset(paths)
      decreases pending
    {
      var p :| p in pending;
      listed := listed + [p];
      pending := pending - {p};
    }
  }

  // ----- The comparison names every differing path once, in order

  ghost predicate Ascending(paths: seq<string>) {
    forall i, j :: 0 <= i < j < |paths| ==> Leq(paths[i], paths[j]) && paths[i] != paths[j]
  }

  lemma ListedOnce(listed: seq<string>, paths: set<string>, i: nat, j: nat)
    requires multiset(listed) == multiset(paths) && i < j < |listed|
    ensures listed[i] != listed[j]
  {
    var x := listed[j];
    assert listed == listed[..j] + [x] + listed[j + 1..];
    assert multiset(listed) == multiset(listed[..j]) + multiset{x} + multiset(listed[j + 1..]);
    assert multiset(paths)[x] <= 1;
    assert x !in multiset(listed[..j]);
    assert listed[i] in listed[..j];
  }

  /** Sorting any listing of a set gives its members in ascending order. */
  lemma SortedListing(listed: seq<string>, paths: set<string>)
    requires multiset(listed) == multiset(paths)
    ensures Ascending(SortBy(listed, Itself))
    ensures forall p :: p in SortBy(listed, Itself) <==> p in paths
  {
    var xs := SortBy(listed, Itself);
    SortKeeps(listed, Itself);
    SortOrders(listed, Itself);
    forall p
      ensures p in xs <==> p in paths
    {
      assert p in xs <==> p in multiset(xs);
    }
    forall i, j | 0 <= i < j < |xs|
      ensures Leq(xs[i], xs[j]) && xs[i] != xs[j]
    {
      assert Leq(Itself(xs[i]), Itself(xs[j]));
      ListedOnce(xs, paths, i, j);
    }
  }

  function PathsOf(changes: seq<Change>): (paths: seq<string>)
    ensures |paths| == |changes| && forall k :: 0 <= k < |paths| ==> paths[k] == changes[k].path
  {
    seq(|changes|, k requires 0 <= k < |changes| => changes[k].path)
  }

  ghost predicate Correct(b: Files, a: Files, c: Change) {
    Differs(b, a, c.path) && c == ChangeAt(b, a, c.path)
  }

  /** Exactly the differing paths, in ascending order, each with its kind of change. */
  ghost predicate Describes(changes: seq<Change>, b: Files, a: Files) {
    && Ascending(PathsOf(changes))
    && (forall k :: 0 <= k < |changes| ==> Correct(b, a, changes[k]))
    && (forall p :: Differs(b, a, p) ==> p in PathsOf(changes))
  }

  /** The description restricted to the given paths. */
  ghost predicate DescribesAt(changes: seq<Change>, b: Files, a: Files, paths: seq<string>) {
    && Ascending(PathsOf(changes))
    && (forall k :: 0 <= k < |changes| ==> Correct(b, a, changes[k]))
    && (forall p :: p in PathsOf(changes) <==> p in paths && Differs(b, a, p))
  }

  lemma DescribeOneMore(changes: seq<Change>, b: Files, a: Files, paths: seq<string>, p: string)
    requires DescribesAt(changes, b, a, paths) && Differs(b, a, p)
    requires forall q :: q in paths ==> Leq(q, p) && q != p
    ensures DescribesAt(changes + [ChangeAt(b, a, p)], b, a, paths + [p])
  {
    var c := ChangeAt(b, a, p);
    assert PathsOf(changes + [c]) == PathsOf(changes) + [p];
    assert Correct(b, a, c);
  }

  lemma {:induction false} ChangesAre(b: Files, a: Files, paths: seq<string>)
    requires Ascending(paths)
    ensures DescribesAt(Changes(b, a, paths), b, a, paths)
    decreases |paths|
  {
    if |paths| > 0 {
      var earlier, p := paths[..|paths| - 1], paths[|paths| - 1];
      ChangesAre(b, a, earlier);
      assert paths == earlier + [p];
      if Differs(b, a, p) {
        DescribeOneMore(Changes(b, a, earlier), b, a, earlier, p);
      }
    }
  }

  lemma ChangesDescribe(b: Files, a: Files, paths: seq<string>)
    requires Ascending(paths) && forall p :: p in paths <==> p in b.Keys + a.Keys
    ensures Describes(Changes(b, a, paths), b, a)
  {
    ChangesAre(b, a, paths);
  }

  /** Nothing to say exactly when the two maps are equal. */
  lemma NoChangesIff(changes: seq<Change>, b: Files, a: Files)
    requires Describes(changes, b, a)
    ensures |changes| == 0 <==> b == a
  {
    if |changes| == 0 {
      forall p
        ensures (p in b <==> p in a) && (p in b ==> b[p] == a[p])
      {
        assert !Differs(b, a, p);
      }
      assert b.Keys == a.Keys;
    } else {
      assert Correct(b, a, changes[0]);
    }
  }

  lemma {:induction false} AscendingIsSet(xs: seq<string>)
    requires Ascending(xs)
    ensures multiset(xs) == multiset(set p | p in xs)
  {
    if |xs| > 0 {
      var init, last := xs[..|xs| - 1], xs[|xs| - 1];
      AscendingIsSet(init);
      assert xs == init + [last];
      assert last !in init;
      assert (set p | p in xs) == (set p | p in init) + {last};
    }
  }

  lemma AscendingUnique(xs: seq<string>, ys: seq<string>)
    requires Ascending(xs) && Ascending(ys) && forall p :: p in xs <==> p in ys
    ensures xs == ys
  {
    AscendingIsSet(xs);
    AscendingIsSet(ys);
    assert (set p | p in xs) == (set p | p in ys);
    InOrderUnique(xs, ys, Itself);
  }

  /** There is only one such description. */
  lemma DescriptionUnique(c: seq<Change>, d: seq<Change>, b: Files, a: Files)
    requires Describes(c, b, a) && Describes(d, b, a)
    ensures c == d
  {
    AscendingUnique(PathsOf(c), PathsOf(d));
    assert |c| == |PathsOf(c)| && |d| == |PathsOf(d)|;
    forall k | 0 <= k < |c|
      ensures c[k] == d[k]
    {
      assert Correct(b, a, c[k]) && Correct(b, a, d[k]);
    }
  }

  method DiffFingerprints(before: seq<FileEntry>, after: seq<FileEntry>) returns (changes: seq<Change>)
    ensures Describes(changes, ByPath(before), ByPath(after))
    ensures |changes| == 0 <==> ByPath(before) == ByPath(after)
  {
    var b, a := ByPath(before), ByPath(after);
    var listed := ListPaths(b.Keys + a.Keys);
    var paths := SortBy(listed, Itself);
    SortedListing(listed, b.Keys + a.Keys);
    changes := [];
    for k := 0 to |paths|
      invariant changes == Changes(b, a, paths[..k])
    {
      var p := paths[k];
      assert p in paths;
      assert paths[..k + 1][..k] == paths[..k];
      if p !in b {
        changes := changes + [Added(p)];
      } else if p !in a {
        changes := changes + [Removed(p)];
      } else if b[p] != a[p] {
        changes := changes + [Modified(p)];
      }
    }
    assert paths[..|paths|] == paths;
    ChangesDescribe(b, a, paths);
    NoChangesIff(changes, b, a);
  }
}
