/** The permanent manifest chain of src/mvpc/nexus/manifest_ledger.py over a directory of texts:
    appending, and the verifier that recomputes every hash. */
module ManifestLedger {
  import opened Wrappers
  import opened Hashing
  import opened JsonValues
  import opened ManifestNames
  import JsonText

  const GENESIS := "MVPC-X-NEXUS-GENESIS-v1"

  /** JSON reading and writing, the canonical hash of a value, Python's `str` of a value, and the
      text around the hash line of a rendered manifest. */
  datatype Codec = Codec(
    parse: string -> Option<Json>,
    dumps: Json -> string,
    hash: Json -> string,
    show: Json -> string,
    mdBefore: Json -> string,
    mdAfter: Json -> string)

  /** Hashes have the width of a digest, and a text shows as itself. */
  ghost predicate Digests(c: Codec) {
    && (forall j :: |c.hash(j)| == DIGEST_WIDTH)
    && (forall s :: c.show(Str(s)) == s)
  }

  /** What is written reads back. */
  ghost predicate RoundTrips(c: Codec) {
    forall j :: c.parse(c.dumps(j)) == Some(j)
  }

  ghost predicate CodecOk(c: Codec) {
    Digests(c) && RoundTrips(c)
  }

  /** There are such codecs: these demands are met by a text form of JSON that can be read back. */
  lemma CodecExists() returns (c: Codec)
    ensures CodecOk(c)
  {
    c := Codec(t => JsonText.ReadBack(t), j => JsonText.TextOf(j), j => seq(DIGEST_WIDTH, k => '0'),
               (j: Json) => if j.Str? then j.s else "", j => "", j => "");
    forall j
      ensures c.parse(c.dumps(j)) == Some(j)
    {
      JsonText.ReadsBack(j);
    }
  }

  type Directory = map<string, string>

  function HashLine(h: string): string {
    "**Manifest hash:** `" + h + "`"
  }

  predicate Occurs(text: string, part: string) {
    exists i, j | 0 <= i <= j <= |text| :: text[i..j] == part
  }

  // ----- The index

  datatype Index = Unreadable | Malformed | Entries(entries: seq<Json>, fields: map<string, Json>)

  function ReadIndex(c: Codec, dir: Directory): Index {
    if INDEX_FILE !in dir then Entries([], map["schema_version" := Str("mvpc.nexus.ledger.v1"), "entries" := Arr([])])
    else
      var data := c.parse(dir[INDEX_FILE]);
      if data.None? then Unreadable
      else if !data.value.Obj? || !Get(data.value.fields, "entries").Arr? then Malformed
      else Entries(Get(data.value.fields, "entries").items, data.value.fields)
  }

  // ----- Verification

  datatype Kind =
    | IndexUnreadable | Sequence | PairMissing | JsonUnreadable | PreviousHash | ManifestHash | IndexHash | Markdown

  datatype Error = Error(kind: Kind, position: nat)

  /** `Crash` is an exception the verifier does not catch: a value without dictionary methods. */
  datatype Check = Crash | Checked(errors: seq<Error>, previous: string)

  function If(test: bool, kind: Kind, k: nat): seq<Error> {
    if test then [Error(kind, k)] else []
  }

  function Unsigned(raw: map<string, Json>): Json {
    Obj(map key | key in raw && key != "manifest_hash" :: raw[key])
  }

  function NameIn(c: Codec, item: map<string, Json>, key: string): string {
    if key in item then c.show(item[key]) else ""
  }

  function RawErrors(c: Codec, item: map<string, Json>, raw: map<string, Json>, markdown: string, k: nat,
                     previous: string): seq<Error> {
    var stored := Get(raw, "manifest_hash");
    If(Get(raw, "previous_manifest_hash") != Str(previous), PreviousHash, k)
    + If(stored != Str(c.hash(Unsigned(raw))), ManifestHash, k)
    + If(!Equals(Get(item, "manifest_hash"), stored), IndexHash, k)
    + If(Truthy(stored) && !Occurs(markdown, HashLine(c.show(stored))), Markdown, k)
  }

  /** What checking one index item adds. */
  function CheckItem(c: Codec, dir: Directory, item: Json, k: nat, st: Check): Check {
    if st.Crash? || !item.Obj? then Crash
    else
      var sequence := If(!Equals(Get(item.fields, "sequence"), Int(k)), Sequence, k);
      var json, md := NameIn(c, item.fields, "json_file"), NameIn(c, item.fields, "markdown_file");
      if json !in dir || md !in dir then Checked(st.errors + sequence + [Error(PairMissing, k)], st.previous)
      else
        var raw := c.parse(dir[json]);
        if raw.None? then Checked(st.errors + sequence + [Error(JsonUnreadable, k)], st.previous)
        else if !raw.value.Obj? then Crash
        else
          var stored := Get(raw.value.fields, "manifest_hash");
          Checked(st.errors + sequence + RawErrors(c, item.fields, raw.value.fields, dir[md], k, st.previous),
                  if Truthy(stored) then c.show(stored) else st.previous)
  }

  function Walk(c: Codec, dir: Directory, entries: seq<Json>): Check {
    if entries == [] then Checked([], GENESIS)
    else CheckItem(c, dir, entries[|entries| - 1], |entries| - 1, Walk(c, dir, entries[..|entries| - 1]))
  }

  /** The verdict on a directory. */
  function Verdict(c: Codec, dir: Directory): Check {
    match ReadIndex(c, dir)
    case Entries(entries, _) => Walk(c, dir, entries)
    case _ => Checked([Error(IndexUnreadable, 0)], GENESIS)
  }

  predicate IsClean(st: Check) {
    st.Checked? && st.errors == []
  }

  // ----- Tamper evidence

  /** The manifest an index item refers to. */
  function RawOf(c: Codec, dir: Directory, item: Json): map<string, Json> {
    if !item.Obj? then map[]
    else
      var json := NameIn(c, item.fields, "json_file");
      if json !in dir then map[]
      else
        match c.parse(dir[json])
        case Some(Obj(fields)) => fields
        case _ => map[]
  }

  /** A clean step: the manifest carries the hash of its own content and of its predecessor. */
  lemma CleanStep(c: Codec, dir: Directory, item: Json, k: nat, st: Check)
    requires Digests(c) && IsClean(CheckItem(c, dir, item, k, st))
    ensures IsClean(st)
    ensures
      var raw, h := RawOf(c, dir, item), c.hash(Unsigned(RawOf(c, dir, item)));
      && Get(raw, "manifest_hash") == Str(h)
      && Get(raw, "previous_manifest_hash") == Str(st.previous)
      && CheckItem(c, dir, item, k, st).previous == h
  {
  }

  /** Two manifests that carry their own hash are equal if their unsigned parts are. */
  lemma SignedByContent(c: Codec, raw: map<string, Json>, other: map<string, Json>)
    requires Get(raw, "manifest_hash") == Str(c.hash(Unsigned(raw)))
    requires Get(other, "manifest_hash") == Str(c.hash(Unsigned(other)))
    requires Unsigned(raw) == Unsigned(other)
    ensures raw == other
  {
    var a, b := Unsigned(raw).fields, Unsigned(other).fields;
    assert raw == a["manifest_hash" := raw["manifest_hash"]];
    assert other == b["manifest_hash" := other["manifest_hash"]];
  }

  /** The two unsigned manifests that collide when two clean chains with one last hash differ: the
      last pair that is not equal, counting from the ends. */
  function ChainCollision(c: Codec, dir: Directory, entries: seq<Json>, dir': Directory, entries': seq<Json>): (Json,
                          Json) {
    if entries == [] || entries' == [] then (Null, Null)
    else
      var u := Unsigned(RawOf(c, dir, entries[|entries| - 1]));
      var u' := Unsigned(RawOf(c, dir', entries'[|entries'| - 1]));
      if u != u' then (u, u')
      else ChainCollision(c, dir, entries[..|entries| - 1], dir', entries'[..|entries'| - 1])
  }

  ghost predicate SameManifests(c: Codec, dir: Directory, entries: seq<Json>, dir': Directory, entries': seq<Json>) {
    && |entries| == |entries'|
    && forall k :: 0 <= k < |entries| ==> RawOf(c, dir, entries[k]) == RawOf(c, dir', entries'[k])
  }

  /** The last manifests of two clean chains with one last hash. */
  lemma LastAgree(c: Codec, dir: Directory, entries: seq<Json>, dir': Directory, entries': seq<Json>)
    requires Digests(c) && IsClean(Walk(c, dir, entries)) && IsClean(Walk(c, dir', entries'))
    requires entries != [] && entries' != [] && Walk(c, dir, entries).previous == Walk(c, dir', entries').previous
    ensures
      var raw, raw' := RawOf(c, dir, entries[|entries| - 1]), RawOf(c, dir', entries'[|entries'| - 1]);
      if Unsigned(raw) != Unsigned(raw') then CollidesOn(c.hash, (Unsigned(raw), Unsigned(raw')))
      else raw == raw'
           && Walk(c, dir, entries[..|entries| - 1]).previous == Walk(c, dir', entries'[..|entries'| - 1]).previous
  {
    var n, m := |entries| - 1, |entries'| - 1;
    CleanStep(c, dir, entries[n], n, Walk(c, dir, entries[..n]));
    CleanStep(c, dir', entries'[m], m, Walk(c, dir', entries'[..m]));
    var raw, raw' := RawOf(c, dir, entries[n]), RawOf(c, dir', entries'[m]);
    if Unsigned(raw) == Unsigned(raw') {
      SignedByContent(c, raw, raw');
    }
  }

  lemma SameExtend(c: Codec, dir: Directory, entries: seq<Json>, dir': Directory, entries': seq<Json>)
    requires entries != [] && entries' != []
    requires SameManifests(c, dir, entries[..|entries| - 1], dir', entries'[..|entries'| - 1])
    requires RawOf(c, dir, entries[|entries| - 1]) == RawOf(c, dir', entries'[|entries'| - 1])
    ensures SameManifests(c, dir, entries, dir', entries')
  {
    var a, b := entries[..|entries| - 1], entries'[..|entries'| - 1];
    forall k | 0 <= k < |entries|
      ensures RawOf(c, dir, entries[k]) == RawOf(c, dir', entries'[k])
    {
      if k < |a| {
        assert entries[k] == a[k] && entries'[k] == b[k];
      }
    }
  }

  /** Clean chains that agree on the last hash agree on every manifest and on the length. */
  lemma {:induction false} ChainsAgree(c: Codec, dir: Directory, entries: seq<Json>, dir': Directory,
                                       entries': seq<Json>)
    requires Digests(c) && IsClean(Walk(c, dir, entries)) && IsClean(Walk(c, dir', entries'))
    requires Walk(c, dir, entries).previous == Walk(c, dir', entries').previous
    ensures SameManifests(c, dir, entries, dir', entries')
         || CollidesOn(c.hash, ChainCollision(c, dir, entries, dir', entries'))
    decreases |entries|
  {
    if entries != [] && entries' != [] {
      LastAgree(c, dir, entries, dir', entries');
      var a, b := entries[..|entries| - 1], entries'[..|entries'| - 1];
      if Unsigned(RawOf(c, dir, entries[|entries| - 1])) == Unsigned(RawOf(c, dir', entries'[|entries'| - 1])) {
        ChainsAgree(c, dir, a, dir', b);
        if SameManifests(c, dir, a, dir', b) {
          SameExtend(c, dir, entries, dir', entries');
        }
      }
    }
  }

  /** Tamper evidence: two directories that verify without errors and end in the same manifest hash
      hold the same manifests at the same positions, or `ChainCollision` names a hash collision. */
  lemma TamperEvident(c: Codec, dir: Directory, dir': Directory)
    requires Digests(c) && IsClean(Verdict(c, dir)) && IsClean(Verdict(c, dir'))
    requires Verdict(c, dir).previous == Verdict(c, dir').previous
    ensures
      var a, b := ReadIndex(c, dir), ReadIndex(c, dir');
      && a.Entries? && b.Entries?
      && (|| SameManifests(c, dir, a.entries, dir', b.entries)
          || CollidesOn(c.hash, ChainCollision(c, dir, a.entries, dir', b.entries)))
  {
    var a, b := ReadIndex(c, dir), ReadIndex(c, dir');
    if a.Entries? && b.Entries? {
      ChainsAgree(c, dir, a.entries, dir', b.entries);
    }
  }

  // ----- Appending

  /** What a caller hands over, with the clock reading. */
  datatype Request = Request(status: string, sourceHash: string, payload: Json, createdAt: string)

  datatype Raised = JsonDecodeError | TypeError | KeyError | FileExistsError

  datatype Append = Failed(raised: Raised) | Appended(dir: Directory)

  function UnsignedOf(sequence: nat, previous: Json, r: Request): map<string, Json> {
    map["schema_version" := Str("mvpc.nexus.manifest.v1"), "sequence" := Int(sequence),
        "created_at" := Str(r.createdAt), "previous_manifest_hash" := previous, "status" := Str(r.status),
        "source_hash" := Str(r.sourceHash), "payload" := r.payload]
  }

  function Sign(unsigned: map<string, Json>, h: string): map<string, Json> {
    unsigned["manifest_hash" := Str(h)]
  }

  function EntryOf(sequence: nat, previous: Json, h: string): Json {
    Obj(map["sequence" := Int(sequence), "manifest_hash" := Str(h), "previous_manifest_hash" := previous,
            "json_file" := Str(JsonName(sequence, h)), "markdown_file" := Str(MarkdownName(sequence, h))])
  }

  function RenderMarkdown(c: Codec, manifest: Json, h: string): string {
    c.mdBefore(manifest) + HashLine(h) + c.mdAfter(manifest)
  }

  /** The hash a new manifest links to; `None` if the last index item has none. */
  function Tip(entries: seq<Json>): Option<Json> {
    if entries == [] then Some(Str(GENESIS))
    else
      var last := entries[|entries| - 1];
      if last.Obj? && "manifest_hash" in last.fields then Some(last.fields["manifest_hash"]) else None
  }

  /** What reading the hash of the last item raises when there is none: a missing key in a dictionary, or
      a value that has no keys. */
  function TipFailure(entries: seq<Json>): Raised {
    if entries != [] && entries[|entries| - 1].Obj? then KeyError else TypeError
  }

  /** The three files written for a manifest and the index. */
  function Store(c: Codec, dir: Directory, fields: map<string, Json>, entries: seq<Json>, previous: Json,
                 r: Request): Directory {
    var n := |entries|;
    var unsigned := UnsignedOf(n, previous, r);
    var h := c.hash(Obj(unsigned));
    var manifest := Obj(Sign(unsigned, h));
    var index := Obj(fields["entries" := Arr(entries + [EntryOf(n, previous, h)])]);
    dir[JsonName(n, h) := c.dumps(manifest)][MarkdownName(n, h) := RenderMarkdown(c, manifest, h)]
       [INDEX_FILE := c.dumps(index)]
  }

  function AppendTo(c: Codec, dir: Directory, r: Request): Append {
    match ReadIndex(c, dir)
    case Unreadable => Failed(JsonDecodeError)
    case Malformed => Failed(TypeError)
    case Entries(entries, fields) =>
      if Tip(entries).None? then Failed(TipFailure(entries))
      else
        var h := c.hash(Obj(UnsignedOf(|entries|, Tip(entries).value, r)));
        if JsonName(|entries|, h) in dir || MarkdownName(|entries|, h) in dir then Failed(FileExistsError)
        else Appended(Store(c, dir, fields, entries, Tip(entries).value, r))
  }

  class Ledger {
    const codec: Codec
    var files: Directory

    constructor (codec: Codec, files: Directory)
      ensures this.codec == codec && this.files == files
    {
      this.codec, this.files := codec, files;
    }

    method Append(r: Request) returns (failure: Option<Raised>)
      modifies this
      ensures match AppendTo(codec, old(files), r)
              case Failed(raised) => failure == Some(raised) && files == old(files)
              case Appended(dir) => failure == None && files == dir
    {
      var index := ReadIndex(codec, files);
      if index.Unreadable? {
        return Some(JsonDecodeError);
      }
      if index.Malformed? {
        return Some(TypeError);
      }
      var entries, sequence, tip := index.entries, |index.entries|, Tip(index.entries);
      if tip.None? {
        return Some(TipFailure(entries));
      }
      var previous := tip.value;
      var unsigned := UnsignedOf(sequence, previous, r);
      var h := codec.hash(Obj(unsigned));
      var manifest := Obj(Sign(unsigned, h));
      if JsonName(sequence, h) in files || MarkdownName(sequence, h) in files {
        return Some(FileExistsError);
      }
      files := files[JsonName(sequence, h) := codec.dumps(manifest)];
      files := files[MarkdownName(sequence, h) := RenderMarkdown(codec, manifest, h)];
      entries := entries + [EntryOf(sequence, previous, h)];
      files := files[INDEX_FILE := codec.dumps(Obj(index.fields["entries" := Arr(entries)]))];
      failure := None;
    }

    method Verify() returns (r: Check)
      ensures r == Verdict(codec, files)
    {
      var index := ReadIndex(codec, files);
      if !index.Entries? {
        return Checked([Error(IndexUnreadable, 0)], GENESIS);
      }
      r := Checked([], GENESIS);
      for k := 0 to |index.entries|
        invariant r == Walk(codec, files, index.entries[..k])
      {
        assert index.entries[..k + 1][..k] == index.entries[..k];
        r := CheckItem(codec, files, index.entries[k], k, r);
      }
      assert index.entries[..|index.entries|] == index.entries;
    }
  }

  // ----- Runs from an empty directory

  /** The files an index item names, neither of which is the index itself. */
  ghost predicate NamesStored(c: Codec, dir: Directory, item: Json) {
    && item.Obj?
    && NameIn(c, item.fields, "json_file") in dir && NameIn(c, item.fields, "json_file") != INDEX_FILE
    && NameIn(c, item.fields, "markdown_file") in dir && NameIn(c, item.fields, "markdown_file") != INDEX_FILE
  }

  /** The name belongs to a manifest before number `n`. */
  ghost predicate NameBelow(name: string, n: nat) {
    exists k: nat, h: string :: k < n && (name == JsonName(k, h) || name == MarkdownName(k, h))
  }

  ghost predicate Honest(c: Codec, dir: Directory) {
    var index := ReadIndex(c, dir);
    && index.Entries?
    && IsClean(Walk(c, dir, index.entries))
    && Tip(index.entries) == Some(Str(Walk(c, dir, index.entries).previous))
    && (forall k :: 0 <= k < |index.entries| ==> NamesStored(c, dir, index.entries[k]))
    && (forall name :: name in dir ==> name == INDEX_FILE || NameBelow(name, |index.entries|))
  }

  lemma CheckFrame(c: Codec, dir: Directory, dir': Directory, item: Json, k: nat, st: Check)
    requires NamesStored(c, dir, item)
    requires forall name :: name in dir && name != INDEX_FILE ==> name in dir' && dir'[name] == dir[name]
    ensures CheckItem(c, dir', item, k, st) == CheckItem(c, dir, item, k, st)
  {
  }

  /** Checking depends only on the files the items name. */
  lemma {:induction false} WalkFrame(c: Codec, dir: Directory, dir': Directory, entries: seq<Json>)
    requires forall k :: 0 <= k < |entries| ==> NamesStored(c, dir, entries[k])
    requires forall name :: name in dir && name != INDEX_FILE ==> name in dir' && dir'[name] == dir[name]
    ensures Walk(c, dir', entries) == Walk(c, dir, entries)
  {
    if entries != [] {
      var n := |entries| - 1;
      var init := entries[..n];
      assert forall k :: 0 <= k < n ==> init[k] == entries[k];
      WalkFrame(c, dir, dir', init);
      CheckFrame(c, dir, dir', entries[n], n, Walk(c, dir, init));
    }
  }

  lemma LineOccurs(before: string, line: string, after: string)
    ensures Occurs(before + line + after, line)
  {
    var text := before + line + after;
    assert text[|before|..|before| + |line|] == line;
  }

  /** A freshly stored manifest checks cleanly behind its predecessor. */
  lemma NewItemClean(c: Codec, dir: Directory, n: nat, previous: string, r: Request, errors: seq<Error>)
    requires CodecOk(c)
    requires
      var unsigned := UnsignedOf(n, Str(previous), r);
      var h := c.hash(Obj(unsigned));
      var manifest := Obj(Sign(unsigned, h));
      && JsonName(n, h) in dir && dir[JsonName(n, h)] == c.dumps(manifest)
      && MarkdownName(n, h) in dir && dir[MarkdownName(n, h)] == RenderMarkdown(c, manifest, h)
    ensures
      var h := c.hash(Obj(UnsignedOf(n, Str(previous), r)));
      CheckItem(c, dir, EntryOf(n, Str(previous), h), n, Checked(errors, previous)) == Checked(errors, h)
  {
    var unsigned := UnsignedOf(n, Str(previous), r);
    var h := c.hash(Obj(unsigned));
    var raw, item := Sign(unsigned, h), EntryOf(n, Str(previous), h);
    UnsignedAgain(unsigned, h);
    EqualsItself(n, h);
    NewRawClean(c, item.fields, raw, dir[MarkdownName(n, h)], n, previous, h);
    assert errors + [] == errors;
  }

  lemma UnsignedAgain(unsigned: map<string, Json>, h: string)
    requires "manifest_hash" !in unsigned
    ensures Unsigned(Sign(unsigned, h)) == Obj(unsigned)
  {
    var raw := Sign(unsigned, h);
    assert (map key | key in raw && key != "manifest_hash" :: raw[key]) == unsigned;
  }

  lemma NewRawClean(c: Codec, item: map<string, Json>, raw: map<string, Json>, markdown: string, n: nat,
                    previous: string, h: string)
    requires Digests(c) && h == c.hash(Unsigned(raw)) && Get(raw, "manifest_hash") == Str(h)
    requires Get(raw, "previous_manifest_hash") == Str(previous) && Get(item, "manifest_hash") == Str(h)
    requires markdown == RenderMarkdown(c, Obj(raw), h)
    ensures RawErrors(c, item, raw, markdown, n, previous) == []
  {
    LineOccurs(c.mdBefore(Obj(raw)), HashLine(h), c.mdAfter(Obj(raw)));
    EqualsItself(n, h);
  }

  lemma FreshNames(c: Codec, dir: Directory, n: nat, h: string)
    requires forall name :: name in dir ==> name == INDEX_FILE || NameBelow(name, n)
    ensures JsonName(n, h) !in dir && MarkdownName(n, h) !in dir
  {
    KindsApart(n, h);
    NotBelow(n, h);
  }

  lemma NotBelow(n: nat, h: string)
    ensures !NameBelow(JsonName(n, h), n) && !NameBelow(MarkdownName(n, h), n)
  {
    forall k: nat, g: string | k < n
      ensures JsonName(n, h) != JsonName(k, g) && JsonName(n, h) != MarkdownName(k, g)
      ensures MarkdownName(n, h) != JsonName(k, g) && MarkdownName(n, h) != MarkdownName(k, g)
    {
      DifferentNumbers(n, h, k, g);
    }
  }

  lemma DifferentNumbers(n: nat, h: string, k: nat, g: string)
    requires k != n
    ensures JsonName(n, h) != JsonName(k, g) && JsonName(n, h) != MarkdownName(k, g)
    ensures MarkdownName(n, h) != JsonName(k, g) && MarkdownName(n, h) != MarkdownName(k, g)
  {
    if JsonName(n, h) == JsonName(k, g) {
      NamesApart(n, h, ".json", k, g, ".json");
    }
    if JsonName(n, h) == MarkdownName(k, g) {
      NamesApart(n, h, ".json", k, g, ".md");
    }
    if MarkdownName(n, h) == JsonName(k, g) {
      NamesApart(n, h, ".md", k, g, ".json");
    }
    if MarkdownName(n, h) == MarkdownName(k, g) {
      NamesApart(n, h, ".md", k, g, ".md");
    }
  }

  /** What storing writes: the new files and index, with everything else as it was. */
  lemma StoreWrites(c: Codec, dir: Directory, fields: map<string, Json>, entries: seq<Json>, previous: string,
                    r: Request)
    requires CodecOk(c)
    requires forall name :: name in dir ==> name == INDEX_FILE || NameBelow(name, |entries|)
    ensures
      var dir' := Store(c, dir, fields, entries, Str(previous), r);
      var h := c.hash(Obj(UnsignedOf(|entries|, Str(previous), r)));
      var entry := EntryOf(|entries|, Str(previous), h);
      var manifest := Obj(Sign(UnsignedOf(|entries|, Str(previous), r), h));
      && ReadIndex(c, dir') == Entries(entries + [entry], fields["entries" := Arr(entries + [entry])])
      && (forall name :: name in dir && name != INDEX_FILE ==> name in dir' && dir'[name] == dir[name])
      && NamesStored(c, dir', entry)
      && dir'[JsonName(|entries|, h)] == c.dumps(manifest)
      && dir'[MarkdownName(|entries|, h)] == RenderMarkdown(c, manifest, h)
  {
    var n, h := |entries|, c.hash(Obj(UnsignedOf(|entries|, Str(previous), r)));
    KindsApart(n, h);
    FreshNames(c, dir, n, h);
  }

  /** The directory after storing a request behind the entries of an honest one. */
  function Stored(c: Codec, dir: Directory, r: Request): Directory
    requires ReadIndex(c, dir).Entries?
  {
    var index := ReadIndex(c, dir);
    Store(c, dir, index.fields, index.entries, Str(TipHash(c, dir)), r)
  }

  function TipHash(c: Codec, dir: Directory): string
    requires ReadIndex(c, dir).Entries?
  {
    var st := Walk(c, dir, ReadIndex(c, dir).entries);
    if st.Checked? then st.previous else GENESIS
  }

  function NewEntry(c: Codec, dir: Directory, r: Request): Json
    requires ReadIndex(c, dir).Entries?
  {
    var n := |ReadIndex(c, dir).entries|;
    EntryOf(n, Str(TipHash(c, dir)), c.hash(Obj(UnsignedOf(n, Str(TipHash(c, dir)), r))))
  }

  lemma StoredEntries(c: Codec, dir: Directory, r: Request)
    requires CodecOk(c) && Honest(c, dir)
    ensures ReadIndex(c, Stored(c, dir, r)).Entries?
    ensures ReadIndex(c, Stored(c, dir, r)).entries == ReadIndex(c, dir).entries + [NewEntry(c, dir, r)]
    ensures forall name :: name in dir && name != INDEX_FILE ==>
      name in Stored(c, dir, r) && Stored(c, dir, r)[name] == dir[name]
  {
    var index := ReadIndex(c, dir);
    StoreWrites(c, dir, index.fields, index.entries, TipHash(c, dir), r);
  }

  lemma StoredClean(c: Codec, dir: Directory, r: Request)
    requires CodecOk(c) && Honest(c, dir)
    ensures
      var n := |ReadIndex(c, dir).entries|;
      Walk(c, Stored(c, dir, r), ReadIndex(c, dir).entries + [NewEntry(c, dir, r)])
        == Checked([], c.hash(Obj(UnsignedOf(n, Str(TipHash(c, dir)), r))))
  {
    var index, dir' := ReadIndex(c, dir), Stored(c, dir, r);
    var n, entry := |index.entries|, NewEntry(c, dir, r);
    StoreWrites(c, dir, index.fields, index.entries, TipHash(c, dir), r);
    WalkFrame(c, dir, dir', index.entries);
    KindsApart(n, c.hash(Obj(UnsignedOf(n, Str(TipHash(c, dir)), r))));
    NewItemClean(c, dir', n, TipHash(c, dir), r, []);
    var all := index.entries + [entry];
    assert all[..n] == index.entries && all[n] == entry;
  }

  lemma StoredNames(c: Codec, dir: Directory, r: Request)
    requires CodecOk(c) && Honest(c, dir)
    ensures
      var all := ReadIndex(c, dir).entries + [NewEntry(c, dir, r)];
      && (forall k :: 0 <= k < |all| ==> NamesStored(c, Stored(c, dir, r), all[k]))
      && (forall name :: name in Stored(c, dir, r) ==> name == INDEX_FILE || NameBelow(name, |all|))
  {
    var index, dir' := ReadIndex(c, dir), Stored(c, dir, r);
    StoreWrites(c, dir, index.fields, index.entries, TipHash(c, dir), r);
    var all := index.entries + [NewEntry(c, dir, r)];
    forall k | 0 <= k < |all|
      ensures NamesStored(c, dir', all[k])
    {
      if k < |index.entries| {
        assert NamesStored(c, dir, index.entries[k]);
      }
    }
  }

  lemma TipOfNew(entries: seq<Json>, n: nat, previous: Json, h: string)
    ensures Tip(entries + [EntryOf(n, previous, h)]) == Some(Str(h))
  {
  }

  lemma HonestWhen(c: Codec, dir: Directory, entries: seq<Json>, previous: string)
    requires ReadIndex(c, dir).Entries? && ReadIndex(c, dir).entries == entries
    requires Walk(c, dir, entries) == Checked([], previous) && Tip(entries) == Some(Str(previous))
    requires forall k :: 0 <= k < |entries| ==> NamesStored(c, dir, entries[k])
    requires forall name :: name in dir ==> name == INDEX_FILE || NameBelow(name, |entries|)
    ensures Honest(c, dir)
  {
  }

  /** Appending to an honest directory leaves an honest directory, and never fails. */
  lemma StoredHonest(c: Codec, dir: Directory, r: Request)
    requires CodecOk(c) && Honest(c, dir)
    ensures Honest(c, Stored(c, dir, r))
  {
    var previous := c.hash(Obj(UnsignedOf(|ReadIndex(c, dir).entries|, Str(TipHash(c, dir)), r)));
    var all := ReadIndex(c, dir).entries + [NewEntry(c, dir, r)];
    var dir' := Stored(c, dir, r);
    assert ReadIndex(c, dir').Entries? && ReadIndex(c, dir').entries == all by {
      StoredEntries(c, dir, r);
    }
    assert Walk(c, dir', all) == Checked([], previous) by {
      StoredClean(c, dir, r);
    }
    assert Tip(all) == Some(Str(previous)) by {
      TipOfNew(ReadIndex(c, dir).entries, |ReadIndex(c, dir).entries|, Str(TipHash(c, dir)), previous);
    }
    StoredNames(c, dir, r);
    HonestWhen(c, dir', all, previous);
  }

  lemma AppendStores(c: Codec, dir: Directory, r: Request)
    requires CodecOk(c) && Honest(c, dir)
    ensures AppendTo(c, dir, r) == Appended(Stored(c, dir, r))
  {
    var n := |ReadIndex(c, dir).entries|;
    FreshNames(c, dir, n, c.hash(Obj(UnsignedOf(n, Str(TipHash(c, dir)), r))));
  }

  lemma NewManifest(c: Codec, dir: Directory, r: Request)
    requires CodecOk(c) && Honest(c, dir)
    ensures RawOf(c, Stored(c, dir, r), NewEntry(c, dir, r))
         == Signed(c, |ReadIndex(c, dir).entries|, TipHash(c, dir), r)
  {
    var index, previous := ReadIndex(c, dir), TipHash(c, dir);
    var n, raw := |index.entries|, Signed(c, |index.entries|, previous, r);
    var h := c.hash(Obj(UnsignedOf(n, Str(previous), r)));
    StoreWrites(c, dir, index.fields, index.entries, previous, r);
  }

  /** Appending keeps every earlier manifest and adds the requested one. */
  lemma StoredManifests(c: Codec, dir: Directory, r: Request)
    requires CodecOk(c) && Honest(c, dir)
    ensures
      var before, dir' := ReadIndex(c, dir).entries, Stored(c, dir, r);
      && (forall k :: 0 <= k < |before| ==> RawOf(c, dir', before[k]) == RawOf(c, dir, before[k]))
      && RawOf(c, dir', NewEntry(c, dir, r)) == Signed(c, |before|, TipHash(c, dir), r)
  {
    var before, dir' := ReadIndex(c, dir).entries, Stored(c, dir, r);
    StoredEntries(c, dir, r);
    NewManifest(c, dir, r);
    forall k | 0 <= k < |before|
      ensures RawOf(c, dir', before[k]) == RawOf(c, dir, before[k])
    {
    }
  }

  /** The manifest a request becomes at a place in the chain. */
  function Signed(c: Codec, n: nat, previous: string, r: Request): map<string, Json> {
    var unsigned := UnsignedOf(n, Str(previous), r);
    Sign(unsigned, c.hash(Obj(unsigned)))
  }

  /** A run of appends; `None` once one of them raises. */
  function RunAll(c: Codec, dir: Directory, requests: seq<Request>): Option<Directory>
    decreases |requests|
  {
    if requests == [] then Some(dir)
    else
      match RunAll(c, dir, requests[..|requests| - 1])
      case None => None
      case Some(d) =>
        match AppendTo(c, d, requests[|requests| - 1])
        case Appended(e) => Some(e)
        case Failed(_) => None
  }

  /** A manifest says what was requested, and its number. */
  ghost predicate Tells(raw: map<string, Json>, k: nat, r: Request) {
    raw - {"manifest_hash", "previous_manifest_hash"}
      == map["schema_version" := Str("mvpc.nexus.manifest.v1"), "sequence" := Int(k), "created_at" := Str(r.createdAt),
             "status" := Str(r.status), "source_hash" := Str(r.sourceHash), "payload" := r.payload]
  }

  lemma SignedTells(c: Codec, n: nat, previous: string, r: Request)
    ensures Tells(Signed(c, n, previous, r), n, r)
  {
  }

  ghost predicate Holds(c: Codec, dir: Directory, requests: seq<Request>) {
    var index := ReadIndex(c, dir);
    && index.Entries? && |index.entries| == |requests|
    && forall k :: 0 <= k < |requests| ==> Tells(RawOf(c, dir, index.entries[k]), k, requests[k])
  }

  lemma StoredHolds(c: Codec, dir: Directory, init: seq<Request>, r: Request)
    requires CodecOk(c) && Honest(c, dir) && Holds(c, dir, init)
    ensures Holds(c, Stored(c, dir, r), init + [r])
  {
    StoredEntries(c, dir, r);
    StoredManifests(c, dir, r);
    SignedTells(c, |init|, TipHash(c, dir), r);
    var before, all := ReadIndex(c, dir).entries, ReadIndex(c, Stored(c, dir, r)).entries;
    forall k | 0 <= k < |init| + 1
      ensures Tells(RawOf(c, Stored(c, dir, r), all[k]), k, (init + [r])[k])
    {
      if k < |init| {
        assert all[k] == before[k];
      }
    }
  }

  /** One append to an honest directory succeeds, keeps it honest and adds its request. */
  lemma AppendKeeps(c: Codec, before: Directory, init: seq<Request>,
                    r: Request) returns (d: Directory)
    requires CodecOk(c) && Honest(c, before) && Holds(c, before, init)
    ensures AppendTo(c, before, r) == Appended(d) && Honest(c, d) && Holds(c, d, init + [r])
  {
    d := Stored(c, before, r);
    assert AppendTo(c, before, r) == Appended(d) by {
      AppendStores(c, before, r);
    }
    assert Honest(c, d) by {
      StoredHonest(c, before, r);
    }
    assert Holds(c, d, init + [r]) by {
      StoredHolds(c, before, init, r);
    }
  }

  lemma SplitLast(requests: seq<Request>)
    requires requests != []
    ensures requests[..|requests| - 1] + [requests[|requests| - 1]] == requests
  {
  }

  lemma {:induction false} RunsHonest(c: Codec, requests: seq<Request>) returns (d: Directory)
    requires CodecOk(c)
    ensures RunAll(c, map[], requests) == Some(d) && Honest(c, d) && Holds(c, d, requests)
    decreases |requests|
  {
    if requests == [] {
      return map[];
    }
    var init, r := requests[..|requests| - 1], requests[|requests| - 1];
    var before := RunsHonest(c, init);
    SplitLast(requests);
    d := AppendKeeps(c, before, init, r);
  }

  /** Every run of appends from an empty directory succeeds and verifies without errors, and holds
      the requests in order. */
  lemma RunsVerify(c: Codec, requests: seq<Request>)
    requires CodecOk(c)
    ensures
      var d := RunAll(c, map[], requests);
      d.Some? && IsClean(Verdict(c, d.value)) && Holds(c, d.value, requests)
  {
    var d := RunsHonest(c, requests);
  }
}
