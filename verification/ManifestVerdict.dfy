/** What the verdict on a manifest directory means, stated over the stored texts alone: when a directory
    verifies, and which errors are reported otherwise. */
module ManifestVerdict {
  import opened Wrappers
  import opened JsonValues
  import opened Hashing
  import opened ManifestNames
  import opened ManifestLedger

  /** The index file lists these items; a directory without an index has none. */
  ghost predicate Lists(c: Codec, dir: Directory, entries: seq<Json>) {
    if "ledger-index.json" in dir then
      match c.parse(dir["ledger-index.json"])
      case Some(Obj(fields)) => "entries" in fields && fields["entries"] == Arr(entries)
      case _ => false
    else entries == []
  }

  /** The file an item names under a key. */
  ghost predicate Names(c: Codec, dir: Directory, item: map<string, Json>, key: string, name: string) {
    && name in dir
    && name == (if key in item then c.show(item[key]) else "")
  }

  function ContentHash(c: Codec, raw: map<string, Json>): string {
    c.hash(Obj(raw - {"manifest_hash"}))
  }

  /** Item number k stands: it has its number, both files exist, the manifest names its predecessor's hash and
      carries the hash of its own content, and so do the index and the Markdown companion. */
  ghost predicate Stands(c: Codec, dir: Directory, item: Json, k: nat, previous: string, raw: map<string, Json>) {
    && item.Obj?
    && "sequence" in item.fields && Equals(item.fields["sequence"], Int(k))
    && (exists name :: Names(c, dir, item.fields, "json_file", name) && c.parse(dir[name]) == Some(Obj(raw)))
    && "previous_manifest_hash" in raw && raw["previous_manifest_hash"] == Str(previous)
    && "manifest_hash" in raw && raw["manifest_hash"] == Str(ContentHash(c, raw))
    && "manifest_hash" in item.fields && item.fields["manifest_hash"] == Str(ContentHash(c, raw))
    && exists name, before, after ::
         && Names(c, dir, item.fields, "markdown_file", name)
         && dir[name] == before + ("**Manifest hash:** `" + ContentHash(c, raw) + "`") + after
  }

  /** Every item stands behind the one before it, the first behind the genesis text. */
  ghost predicate Chain(c: Codec, dir: Directory, entries: seq<Json>, raws: seq<map<string, Json>>) {
    && |raws| == |entries|
    && forall k :: 0 <= k < |entries| ==> Stands(c, dir, entries[k], k, HashBefore(c, raws, k), raws[k])
  }

  function HashBefore(c: Codec, raws: seq<map<string, Json>>, k: nat): string
    requires k <= |raws|
  {
    if k == 0 then "MVPC-X-NEXUS-GENESIS-v1" else ContentHash(c, raws[k - 1])
  }

  lemma OccursIff(text: string, part: string)
    ensures Occurs(text, part) <==> exists before, after :: text == before + part + after
  {
    if Occurs(text, part) {
      var i, j :| 0 <= i <= j <= |text| && text[i..j] == part;
      assert text == text[..i] + part + text[j..];
    }
    if before, after :| text == before + part + after {
      LineOccurs(before, part, after);
    }
  }

  lemma UnsignedIs(raw: map<string, Json>)
    ensures Unsigned(raw) == Obj(raw - {"manifest_hash"})
  {
    assert (map key | key in raw && key != "manifest_hash" :: raw[key]) == raw - {"manifest_hash"};
  }

  /** One step of the walk is clean exactly when the item stands behind what the walk carried. */
  lemma StepIff(c: Codec, dir: Directory, item: Json, k: nat, previous: string)
    requires Digests(c)
    ensures IsClean(CheckItem(c, dir, item, k, Checked([], previous)))
       <==> Stands(c, dir, item, k, previous, RawOf(c, dir, item))
  {
    if item.Obj? {
      var raw := RawOf(c, dir, item);
      UnsignedIs(raw);
      var h := ContentHash(c, raw);
      assert c.show(Str(h)) == h;
      var md := NameIn(c, item.fields, "markdown_file");
      if md in dir {
        OccursIff(dir[md], HashLine(h));
      }
    }
  }

  function Raws(c: Codec, dir: Directory, entries: seq<Json>): (raws: seq<map<string, Json>>)
    ensures |raws| == |entries| && forall k :: 0 <= k < |raws| ==> raws[k] == RawOf(c, dir, entries[k])
  {
    seq(|entries|, k requires 0 <= k < |entries| => RawOf(c, dir, entries[k]))
  }

  /** An item stands for one manifest only. */
  lemma StandsFor(c: Codec, dir: Directory, item: Json, k: nat, previous: string, raw: map<string, Json>)
    requires Stands(c, dir, item, k, previous, raw)
    ensures raw == RawOf(c, dir, item)
  {
  }

  lemma ChainIsRaws(c: Codec, dir: Directory, entries: seq<Json>, raws: seq<map<string, Json>>)
    requires Chain(c, dir, entries, raws)
    ensures raws == Raws(c, dir, entries)
  {
    forall k | 0 <= k < |entries|
      ensures raws[k] == RawOf(c, dir, entries[k])
    {
      StandsFor(c, dir, entries[k], k, HashBefore(c, raws, k), raws[k]);
    }
  }

  /** The first n items stand in a chain. */
  ghost predicate ChainTo(c: Codec, dir: Directory, entries: seq<Json>, n: nat)
    requires n <= |entries|
  {
    forall k :: 0 <= k < n ==> StandsAt(c, dir, entries, k)
  }

  ghost predicate StandsAt(c: Codec, dir: Directory, entries: seq<Json>, k: nat)
    requires k < |entries|
  {
    Stands(c, dir, entries[k], k, HashBefore(c, Raws(c, dir, entries), k), RawOf(c, dir, entries[k]))
  }

  lemma ChainToNext(c: Codec, dir: Directory, entries: seq<Json>, n: nat)
    requires 0 < n <= |entries|
    ensures ChainTo(c, dir, entries, n) <==> ChainTo(c, dir, entries, n - 1) && StandsAt(c, dir, entries, n - 1)
  {
  }

  lemma ChainIff(c: Codec, dir: Directory, entries: seq<Json>)
    ensures Chain(c, dir, entries, Raws(c, dir, entries)) <==> ChainTo(c, dir, entries, |entries|)
  {
    var raws := Raws(c, dir, entries);
    assert forall k :: 0 <= k < |entries| ==>
      (StandsAt(c, dir, entries, k) <==> Stands(c, dir, entries[k], k, HashBefore(c, raws, k), raws[k]));
  }

  /** The walk over the first n items is clean exactly when they form a chain, and then carries the last hash. */
  lemma {:induction false} WalkIff(c: Codec, dir: Directory, entries: seq<Json>, n: nat)
    requires Digests(c) && n <= |entries|
    ensures IsClean(Walk(c, dir, entries[..n])) <==> ChainTo(c, dir, entries, n)
    ensures IsClean(Walk(c, dir, entries[..n])) ==>
      Walk(c, dir, entries[..n]).previous == HashBefore(c, Raws(c, dir, entries), n)
  {
    if n > 0 {
      var st, item := Walk(c, dir, entries[..n - 1]), entries[n - 1];
      WalkIff(c, dir, entries, n - 1);
      ChainToNext(c, dir, entries, n);
      assert entries[..n][..n - 1] == entries[..n - 1];
      assert Walk(c, dir, entries[..n]) == CheckItem(c, dir, item, n - 1, st);
      if IsClean(st) {
        assert st == Checked([], st.previous);
        StepIff(c, dir, item, n - 1, st.previous);
      }
      if IsClean(CheckItem(c, dir, item, n - 1, st)) {
        CleanStep(c, dir, item, n - 1, st);
        UnsignedIs(RawOf(c, dir, item));
      }
    }
  }

  lemma WholeWalk(c: Codec, dir: Directory, entries: seq<Json>)
    requires Digests(c)
    ensures IsClean(Walk(c, dir, entries)) <==> Chain(c, dir, entries, Raws(c, dir, entries))
    ensures IsClean(Walk(c, dir, entries)) ==>
      Walk(c, dir, entries).previous == HashBefore(c, Raws(c, dir, entries), |entries|)
  {
    assert entries[..|entries|] == entries;
    WalkIff(c, dir, entries, |entries|);
    ChainIff(c, dir, entries);
  }

  lemma ListsIff(c: Codec, dir: Directory, entries: seq<Json>)
    ensures Lists(c, dir, entries) <==> ReadIndex(c, dir).Entries? && ReadIndex(c, dir).entries == entries
  {
  }

  /** A directory verifies without errors exactly when its index lists items that form a chain. */
  lemma VerifiesIff(c: Codec, dir: Directory)
    requires Digests(c)
    ensures IsClean(Verdict(c, dir)) <==> exists entries, raws :: Lists(c, dir, entries) && Chain(c, dir, entries, raws)
  {
    var index := ReadIndex(c, dir);
    if index.Entries? {
      ListsIff(c, dir, index.entries);
      WholeWalk(c, dir, index.entries);
    }
    if entries, raws :| Lists(c, dir, entries) && Chain(c, dir, entries, raws) {
      ListsIff(c, dir, entries);
      ChainIsRaws(c, dir, entries, raws);
    }
  }

  /** The hash a verdict without errors ends in is that of the last manifest. */
  lemma VerdictHash(c: Codec, dir: Directory, entries: seq<Json>, raws: seq<map<string, Json>>)
    requires Digests(c) && Lists(c, dir, entries) && Chain(c, dir, entries, raws)
    ensures Verdict(c, dir) == Checked([], HashBefore(c, raws, |entries|))
  {
    ListsIff(c, dir, entries);
    ChainIsRaws(c, dir, entries, raws);
    WholeWalk(c, dir, entries);
  }

  // ----- The errors of a directory that does not verify

  /** Both files of an item exist and the manifest reads. */
  ghost predicate Reads(c: Codec, dir: Directory, item: map<string, Json>, raw: map<string, Json>, markdown: string) {
    exists json, md ::
      && Names(c, dir, item, "json_file", json) && c.parse(dir[json]) == Some(Obj(raw))
      && Names(c, dir, item, "markdown_file", md) && dir[md] == markdown
  }

  /** The hash the link of item k is compared with: what the nearest readable manifest before it carries, or the
      genesis text. */
  ghost predicate Expected(c: Codec, dir: Directory, entries: seq<Json>, k: nat, previous: string)
    requires k <= |entries|
  {
    if k == 0 then previous == "MVPC-X-NEXUS-GENESIS-v1"
    else if Carries(c, dir, entries[k - 1]) then
      previous == c.show(RawOf(c, dir, entries[k - 1])["manifest_hash"])
    else Expected(c, dir, entries, k - 1, previous)
  }

  ghost predicate Carries(c: Codec, dir: Directory, item: Json) {
    && item.Obj?
    && exists raw, markdown :: Reads(c, dir, item.fields, raw, markdown) && "manifest_hash" in raw
                               && Truthy(raw["manifest_hash"])
  }

  ghost predicate Missing(c: Codec, dir: Directory, item: map<string, Json>, key: string) {
    forall name :: !Names(c, dir, item, key, name)
  }

  /** What each kind of error says about an item that is looked at behind a hash. */
  ghost predicate Faulty(c: Codec, dir: Directory, item: map<string, Json>, kind: Kind, k: nat, previous: string) {
    match kind
    case IndexUnreadable => false
    case Sequence => "sequence" !in item || !Equals(item["sequence"], Int(k))
    case PairMissing => Missing(c, dir, item, "json_file") || Missing(c, dir, item, "markdown_file")
    case JsonUnreadable =>
      && !Missing(c, dir, item, "markdown_file")
      && exists name :: Names(c, dir, item, "json_file", name) && c.parse(dir[name]) == None
    case _ =>
      exists raw, markdown :: Reads(c, dir, item, raw, markdown) && RawFaulty(c, item, raw, markdown, kind, previous)
  }

  /** A name is missing exactly when its file is. */
  lemma MissingIff(c: Codec, dir: Directory, item: map<string, Json>, key: string)
    ensures Missing(c, dir, item, key) <==> NameIn(c, item, key) !in dir
  {
    assert NameIn(c, item, key) in dir ==> Names(c, dir, item, key, NameIn(c, item, key));
  }

  lemma ReadsIff(c: Codec, dir: Directory, item: Json, raw: map<string, Json>, markdown: string)
    requires item.Obj?
    ensures Reads(c, dir, item.fields, raw, markdown)
       <==> && NameIn(c, item.fields, "json_file") in dir && NameIn(c, item.fields, "markdown_file") in dir
            && c.parse(dir[NameIn(c, item.fields, "json_file")]) == Some(Obj(raw))
            && markdown == dir[NameIn(c, item.fields, "markdown_file")]
  {
    var json, md := NameIn(c, item.fields, "json_file"), NameIn(c, item.fields, "markdown_file");
    if json in dir && md in dir {
      assert Names(c, dir, item.fields, "json_file", json) && Names(c, dir, item.fields, "markdown_file", md);
    }
  }

  /** What is wrong with a manifest that reads. */
  ghost predicate RawFaulty(c: Codec, item: map<string, Json>, raw: map<string, Json>, markdown: string, kind: Kind,
                            previous: string) {
    match kind
    case PreviousHash => "previous_manifest_hash" !in raw || raw["previous_manifest_hash"] != Str(previous)
    case ManifestHash => "manifest_hash" !in raw || raw["manifest_hash"] != Str(ContentHash(c, raw))
    case IndexHash => !Equals(Get(item, "manifest_hash"), Get(raw, "manifest_hash"))
    case Markdown =>
      && "manifest_hash" in raw && Truthy(raw["manifest_hash"])
      && forall before, after ::
           markdown != before + ("**Manifest hash:** `" + c.show(raw["manifest_hash"]) + "`") + after
    case _ => false
  }

  lemma RawErrorsIff(c: Codec, item: map<string, Json>, raw: map<string, Json>, markdown: string, k: nat,
                     previous: string, kind: Kind, at: nat)
    ensures Error(kind, at) in RawErrors(c, item, raw, markdown, k, previous)
       <==> at == k && RawFaulty(c, item, raw, markdown, kind, previous)
  {
    UnsignedIs(raw);
    OccursIff(markdown, HashLine(c.show(Get(raw, "manifest_hash"))));
  }

  /** The errors one item adds are exactly those it is at fault for. */
  lemma ItemErrors(c: Codec, dir: Directory, item: Json, k: nat, st: Check, kind: Kind, at: nat)
    requires item.Obj? && st.Checked? && CheckItem(c, dir, item, k, st).Checked?
    ensures Error(kind, at) in CheckItem(c, dir, item, k, st).errors
       <==> Error(kind, at) in st.errors || (at == k && Faulty(c, dir, item.fields, kind, k, st.previous))
  {
    var fields, raw := item.fields, RawOf(c, dir, item);
    var json, md := NameIn(c, fields, "json_file"), NameIn(c, fields, "markdown_file");
    MissingIff(c, dir, fields, "json_file");
    MissingIff(c, dir, fields, "markdown_file");
    if json in dir && md in dir && c.parse(dir[json]).Some? {
      RawErrorsIff(c, fields, raw, dir[md], k, st.previous, kind, at);
      ReadsIff(c, dir, item, raw, dir[md]);
    }
  }

  /** What the walk carries is what the next link is compared with. */
  lemma CarriedIs(c: Codec, dir: Directory, item: Json, k: nat, st: Check)
    requires item.Obj? && st.Checked? && CheckItem(c, dir, item, k, st).Checked?
    ensures CheckItem(c, dir, item, k, st).previous
         == if Carries(c, dir, item) then c.show(Get(RawOf(c, dir, item), "manifest_hash")) else st.previous
  {
    var raw := RawOf(c, dir, item);
    var json, md := NameIn(c, item.fields, "json_file"), NameIn(c, item.fields, "markdown_file");
    if json in dir && md in dir {
      ReadsIff(c, dir, item, raw, dir[md]);
    }
  }

  lemma {:induction false} WalkCarries(c: Codec, dir: Directory, entries: seq<Json>, n: nat, previous: string)
    requires n <= |entries| && Walk(c, dir, entries[..n]).Checked? && Expected(c, dir, entries, n, previous)
    ensures Walk(c, dir, entries[..n]).previous == previous
  {
    if n > 0 {
      var st := Walk(c, dir, entries[..n - 1]);
      assert entries[..n][..n - 1] == entries[..n - 1];
      assert Walk(c, dir, entries[..n]) == CheckItem(c, dir, entries[n - 1], n - 1, st);
      CarriedIs(c, dir, entries[n - 1], n - 1, st);
      if !Carries(c, dir, entries[n - 1]) {
        WalkCarries(c, dir, entries, n - 1, previous);
      }
    }
  }

  lemma {:induction false} WalkErrors(c: Codec, dir: Directory, entries: seq<Json>, n: nat, k: nat, previous: string,
                                      kind: Kind)
    requires k < |entries| && n <= |entries|
    requires Walk(c, dir, entries[..n]).Checked? && Expected(c, dir, entries, k, previous)
    ensures Error(kind, k) in Walk(c, dir, entries[..n]).errors
       <==> k < n && entries[k].Obj? && Faulty(c, dir, entries[k].fields, kind, k, previous)
  {
    if n > 0 {
      var st, item := Walk(c, dir, entries[..n - 1]), entries[n - 1];
      assert entries[..n][..n - 1] == entries[..n - 1];
      assert Walk(c, dir, entries[..n]) == CheckItem(c, dir, item, n - 1, st);
      WalkErrors(c, dir, entries, n - 1, k, previous, kind);
      ItemErrors(c, dir, item, n - 1, st, kind, k);
      if k == n - 1 {
        WalkCarries(c, dir, entries, k, previous);
      }
    }
  }

  /** If verification does not crash, it reports exactly the faults of the items the index lists. */
  lemma ErrorsAreFaults(c: Codec, dir: Directory, entries: seq<Json>, k: nat, previous: string, kind: Kind)
    requires Lists(c, dir, entries) && Verdict(c, dir).Checked?
    requires k < |entries| && Expected(c, dir, entries, k, previous)
    ensures entries[k].Obj?
    ensures Error(kind, k) in Verdict(c, dir).errors <==> Faulty(c, dir, entries[k].fields, kind, k, previous)
  {
    ListsIff(c, dir, entries);
    assert entries[..|entries|] == entries;
    WalkErrors(c, dir, entries, |entries|, k, previous, kind);
    NoCrash(c, dir, entries, |entries|, k);
  }

  lemma {:induction false} NoCrash(c: Codec, dir: Directory, entries: seq<Json>, n: nat, k: nat)
    requires k < n <= |entries| && Walk(c, dir, entries[..n]).Checked?
    ensures entries[k].Obj?
  {
    assert entries[..n][..n - 1] == entries[..n - 1];
    if k < n - 1 {
      NoCrash(c, dir, entries, n - 1, k);
    }
  }

  // ----- What appending writes, and when it is refused

  /** The last item carries this hash; without items it is the genesis text. */
  ghost predicate LastHash(entries: seq<Json>, previous: Json) {
    if entries == [] then previous == Str("MVPC-X-NEXUS-GENESIS-v1")
    else
      match entries[|entries| - 1]
      case Obj(fields) => "manifest_hash" in fields && fields["manifest_hash"] == previous
      case _ => false
  }

  /** The number in decimal, with zeros in front up to six digits, a dash and sixteen characters of the hash. */
  ghost predicate IsStem(stem: string, number: nat, hash: string) {
    exists digits ::
      && |digits| >= 6 && (|digits| > 6 ==> digits[0] != '0')
      && (forall k :: 0 <= k < |digits| ==> '0' <= digits[k] <= '9')
      && Number(digits) == number
      && |hash| >= 16 && stem == digits + "-" + hash[..16]
  }

  lemma {:induction false} DecimalStart(n: nat)
    ensures n > 0 ==> Decimal(n)[0] != '0'
  {
    if n >= 10 {
      DecimalStart(n / 10);
    }
  }

  lemma StemIsStem(n: nat, hash: string)
    requires |hash| >= 16
    ensures IsStem(Stem(n, hash), n, hash)
  {
    DecimalStart(n);
    NumberOfPadded(n);
    assert Stem(n, hash) == Padded(n) + "-" + hash[..16];
  }

  /** The manifest of a request with a number and a link, and the hash of all that. */
  ghost predicate Records(c: Codec, raw: map<string, Json>, number: nat, previous: Json, r: Request) {
    && "manifest_hash" in raw && raw["manifest_hash"] == Str(ContentHash(c, raw))
    && raw - {"manifest_hash"}
       == map["schema_version" := Str("mvpc.nexus.manifest.v1"), "sequence" := Int(number),
              "created_at" := Str(r.createdAt), "previous_manifest_hash" := previous, "status" := Str(r.status),
              "source_hash" := Str(r.sourceHash), "payload" := r.payload]
  }

  /** The item listed for a manifest. */
  ghost predicate Refers(item: Json, number: nat, previous: Json, hash: string, stem: string) {
    item == Obj(map["sequence" := Int(number), "manifest_hash" := Str(hash), "previous_manifest_hash" := previous,
                    "json_file" := Str(stem + ".json"), "markdown_file" := Str(stem + ".md")])
  }

  /** The fields of the index file, or those of a new one. */
  ghost predicate IndexFields(c: Codec, dir: Directory, fields: map<string, Json>) {
    if "ledger-index.json" in dir then c.parse(dir["ledger-index.json"]) == Some(Obj(fields))
    else fields == map["schema_version" := Str("mvpc.nexus.ledger.v1"), "entries" := Arr([])]
  }

  lemma NewRecords(c: Codec, number: nat, previous: Json, r: Request)
    ensures
      var unsigned := UnsignedOf(number, previous, r);
      var raw := Sign(unsigned, c.hash(Obj(unsigned)));
      Records(c, raw, number, previous, r) && ContentHash(c, raw) == c.hash(Obj(unsigned))
  {
    var unsigned := UnsignedOf(number, previous, r);
    assert Sign(unsigned, c.hash(Obj(unsigned))) - {"manifest_hash"} == unsigned;
  }

  lemma StoreIs(c: Codec, dir: Directory, fields: map<string, Json>, entries: seq<Json>, previous: Json, r: Request,
                h: string, raw: map<string, Json>)
    requires h == c.hash(Obj(UnsignedOf(|entries|, previous, r)))
    requires raw == Sign(UnsignedOf(|entries|, previous, r), h)
    ensures
      var stem := Stem(|entries|, h);
      var line := "**Manifest hash:** `" + h + "`";
      var text := c.mdBefore(Obj(raw)) + line + c.mdAfter(Obj(raw));
      Store(c, dir, fields, entries, previous, r)
        == dir[stem + ".json" := c.dumps(Obj(raw))][stem + ".md" := text]
              ["ledger-index.json"
                 := c.dumps(Obj(fields["entries" := Arr(entries + [EntryOf(|entries|, previous, h)])]))]
  {
  }

  lemma AppendCases(c: Codec, dir: Directory, r: Request, fields: map<string, Json>, entries: seq<Json>, previous: Json,
                    h: string)
    requires IndexFields(c, dir, fields) && Lists(c, dir, entries) && LastHash(entries, previous)
    requires h == c.hash(Obj(UnsignedOf(|entries|, previous, r)))
    ensures AppendTo(c, dir, r)
         == if JsonName(|entries|, h) in dir || MarkdownName(|entries|, h) in dir then Failed(FileExistsError)
            else Appended(Store(c, dir, fields, entries, previous, r))
  {
    ListsIff(c, dir, entries);
    assert Tip(entries) == Some(previous);
    assert ReadIndex(c, dir) == Entries(entries, fields);
  }

  /** With a readable index and a hash to link to, appending writes the manifest, its companion and the index that
      lists one more item, unless one of the two names is taken. */
  lemma AppendWrites(c: Codec, dir: Directory, r: Request, fields: map<string, Json>, entries: seq<Json>,
                     previous: Json) returns (stem: string, raw: map<string, Json>, item: Json)
    requires Digests(c) && IndexFields(c, dir, fields) && Lists(c, dir, entries) && LastHash(entries, previous)
    ensures Records(c, raw, |entries|, previous, r) && IsStem(stem, |entries|, ContentHash(c, raw))
    ensures Refers(item, |entries|, previous, ContentHash(c, raw), stem)
    ensures AppendTo(c, dir, r)
         == if stem + ".json" in dir || stem + ".md" in dir then Failed(FileExistsError)
            else
              var line := "**Manifest hash:** `" + ContentHash(c, raw) + "`";
              var text := c.mdBefore(Obj(raw)) + line + c.mdAfter(Obj(raw));
              Appended(dir[stem + ".json" := c.dumps(Obj(raw))][stem + ".md" := text]
                          ["ledger-index.json" := c.dumps(Obj(fields["entries" := Arr(entries + [item])]))])
  {
    var n, unsigned := |entries|, UnsignedOf(|entries|, previous, r);
    var h := c.hash(Obj(unsigned));
    stem, raw, item := Stem(n, h), Sign(unsigned, h), EntryOf(n, previous, h);
    NewRecords(c, n, previous, r);
    StemIsStem(n, h);
    AppendCases(c, dir, r, fields, entries, previous, h);
    StoreIs(c, dir, fields, entries, previous, r, h, raw);
  }

  /** An index that is no JSON is refused as such. */
  lemma AppendDecodeErrorIff(c: Codec, dir: Directory, r: Request)
    ensures AppendTo(c, dir, r) == Failed(JsonDecodeError)
       <==> "ledger-index.json" in dir && c.parse(dir["ledger-index.json"]) == None
  {
  }

  /** What the index lists, if it lists anything. */
  lemma ListsNone(c: Codec, dir: Directory)
    ensures (forall entries: seq<Json> :: !Lists(c, dir, entries)) <==> !ReadIndex(c, dir).Entries?
  {
    if ReadIndex(c, dir).Entries? {
      ListsIff(c, dir, ReadIndex(c, dir).entries);
    }
  }

  /** The index lists items of which the last is no dictionary. */
  ghost predicate EndsUntyped(c: Codec, dir: Directory) {
    exists entries: seq<Json> :: Lists(c, dir, entries) && entries != [] && !entries[|entries| - 1].Obj?
  }

  /** The index lists items of which the last is a dictionary without a hash. */
  ghost predicate EndsUnhashed(c: Codec, dir: Directory) {
    exists entries: seq<Json> :: Lists(c, dir, entries) && entries != [] && entries[|entries| - 1].Obj?
                                 && "manifest_hash" !in entries[|entries| - 1].fields
  }

  lemma EndsIff(c: Codec, dir: Directory)
    ensures EndsUntyped(c, dir)
       <==> && ReadIndex(c, dir).Entries? && ReadIndex(c, dir).entries != []
            && !ReadIndex(c, dir).entries[|ReadIndex(c, dir).entries| - 1].Obj?
    ensures EndsUnhashed(c, dir)
       <==> && ReadIndex(c, dir).Entries? && ReadIndex(c, dir).entries != []
            && ReadIndex(c, dir).entries[|ReadIndex(c, dir).entries| - 1].Obj?
            && "manifest_hash" !in ReadIndex(c, dir).entries[|ReadIndex(c, dir).entries| - 1].fields
  {
    if ReadIndex(c, dir).Entries? {
      ListsIff(c, dir, ReadIndex(c, dir).entries);
    }
  }

  /** The other refusals: a type error means JSON that lists no items or a last item that is not a dictionary, a key
      error a last item without a hash. */
  lemma AppendRaisesIff(c: Codec, dir: Directory, r: Request)
    ensures AppendTo(c, dir, r) == Failed(TypeError)
       <==> || ("ledger-index.json" in dir && c.parse(dir["ledger-index.json"]) != None
                && forall entries: seq<Json> :: !Lists(c, dir, entries))
            || EndsUntyped(c, dir)
    ensures AppendTo(c, dir, r) == Failed(KeyError) <==> EndsUnhashed(c, dir)
  {
    ListsNone(c, dir);
    EndsIff(c, dir);
    RaisesPlain(c, dir, r);
  }

  lemma RaisesPlain(c: Codec, dir: Directory, r: Request)
    ensures
      var index := ReadIndex(c, dir);
      && (AppendTo(c, dir, r) == Failed(TypeError)
          <==> || index.Malformed?
               || (index.Entries? && index.entries != [] && !index.entries[|index.entries| - 1].Obj?))
      && (AppendTo(c, dir, r) == Failed(KeyError)
          <==> && index.Entries? && index.entries != [] && index.entries[|index.entries| - 1].Obj?
               && "manifest_hash" !in index.entries[|index.entries| - 1].fields)
  {
  }

  // ----- Runs

  /** Every run from an empty directory leaves a chain of manifests that record its requests in order. */
  lemma RunsRecord(c: Codec, requests: seq<Request>)
      returns (dir: Directory, entries: seq<Json>, raws: seq<map<string, Json>>)
    requires CodecOk(c)
    ensures RunAll(c, map[], requests) == Some(dir) && Lists(c, dir, entries) && Chain(c, dir, entries, raws)
    ensures |entries| == |requests|
    ensures forall k :: 0 <= k < |requests| ==> Tells(raws[k], k, requests[k])
  {
    RunsVerify(c, requests);
    dir := RunAll(c, map[], requests).value;
    entries := ReadIndex(c, dir).entries;
    ListsIff(c, dir, entries);
    WholeWalk(c, dir, entries);
    raws := Raws(c, dir, entries);
  }
}
