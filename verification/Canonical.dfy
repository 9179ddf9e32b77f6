/** Canonical values and the composite hash over named parts (src/mvpc/canonical.py).
    Dictionaries are given with their insertion order and sets with their iteration
    order, because what the source makes of either is the question. */
module Canonical {
  import opened Hashing
  import opened Ordering

  /** Dictionary keys, each with its `str` text; a non-string key may share its text with a string. */
  datatype Key = StrKey(text: string) | OtherKey(text: string)

  datatype Pair = Pair(key: Key, value: Value)

  /** Dictionaries list their pairs in insertion order and sets their members in iteration order.
      A moment is given by its UTC text, a float by its `repr`. */
  datatype Value =
    | Null | Bool(b: bool) | Int(n: int) | Float(repr: string) | Str(s: string)
    | DateTime(utc: string) | Date(iso: string) | Bytes(bytes: seq<bv8>)
    | List(items: seq<Value>) | Tuple(items: seq<Value>) | Set(items: seq<Value>) | Dict(pairs: seq<Pair>)

  type Dumps = Value -> string

  function Nibble(b: bv8): char {
    "0123456789abcdef"[(b & 15) as int]
  }

  function Hex(bytes: seq<bv8>): string {
    if |bytes| == 0 then "" else [Nibble(bytes[0] >> 4), Nibble(bytes[0])] + Hex(bytes[1..])
  }

  function PairText(p: Pair): string {
    p.key.text
  }

  /** Assigning to a dictionary: an existing key keeps its place and takes the new value. */
  function Assign(pairs: seq<Pair>, p: Pair): seq<Pair> {
    if |pairs| == 0 then [p]
    else if pairs[0].key == p.key then [p] + pairs[1..]
    else [pairs[0]] + Assign(pairs[1..], p)
  }

  function AssignAll(pairs: seq<Pair>): seq<Pair> {
    if |pairs| == 0 then [] else Assign(AssignAll(pairs[..|pairs| - 1]), pairs[|pairs| - 1])
  }

  function Normalize(dumps: Dumps, v: Value): Value
    decreases v
  {
    match v
    case Dict(pairs) =>
      var texts := seq(|pairs|, i requires 0 <= i < |pairs| =>
                         Pair(StrKey(pairs[i].key.text), Normalize(dumps, pairs[i].value)));
      Dict(AssignAll(SortBy(texts, PairText)))
    case List(items) => List(seq(|items|, i requires 0 <= i < |items| => Normalize(dumps, items[i])))
    case Tuple(items) => List(seq(|items|, i requires 0 <= i < |items| => Normalize(dumps, items[i])))
    case Set(items) => List(SortBy(seq(|items|, i requires 0 <= i < |items| => Normalize(dumps, items[i])), dumps))
    case DateTime(utc) => Str(utc)
    case Date(iso) => Str(iso)
    case Bytes(bytes) => Str(Hex(bytes))
    case _ => v
  }

  function NormalItems(dumps: Dumps, items: seq<Value>): (r: seq<Value>)
    ensures |r| == |items| && forall i :: 0 <= i < |r| ==> r[i] == Normalize(dumps, items[i])
  {
    seq(|items|, i requires 0 <= i < |items| => Normalize(dumps, items[i]))
  }

  function NormalPairs(dumps: Dumps, pairs: seq<Pair>): (r: seq<Pair>)
    ensures |r| == |pairs|
    ensures forall i :: 0 <= i < |r| ==> r[i] == Pair(StrKey(pairs[i].key.text), Normalize(dumps, pairs[i].value))
  {
    seq(|pairs|, i requires 0 <= i < |pairs| => Pair(StrKey(pairs[i].key.text), Normalize(dumps, pairs[i].value)))
  }

  // ----- Normal values

  ghost predicate Ascending(pairs: seq<Pair>) {
    forall i, j :: 0 <= i < j < |pairs| ==>
      Leq(PairText(pairs[i]), PairText(pairs[j])) && PairText(pairs[i]) != PairText(pairs[j])
  }

  ghost predicate StringKeys(pairs: seq<Pair>) {
    forall i :: 0 <= i < |pairs| ==> pairs[i].key.StrKey?
  }

  /** Only JSON values, with string keys in strictly ascending order throughout. */
  ghost predicate Normal(v: Value)
    decreases v
  {
    match v
    case Dict(pairs) => StringKeys(pairs) && Ascending(pairs) && forall i :: 0 <= i < |pairs| ==> Normal(pairs[i].value)
    case List(items) => forall i :: 0 <= i < |items| ==> Normal(items[i])
    case Tuple(_) => false
    case Set(_) => false
    case DateTime(_) => false
    case Date(_) => false
    case Bytes(_) => false
    case _ => true
  }

  ghost predicate NormalPair(p: Pair) {
    p.key.StrKey? && Normal(p.value)
  }

  ghost predicate AllNormal(items: seq<Value>) {
    forall x :: x in items ==> Normal(x)
  }

  ghost predicate AllNormalPairs(pairs: seq<Pair>) {
    forall p :: p in pairs ==> NormalPair(p)
  }

  lemma SortMembers<T>(xs: seq<T>, key: T -> string)
    ensures forall x :: x in SortBy(xs, key) <==> x in xs
  {
    SortKeeps(xs, key);
    forall x
      ensures x in SortBy(xs, key) <==> x in xs
    {
      assert x in SortBy(xs, key) <==> x in multiset(SortBy(xs, key));
    }
  }

  ghost predicate Without(pairs: seq<Pair>, key: Key) {
    forall i :: 0 <= i < |pairs| ==> pairs[i].key != key
  }

  lemma {:induction false} AssignNew(pairs: seq<Pair>, p: Pair)
    requires Without(pairs, p.key)
    ensures Assign(pairs, p) == pairs + [p]
  {
    if |pairs| > 0 {
      AssignNew(pairs[1..], p);
      assert pairs == [pairs[0]] + pairs[1..];
    }
  }

  lemma {:induction false} AssignAgain(init: seq<Pair>, was: Pair, p: Pair)
    requires Without(init, p.key) && was.key == p.key
    ensures Assign(init + [was], p) == init + [p]
  {
    if |init| > 0 {
      AssignAgain(init[1..], was, p);
      assert (init + [was])[1..] == init[1..] + [was];
      assert init + [p] == [init[0]] + (init[1..] + [p]);
    }
  }

  ghost predicate UpTo(pairs: seq<Pair>, text: string) {
    forall q :: q in pairs ==> Leq(PairText(q), text)
  }

  lemma {:induction false} AssignAllNormal(pairs: seq<Pair>)
    requires InOrder(pairs, PairText) && AllNormalPairs(pairs)
    ensures Ascending(AssignAll(pairs)) && AllNormalPairs(AssignAll(pairs))
    ensures |pairs| > 0 ==> UpTo(AssignAll(pairs), PairText(pairs[|pairs| - 1]))
    ensures |pairs| == 0 ==> |AssignAll(pairs)| == 0
    decreases |pairs|
  {
    if |pairs| > 0 {
      var init, p := pairs[..|pairs| - 1], pairs[|pairs| - 1];
      var done := AssignAll(init);
      AssignAllNormal(init);
      assert NormalPair(p) && AllNormalPairs(init) by {
        assert pairs == init + [p];
      }
      assert UpTo(done, PairText(p)) by {
        if |init| > 0 {
          var text := PairText(init[|init| - 1]);
          assert Leq(PairText(pairs[|init| - 1]), PairText(pairs[|pairs| - 1]));
          UpToTransitive(done, text, PairText(p));
        }
      }
      AssignKeepsAscending(done, p);
    }
  }

  lemma UpToTransitive(pairs: seq<Pair>, a: string, b: string)
    requires UpTo(pairs, a) && Leq(a, b)
    ensures UpTo(pairs, b)
  {
    forall q | q in pairs
      ensures Leq(PairText(q), b)
    {
      LeqTransitive(PairText(q), a, b);
    }
  }

  lemma AscendingWithout(init: seq<Pair>, last: Pair, p: Pair)
    requires Ascending(init + [last]) && AllNormalPairs(init + [last]) && NormalPair(p)
    requires Leq(PairText(last), PairText(p))
    ensures Ascending(init) && Without(init, p.key) && AllNormalPairs(init)
    ensures last.key != p.key ==> Without(init + [last], p.key)
  {
    var pairs := init + [last];
    assert forall i :: 0 <= i < |init| ==> pairs[i] == init[i];
    assert forall x :: x in init ==> x in pairs;
    forall i | 0 <= i < |init|
      ensures init[i].key != p.key
    {
      assert Leq(PairText(pairs[i]), PairText(pairs[|init|])) && PairText(pairs[i]) != PairText(pairs[|init|]);
      if init[i].key == p.key {
        LeqAntisymmetric(PairText(last), PairText(init[i]));
      }
    }
  }

  lemma AscendingExtends(pairs: seq<Pair>, p: Pair)
    requires Ascending(pairs) && AllNormalPairs(pairs) && NormalPair(p)
    requires UpTo(pairs, PairText(p)) && Without(pairs, p.key)
    ensures Ascending(pairs + [p]) && AllNormalPairs(pairs + [p]) && UpTo(pairs + [p], PairText(p))
  {
    LeqTotal(PairText(p), PairText(p));
    forall i | 0 <= i < |pairs|
      ensures Leq(PairText(pairs[i]), PairText(p)) && PairText(pairs[i]) != PairText(p)
    {
      assert pairs[i] in pairs;
      assert NormalPair(pairs[i]);
    }
  }

  lemma AssignKeepsAscending(done: seq<Pair>, p: Pair)
    requires Ascending(done) && AllNormalPairs(done) && NormalPair(p) && UpTo(done, PairText(p))
    ensures Ascending(Assign(done, p)) && AllNormalPairs(Assign(done, p)) && UpTo(Assign(done, p), PairText(p))
  {
    if |done| == 0 {
      AssignNew(done, p);
      AscendingExtends(done, p);
    } else {
      var init, last := done[..|done| - 1], done[|done| - 1];
      assert done == init + [last];
      assert last in done;
      AscendingWithout(init, last, p);
      if last.key == p.key {
        AssignAgain(init, last, p);
        AscendingExtends(init, p);
      } else {
        AssignNew(done, p);
        AscendingExtends(done, p);
      }
    }
  }

  /** The result of normalising is normal. */
  lemma {:induction false} NormalizeIsNormal(dumps: Dumps, v: Value)
    ensures Normal(Normalize(dumps, v))
    decreases v
  {
    match v
    case Dict(pairs) =>
      forall i | 0 <= i < |pairs|
        ensures Normal(Normalize(dumps, pairs[i].value))
      {
        NormalizeIsNormal(dumps, pairs[i].value);
      }
      var texts := NormalPairs(dumps, pairs);
      SortMembers(texts, PairText);
      SortOrders(texts, PairText);
      AssignAllNormal(SortBy(texts, PairText));
      NormalDict(AssignAll(SortBy(texts, PairText)));
    case List(items) =>
      NormalItemsAreNormal(dumps, v, items);
    case Tuple(items) =>
      NormalItemsAreNormal(dumps, v, items);
    case Set(items) =>
      NormalItemsAreNormal(dumps, v, items);
      SortMembers(NormalItems(dumps, items), dumps);
    case _ =>
  }

  lemma NormalDict(pairs: seq<Pair>)
    requires Ascending(pairs) && AllNormalPairs(pairs)
    ensures Normal(Dict(pairs))
  {
    forall i | 0 <= i < |pairs|
      ensures pairs[i].key.StrKey? && Normal(pairs[i].value)
    {
      assert pairs[i] in pairs;
    }
  }

  lemma {:induction false} NormalItemsAreNormal(dumps: Dumps, v: Value, items: seq<Value>)
    requires (v.List? || v.Tuple? || v.Set?) && v.items == items
    ensures AllNormal(NormalItems(dumps, items))
    decreases v, 0
  {
    forall i | 0 <= i < |items|
      ensures Normal(Normalize(dumps, items[i]))
    {
      NormalizeIsNormal(dumps, items[i]);
    }
  }

  lemma AscendingAssigns(init: seq<Pair>, p: Pair)
    requires Ascending(init + [p]) && AllNormalPairs(init + [p])
    ensures Assign(init, p) == init + [p]
  {
    var pairs := init + [p];
    assert NormalPair(p) by {
      assert pairs[|init|] in pairs;
    }
    LeqTotal(PairText(p), PairText(p));
    AscendingWithout(init, p, p);
    AssignNew(init, p);
  }

  lemma {:induction false} AscendingAssigned(pairs: seq<Pair>)
    requires Ascending(pairs) && AllNormalPairs(pairs)
    ensures AssignAll(pairs) == pairs
    decreases |pairs|
  {
    if |pairs| > 0 {
      var init, p := pairs[..|pairs| - 1], pairs[|pairs| - 1];
      assert pairs == init + [p];
      AscendingAssigned(init);
      AscendingAssigns(init, p);
    }
  }

  /** Normalising leaves exactly the normal values alone. */
  lemma {:induction false} FixedIffNormal(dumps: Dumps, v: Value)
    ensures Normalize(dumps, v) == v <==> Normal(v)
    decreases v
  {
    NormalizeIsNormal(dumps, v);
    if Normal(v) {
      match v
      case Dict(pairs) =>
        forall i | 0 <= i < |pairs|
          ensures Pair(StrKey(pairs[i].key.text), Normalize(dumps, pairs[i].value)) == pairs[i]
        {
          FixedIffNormal(dumps, pairs[i].value);
        }
        assert NormalPairs(dumps, pairs) == pairs;
        SortKeepsOrdered(pairs, PairText);
        AscendingAssigned(pairs);
      case List(items) =>
        forall i | 0 <= i < |items|
          ensures Normalize(dumps, items[i]) == items[i]
        {
          FixedIffNormal(dumps, items[i]);
        }
        assert NormalItems(dumps, items) == items;
      case _ =>
    }
  }

  lemma NormalizeIdempotent(dumps: Dumps, v: Value)
    ensures Normalize(dumps, Normalize(dumps, v)) == Normalize(dumps, v)
  {
    NormalizeIsNormal(dumps, v);
    FixedIffNormal(dumps, Normalize(dumps, v));
  }

  // ----- Order does not matter

  ghost predicate DistinctTexts(pairs: seq<Pair>) {
    forall i, j :: 0 <= i < j < |pairs| ==> PairText(pairs[i]) != PairText(pairs[j])
  }

  /** Keys with one text bring values with one normal form. */
  ghost predicate Unambiguous(dumps: Dumps, pairs: seq<Pair>) {
    Keyed(NormalPairs(dumps, pairs), PairText)
  }

  /** The values differ at most in the insertion order of unambiguous dictionaries and in the iteration order
      of sets, at any depth. */
  ghost predicate SameUpToOrder(dumps: Dumps, v: Value, w: Value)
    decreases v
  {
    match (v, w)
    case (Dict(xs), Dict(ys)) =>
      && Unambiguous(dumps, xs)
      && exists zs: seq<Pair> ::
        && multiset(zs) == multiset(ys) && |zs| == |xs|
        && forall i :: 0 <= i < |xs| ==> xs[i].key == zs[i].key && SameUpToOrder(dumps, xs[i].value, zs[i].value)
    case (Set(xs), Set(ys)) =>
      exists zs: seq<Value> ::
        && multiset(zs) == multiset(ys) && |zs| == |xs|
        && forall i :: 0 <= i < |xs| ==> SameUpToOrder(dumps, xs[i], zs[i])
    case (List(xs), List(ys)) => |xs| == |ys| && forall i :: 0 <= i < |xs| ==> SameUpToOrder(dumps, xs[i], ys[i])
    case (Tuple(xs), Tuple(ys)) => |xs| == |ys| && forall i :: 0 <= i < |xs| ==> SameUpToOrder(dumps, xs[i], ys[i])
    case _ => v == w
  }

  /** Different normal values have different JSON texts. */
  ghost predicate Faithful(dumps: Dumps) {
    forall x, y :: Normal(x) && Normal(y) && dumps(x) == dumps(y) ==> x == y
  }

  function Mapped<T, U>(f: T -> U, xs: seq<T>): (r: seq<U>)
    ensures |r| == |xs| && forall i :: 0 <= i < |r| ==> r[i] == f(xs[i])
  {
    seq(|xs|, i requires 0 <= i < |xs| => f(xs[i]))
  }

  lemma MappedAround<T, U>(f: T -> U, before: seq<T>, x: T, after: seq<T>)
    ensures multiset(Mapped(f, before + [x] + after)) == multiset(Mapped(f, before + after)) + multiset{f(x)}
  {
    assert Mapped(f, before + [x] + after) == Mapped(f, before) + [f(x)] + Mapped(f, after);
    assert Mapped(f, before + after) == Mapped(f, before) + Mapped(f, after);
  }

  lemma Locate<T>(ys: seq<T>, x: T) returns (before: seq<T>, after: seq<T>)
    requires x in ys
    ensures ys == before + [x] + after
    ensures multiset(ys) == multiset(before + after) + multiset{x}
  {
    var j :| 0 <= j < |ys| && ys[j] == x;
    before, after := ys[..j], ys[j + 1..];
    assert ys == before + [x] + after;
  }

  lemma MappedHead<T, U>(f: T -> U, x: T, rest: seq<T>)
    ensures multiset(Mapped(f, [x] + rest)) == multiset(Mapped(f, rest)) + multiset{f(x)}
  {
    assert Mapped(f, [x] + rest) == [f(x)] + Mapped(f, rest);
  }

  lemma Cancel<T>(a: multiset<T>, b: multiset<T>, x: T)
    requires a + multiset{x} == b + multiset{x}
    ensures a == b
  {
    assert a == a + multiset{x} - multiset{x};
    assert b == b + multiset{x} - multiset{x};
  }

  lemma {:induction false} MappedShuffled<T, U>(f: T -> U, xs: seq<T>, ys: seq<T>)
    requires multiset(xs) == multiset(ys)
    ensures multiset(Mapped(f, xs)) == multiset(Mapped(f, ys))
    decreases |xs|
  {
    if |xs| == 0 {
      assert |multiset(xs)| == |multiset(ys)|;
    } else {
      var x := xs[0];
      assert x in multiset(xs);
      assert x in ys;
      var before, after := Locate(ys, x);
      var rest := xs[1..];
      assert xs == [x] + rest;
      Cancel(multiset(rest), multiset(before + after), x);
      MappedShuffled(f, rest, before + after);
      MappedAround(f, before, x, after);
      MappedHead(f, x, rest);
    }
  }

  lemma NormalItemsShuffled(dumps: Dumps, zs: seq<Value>, ys: seq<Value>)
    requires multiset(zs) == multiset(ys)
    ensures multiset(NormalItems(dumps, zs)) == multiset(NormalItems(dumps, ys))
  {
    var f := x => Normalize(dumps, x);
    MappedShuffled(f, zs, ys);
    assert Mapped(f, zs) == NormalItems(dumps, zs) && Mapped(f, ys) == NormalItems(dumps, ys);
  }

  lemma NormalPairsShuffled(dumps: Dumps, zs: seq<Pair>, ys: seq<Pair>)
    requires multiset(zs) == multiset(ys)
    ensures multiset(NormalPairs(dumps, zs)) == multiset(NormalPairs(dumps, ys))
  {
    var f := (p: Pair) => Pair(StrKey(p.key.text), Normalize(dumps, p.value));
    MappedShuffled(f, zs, ys);
    assert Mapped(f, zs) == NormalPairs(dumps, zs) && Mapped(f, ys) == NormalPairs(dumps, ys);
  }

  /** Keys with texts of their own are enough. */
  lemma DistinctTextsUnambiguous(dumps: Dumps, pairs: seq<Pair>)
    requires DistinctTexts(pairs)
    ensures Unambiguous(dumps, pairs)
  {
    var normal := NormalPairs(dumps, pairs);
    forall p, q | p in normal && q in normal && PairText(p) == PairText(q)
      ensures p == q
    {
      var i :| 0 <= i < |normal| && normal[i] == p;
      var j :| 0 <= j < |normal| && normal[j] == q;
      assert PairText(pairs[i]) == PairText(pairs[j]);
    }
  }

  lemma DictsAgree(dumps: Dumps, xs: seq<Pair>, ys: seq<Pair>, zs: seq<Pair>)
    requires Unambiguous(dumps, xs) && multiset(zs) == multiset(ys)
    requires NormalPairs(dumps, xs) == NormalPairs(dumps, zs)
    ensures Normalize(dumps, Dict(xs)) == Normalize(dumps, Dict(ys))
  {
    NormalPairsShuffled(dumps, zs, ys);
    SortForgetsOrder(NormalPairs(dumps, xs), NormalPairs(dumps, ys), PairText);
  }

  lemma SetsAgree(dumps: Dumps, xs: seq<Value>, ys: seq<Value>, zs: seq<Value>)
    requires Faithful(dumps) && multiset(zs) == multiset(ys)
    requires NormalItems(dumps, xs) == NormalItems(dumps, zs)
    ensures Normalize(dumps, Set(xs)) == Normalize(dumps, Set(ys))
  {
    NormalItemsShuffled(dumps, zs, ys);
    NormalItemsAreNormal(dumps, Set(xs), xs);
    SortForgetsOrder(NormalItems(dumps, xs), NormalItems(dumps, ys), dumps);
  }

  ghost predicate SameValues(dumps: Dumps, xs: seq<Value>, zs: seq<Value>) {
    |zs| == |xs| && forall i :: 0 <= i < |xs| ==> SameUpToOrder(dumps, xs[i], zs[i])
  }

  ghost predicate SamePairs(dumps: Dumps, xs: seq<Pair>, zs: seq<Pair>) {
    && |zs| == |xs|
    && forall i :: 0 <= i < |xs| ==> xs[i].key == zs[i].key && SameUpToOrder(dumps, xs[i].value, zs[i].value)
  }

  lemma {:induction false} ValuesForget(dumps: Dumps, v: Value, xs: seq<Value>, zs: seq<Value>)
    requires (v.List? || v.Tuple? || v.Set?) && v.items == xs
    requires Faithful(dumps) && SameValues(dumps, xs, zs)
    ensures NormalItems(dumps, xs) == NormalItems(dumps, zs)
    decreases v, 0
  {
    forall i | 0 <= i < |xs|
      ensures Normalize(dumps, xs[i]) == Normalize(dumps, zs[i])
    {
      OrderIsForgotten(dumps, xs[i], zs[i]);
    }
  }

  lemma {:induction false} PairsForget(dumps: Dumps, v: Value, xs: seq<Pair>, zs: seq<Pair>)
    requires v == Dict(xs) && Faithful(dumps) && SamePairs(dumps, xs, zs)
    ensures NormalPairs(dumps, xs) == NormalPairs(dumps, zs)
    decreases v, 0
  {
    forall i | 0 <= i < |xs|
      ensures Normalize(dumps, xs[i].value) == Normalize(dumps, zs[i].value)
    {
      OrderIsForgotten(dumps, xs[i].value, zs[i].value);
    }
  }

  lemma DictShuffle(dumps: Dumps, xs: seq<Pair>, ys: seq<Pair>) returns (zs: seq<Pair>)
    requires SameUpToOrder(dumps, Dict(xs), Dict(ys))
    ensures Unambiguous(dumps, xs) && multiset(zs) == multiset(ys) && SamePairs(dumps, xs, zs)
  {
    zs :| multiset(zs) == multiset(ys) && |zs| == |xs|
      && forall i :: 0 <= i < |xs| ==> xs[i].key == zs[i].key && SameUpToOrder(dumps, xs[i].value, zs[i].value);
  }

  lemma SetShuffle(dumps: Dumps, xs: seq<Value>, ys: seq<Value>) returns (zs: seq<Value>)
    requires SameUpToOrder(dumps, Set(xs), Set(ys))
    ensures multiset(zs) == multiset(ys) && SameValues(dumps, xs, zs)
  {
    zs :| multiset(zs) == multiset(ys) && |zs| == |xs|
      && forall i :: 0 <= i < |xs| ==> SameUpToOrder(dumps, xs[i], zs[i]);
  }

  /** Values that differ only in order have one canonical form. */
  lemma {:induction false} OrderIsForgotten(dumps: Dumps, v: Value, w: Value)
    requires Faithful(dumps) && SameUpToOrder(dumps, v, w)
    ensures Normalize(dumps, v) == Normalize(dumps, w)
    decreases v, 1
  {
    if v == w {
      return;
    }
    if v.Dict? {
      var zs := DictShuffle(dumps, v.pairs, w.pairs);
      PairsForget(dumps, v, v.pairs, zs);
      DictsAgree(dumps, v.pairs, w.pairs, zs);
    } else if v.Set? {
      var zs := SetShuffle(dumps, v.items, w.items);
      ValuesForget(dumps, v, v.items, zs);
      SetsAgree(dumps, v.items, w.items, zs);
    } else {
      ValuesForget(dumps, v, v.items, w.items);
    }
  }

  // ----- Dictionaries whose keys share a text

  /** Inserting in order leaves a last item behind all that share its key. */
  lemma {:induction false} SortLast<T>(xs: seq<T>, p: T, key: T -> string) returns (before: seq<T>, after: seq<T>)
    ensures SortBy(xs + [p], key) == before + [p] + after
    ensures forall q :: q in after ==> key(q) != key(p)
  {
    if |xs| == 0 {
      before, after := [], [];
      assert (xs + [p])[1..] == [] && SortBy([p][1..], key) == [];
    } else {
      var x := xs[0];
      assert (xs + [p])[1..] == xs[1..] + [p];
      var b, a := SortLast(xs[1..], p, key);
      before, after := InsertAround(x, b, p, a, key);
    }
  }

  lemma {:induction false} InsertAround<T>(x: T, b: seq<T>, p: T, a: seq<T>, key: T -> string)
    returns (before: seq<T>, after: seq<T>)
    requires forall q :: q in a ==> key(q) != key(p)
    ensures Insert(x, b + [p] + a, key) == before + [p] + after
    ensures forall q :: q in after ==> key(q) != key(p)
  {
    if |b| == 0 {
      assert (b + [p] + a)[0] == p && (b + [p] + a)[1..] == a;
      if Leq(key(x), key(p)) {
        before, after := [x], a;
      } else {
        LeqTotal(key(x), key(p));
        before, after := [], Insert(x, a, key);
        InsertKeeps(x, a, key);
        assert forall q :: q in after ==> q in multiset(after);
      }
    } else if Leq(key(x), key(b[0])) {
      before, after := [x] + b, a;
    } else {
      assert (b + [p] + a)[0] == b[0] && (b + [p] + a)[1..] == b[1..] + [p] + a;
      var c, d := InsertAround(x, b[1..], p, a, key);
      before, after := [b[0]] + c, d;
    }
  }

  lemma {:induction false} AssignPuts(pairs: seq<Pair>, p: Pair)
    ensures p in Assign(pairs, p)
  {
    if |pairs| > 0 && pairs[0].key != p.key {
      AssignPuts(pairs[1..], p);
    }
  }

  lemma {:induction false} AssignOther(pairs: seq<Pair>, p: Pair, q: Pair)
    requires p in pairs && p.key != q.key
    ensures p in Assign(pairs, q)
  {
    if pairs[0].key != q.key && pairs[0] != p {
      assert pairs == [pairs[0]] + pairs[1..];
      AssignOther(pairs[1..], p, q);
    } else if pairs[0].key == q.key {
      assert pairs == [pairs[0]] + pairs[1..];
      assert p in pairs[1..];
    }
  }

  lemma {:induction false} LastStays(before: seq<Pair>, p: Pair, after: seq<Pair>)
    requires forall q :: q in after ==> q.key != p.key
    ensures p in AssignAll(before + [p] + after)
    decreases |after|
  {
    var all := before + [p] + after;
    if |after| == 0 {
      assert all[..|all| - 1] == before && all[|all| - 1] == p;
      AssignPuts(AssignAll(before), p);
    } else {
      var init, q := after[..|after| - 1], after[|after| - 1];
      assert all[..|all| - 1] == before + [p] + init && all[|all| - 1] == q;
      LastStays(before, p, init);
      AssignOther(AssignAll(before + [p] + init), p, q);
    }
  }

  function NormalForm(dumps: Dumps, p: Pair): Pair {
    Pair(StrKey(p.key.text), Normalize(dumps, p.value))
  }

  /** Of the pairs that share a text the one inserted last survives. */
  lemma LastPairSurvives(dumps: Dumps, xs: seq<Pair>, p: Pair)
    ensures Normalize(dumps, Dict(xs + [p])).Dict?
    ensures NormalForm(dumps, p) in Normalize(dumps, Dict(xs + [p])).pairs
  {
    var n := NormalForm(dumps, p);
    assert NormalPairs(dumps, xs + [p]) == NormalPairs(dumps, xs) + [n];
    var before, after := SortLast(NormalPairs(dumps, xs), n, PairText);
    LastStays(before, n, after);
  }

  /** The pair in place i is the last that is inserted under the text. */
  ghost predicate LastUnder(pairs: seq<Pair>, i: nat, text: string) {
    && i < |pairs| && pairs[i].key.text == text
    && forall k :: i < k < |pairs| ==> pairs[k].key.text != text
  }

  /** Sorting puts an item behind all that share its key and come before it in the list. */
  lemma {:induction false} SortAround<T>(front: seq<T>, p: T, later: seq<T>, key: T -> string)
    returns (before: seq<T>, after: seq<T>)
    requires forall q :: q in later ==> key(q) != key(p)
    ensures SortBy(front + [p] + later, key) == before + [p] + after
    ensures forall q :: q in after ==> key(q) != key(p)
    decreases |front|
  {
    var all := front + [p] + later;
    if |front| == 0 {
      assert all[0] == p && all[1..] == later;
      var sorted := SortBy(later, key);
      SortKeeps(later, key);
      before, after := InsertedAt(p, sorted, key);
      forall q | q in after
        ensures key(q) != key(p)
      {
        assert q in before + after && q in multiset(sorted);
      }
    } else {
      assert all[0] == front[0] && all[1..] == front[1..] + [p] + later;
      var b, a := SortAround(front[1..], p, later, key);
      before, after := InsertAround(front[0], b, p, a, key);
    }
  }

  lemma {:induction false} InsertedAt<T>(p: T, xs: seq<T>, key: T -> string) returns (before: seq<T>, after: seq<T>)
    ensures Insert(p, xs, key) == before + [p] + after && before + after == xs
  {
    if |xs| == 0 || Leq(key(p), key(xs[0])) {
      before, after := [], xs;
    } else {
      var b, a := InsertedAt(p, xs[1..], key);
      before, after := [xs[0]] + b, a;
    }
  }

  lemma {:induction false} AssignedFrom(pairs: seq<Pair>, p: Pair, q: Pair)
    requires q in Assign(pairs, p)
    ensures q == p || q in pairs
  {
    if |pairs| > 0 && pairs[0].key != p.key && q != pairs[0] {
      AssignedFrom(pairs[1..], p, q);
    }
  }

  lemma {:induction false} AllAssignedFrom(pairs: seq<Pair>, q: Pair)
    requires q in AssignAll(pairs)
    ensures q in pairs
    decreases |pairs|
  {
    if |pairs| > 0 {
      var init, p := pairs[..|pairs| - 1], pairs[|pairs| - 1];
      AssignedFrom(AssignAll(init), p, q);
      if q != p {
        AllAssignedFrom(init, q);
      }
    }
  }

  lemma LastSurvives(dumps: Dumps, pairs: seq<Pair>, i: nat, text: string)
    requires LastUnder(pairs, i, text)
    ensures NormalForm(dumps, pairs[i]) in Normalize(dumps, Dict(pairs)).pairs
  {
    var normal := NormalPairs(dumps, pairs);
    var n := normal[i];
    assert normal == normal[..i] + [n] + normal[i + 1..];
    var before, after := SortAround(normal[..i], n, normal[i + 1..], PairText);
    LastStays(before, n, after);
  }

  lemma {:induction false} FindLast(pairs: seq<Pair>, text: string, j: nat) returns (i: nat)
    requires j < |pairs| && pairs[j].key.text == text
    ensures LastUnder(pairs, i, text)
    decreases |pairs| - j
  {
    if k :| j < k < |pairs| && pairs[k].key.text == text {
      i := FindLast(pairs, text, k);
    } else {
      i := j;
    }
  }

  lemma FromSomePair(dumps: Dumps, pairs: seq<Pair>, q: Pair) returns (j: nat)
    requires q in Normalize(dumps, Dict(pairs)).pairs
    ensures j < |pairs| && q == NormalForm(dumps, pairs[j])
  {
    var normal := NormalPairs(dumps, pairs);
    AllAssignedFrom(SortBy(normal, PairText), q);
    SortMembers(normal, PairText);
    j :| 0 <= j < |normal| && normal[j] == q;
  }

  /** A dictionary's canonical form holds, under every text some key has, the normal form of the value inserted last
      under it, and nothing else. */
  lemma DictForm(dumps: Dumps, pairs: seq<Pair>, text: string, value: Value)
    ensures Normalize(dumps, Dict(pairs)).Dict?
    ensures Pair(StrKey(text), value) in Normalize(dumps, Dict(pairs)).pairs
       <==> exists i: nat :: LastUnder(pairs, i, text) && value == Normalize(dumps, pairs[i].value)
  {
    var q := Pair(StrKey(text), value);
    if i: nat :| LastUnder(pairs, i, text) && value == Normalize(dumps, pairs[i].value) {
      LastSurvives(dumps, pairs, i, text);
    }
    if q in Normalize(dumps, Dict(pairs)).pairs {
      var j := FromSomePair(dumps, pairs, q);
      var i := FindLast(pairs, text, j);
      LastSurvives(dumps, pairs, i, text);
      OneValueEach(dumps, Dict(pairs), q, NormalForm(dumps, pairs[i]));
    }
  }

  /** Lists and tuples become lists item by item; a set becomes the list of its normal forms in the order of their
      texts. */
  lemma ListForm(dumps: Dumps, items: seq<Value>)
    ensures Normalize(dumps, List(items)).List? && Normalize(dumps, Set(items)).List?
    ensures Normalize(dumps, Tuple(items)) == Normalize(dumps, List(items))
    ensures
      var list, sorted := Normalize(dumps, List(items)).items, Normalize(dumps, Set(items)).items;
      && |list| == |items| && (forall i :: 0 <= i < |items| ==> list[i] == Normalize(dumps, items[i]))
      && multiset(sorted) == multiset(list)
      && forall i, j :: 0 <= i < j < |sorted| ==> Leq(dumps(sorted[i]), dumps(sorted[j]))
  {
    SortKeeps(NormalItems(dumps, items), dumps);
    SortOrders(NormalItems(dumps, items), dumps);
  }

  /** Each byte becomes the two hexadecimal digits of its value. */
  lemma {:induction false} HexReads(bytes: seq<bv8>, k: nat)
    requires k < |bytes|
    ensures |Hex(bytes)| == 2 * |bytes|
    ensures
      var high, low := bytes[k] / 16, bytes[k] % 16;
      && Hex(bytes)[2 * k] == "0123456789abcdef"[high as int] && Hex(bytes)[2 * k + 1] == "0123456789abcdef"[low as int]
  {
    var b := bytes[0];
    assert (b >> 4) & 15 == b / 16 && b & 15 == b % 16;
    if |bytes| > 1 {
      HexReads(bytes[1..], if k > 0 then k - 1 else 0);
    }
  }

  /** What is neither a container nor a moment, a date or bytes stays as it is. */
  lemma ScalarForm(dumps: Dumps, text: string, bytes: seq<bv8>, v: Value)
    ensures Normalize(dumps, DateTime(text)) == Normalize(dumps, Date(text)) == Str(text)
    ensures Normalize(dumps, Bytes(bytes)) == Str(Hex(bytes))
    ensures v.Null? || v.Bool? || v.Int? || v.Float? || v.Str? ==> Normalize(dumps, v) == v
  {
  }

  /** A reordering that inserts the given pair last. */
  lemma PutLast<T>(xs: seq<T>, p: T) returns (rest: seq<T>)
    requires p in xs
    ensures multiset(rest + [p]) == multiset(xs)
  {
    var before, after := Locate(xs, p);
    rest := before + after;
  }

  lemma OneValueEach(dumps: Dumps, v: Value, p: Pair, q: Pair)
    requires Normalize(dumps, v).Dict? && p in Normalize(dumps, v).pairs && q in Normalize(dumps, v).pairs
    requires PairText(p) == PairText(q)
    ensures p == q
  {
    NormalizeIsNormal(dumps, v);
  }

  /** No reordering of the dictionary changes its canonical form. */
  ghost predicate OrderFree(dumps: Dumps, xs: seq<Pair>) {
    forall ys: seq<Pair> :: multiset(ys) == multiset(xs) ==> Normalize(dumps, Dict(ys)) == Normalize(dumps, Dict(xs))
  }

  lemma OrderFreeMeansOneValue(dumps: Dumps, xs: seq<Pair>, p: Pair, q: Pair)
    requires OrderFree(dumps, xs) && p in xs && q in xs && PairText(p) == PairText(q)
    ensures NormalForm(dumps, p) == NormalForm(dumps, q)
  {
    var ps := PutLast(xs, p);
    var qs := PutLast(xs, q);
    LastPairSurvives(dumps, ps, p);
    LastPairSurvives(dumps, qs, q);
    OneValueEach(dumps, Dict(xs), NormalForm(dumps, p), NormalForm(dumps, q));
  }

  /** Insertion order is forgotten exactly when keys with one text bring values with one normal form;
      otherwise the later insertion wins. */
  lemma OrderFreeIff(dumps: Dumps, xs: seq<Pair>)
    ensures OrderFree(dumps, xs) <==> Unambiguous(dumps, xs)
  {
    if Unambiguous(dumps, xs) {
      forall ys: seq<Pair> | multiset(ys) == multiset(xs)
        ensures Normalize(dumps, Dict(ys)) == Normalize(dumps, Dict(xs))
      {
        DictsAgree(dumps, xs, ys, xs);
      }
    }
    if OrderFree(dumps, xs) {
      var normal := NormalPairs(dumps, xs);
      forall p, q | p in normal && q in normal && PairText(p) == PairText(q)
        ensures p == q
      {
        var i :| 0 <= i < |normal| && normal[i] == p;
        var j :| 0 <= j < |normal| && normal[j] == q;
        OrderFreeMeansOneValue(dumps, xs, xs[i], xs[j]);
      }
    }
  }

  /** The integer 1 and the text "1" as keys: swapping the insertions changes the canonical form. */
  lemma SharedTextDependsOnOrder(dumps: Dumps)
    ensures !OrderFree(dumps, [Pair(OtherKey("1"), Str("a")), Pair(StrKey("1"), Str("b"))])
  {
    var xs := [Pair(OtherKey("1"), Str("a")), Pair(StrKey("1"), Str("b"))];
    assert Normalize(dumps, Str("a")) == Str("a") && Normalize(dumps, Str("b")) == Str("b");
    assert "a"[0] != "b"[0];
    if OrderFree(dumps, xs) {
      OrderFreeMeansOneValue(dumps, xs, xs[0], xs[1]);
    }
  }

  // ----- The composite hash

  datatype Part = Part(name: string, digest: string)

  function PartName(p: Part): string {
    p.name
  }

  function PartValue(p: Part): Value {
    Dict([Pair(StrKey("name"), Str(p.name)), Pair(StrKey("sha256"), Str(p.digest))])
  }

  function Payload(parts: seq<Part>): Value {
    List(Mapped(PartValue, SortBy(parts, PartName)))
  }

  /** `hash` stands for the digest of a canonical value's text. */
  function PartsDigest(dumps: Dumps, hash: Value -> string, parts: seq<Part>): string {
    hash(Normalize(dumps, Payload(parts)))
  }

  class HashBuilder {
    const dumps: Dumps
    const hash: Value -> string
    var parts: seq<Part>

    constructor (dumps: Dumps, hash: Value -> string)
      ensures this.dumps == dumps && this.hash == hash && parts == []
    {
      this.dumps, this.hash, parts := dumps, hash, [];
    }

    method Add(name: string, digest: string)
      modifies this
      ensures parts == old(parts) + [Part(name, digest)]
    {
      parts := parts + [Part(name, digest)];
    }

    method AddData(name: string, data: Value)
      modifies this
      ensures parts == old(parts) + [Part(name, hash(Normalize(dumps, data)))]
    {
      Add(name, hash(Normalize(dumps, data)));
    }

    /** The digest is the same for the parts added in any order, and for no other parts short of an
        explicit collision. */
    method Digest() returns (digest: string)
      ensures Keyed(parts, PartName) ==>
        forall order :: multiset(order) == multiset(parts) ==> digest == PartsDigest(dumps, hash, order)
      ensures forall other :: digest == PartsDigest(dumps, hash, other) ==>
        multiset(other) == multiset(parts) || CollidesOn(hash, (Payload(other), Payload(parts)))
    {
      digest := hash(Normalize(dumps, Payload(parts)));
      if Keyed(parts, PartName) {
        forall order | multiset(order) == multiset(parts)
          ensures digest == PartsDigest(dumps, hash, order)
        {
          DigestForgetsOrder(dumps, hash, parts, order);
        }
      }
      forall other | digest == PartsDigest(dumps, hash, other)
        ensures multiset(other) == multiset(parts) || CollidesOn(hash, (Payload(other), Payload(parts)))
      {
        DigestBinds(dumps, hash, other, parts);
      }
    }
  }

  /** The order in which parts are added does not matter while a name always brings the same digest. */
  lemma DigestForgetsOrder(dumps: Dumps, hash: Value -> string, a: seq<Part>, b: seq<Part>)
    requires multiset(a) == multiset(b) && Keyed(a, PartName)
    ensures PartsDigest(dumps, hash, a) == PartsDigest(dumps, hash, b)
  {
    SortForgetsOrder(a, b, PartName);
  }

  lemma PayloadIsNormal(parts: seq<Part>)
    ensures Normal(Payload(parts))
  {
    var items := Mapped(PartValue, SortBy(parts, PartName));
    forall i | 0 <= i < |items|
      ensures Normal(items[i])
    {
      assert "name" != "sha256" && Leq("name", "sha256");
    }
  }

  lemma PayloadListsParts(a: seq<Part>, b: seq<Part>)
    requires Payload(a) == Payload(b)
    ensures SortBy(a, PartName) == SortBy(b, PartName)
  {
    var sa, sb := SortBy(a, PartName), SortBy(b, PartName);
    assert |Mapped(PartValue, sa)| == |Mapped(PartValue, sb)|;
    forall i | 0 <= i < |sa|
      ensures sa[i] == sb[i]
    {
      var pa, pb := PartValue(sa[i]), PartValue(sb[i]);
      assert Mapped(PartValue, sa)[i] == pa && Mapped(PartValue, sb)[i] == pb;
      assert pa.pairs[0] == pb.pairs[0] && pa.pairs[1] == pb.pairs[1];
    }
  }

  /** What is hashed: for each part in the order of names, equal names in the order added, its name and digest. */
  lemma PayloadForm(dumps: Dumps, hash: Value -> string, parts: seq<Part>)
    returns (ordered: seq<Part>, entries: seq<Value>)
    ensures PartsDigest(dumps, hash, parts) == hash(List(entries)) && |entries| == |ordered|
    ensures forall k :: 0 <= k < |ordered| ==>
      entries[k] == Dict([Pair(StrKey("name"), Str(ordered[k].name)), Pair(StrKey("sha256"), Str(ordered[k].digest))])
    ensures multiset(ordered) == multiset(parts)
    ensures forall i, j :: 0 <= i < j < |ordered| ==> Leq(ordered[i].name, ordered[j].name)
    ensures forall name :: WithKey(ordered, PartName, name) == WithKey(parts, PartName, name)
  {
    ordered := SortBy(parts, PartName);
    entries := Mapped(PartValue, ordered);
    SortKeeps(parts, PartName);
    SortOrders(parts, PartName);
    forall i, j | 0 <= i < j < |ordered|
      ensures Leq(ordered[i].name, ordered[j].name)
    {
      assert Leq(PartName(ordered[i]), PartName(ordered[j]));
    }
    forall name
      ensures WithKey(ordered, PartName, name) == WithKey(parts, PartName, name)
    {
      SortIsStable(parts, PartName, name);
    }
    PayloadIsNormal(parts);
    FixedIffNormal(dumps, Payload(parts));
  }

  lemma PayloadDetermines(a: seq<Part>, b: seq<Part>)
    requires Payload(a) == Payload(b)
    ensures multiset(a) == multiset(b)
  {
    PayloadListsParts(a, b);
    SortKeeps(a, PartName);
    SortKeeps(b, PartName);
  }

  /** A list has one last item of each key. */
  lemma LastOfKey<T>(b: seq<T>, p: T, a: seq<T>, d: seq<T>, q: T, c: seq<T>, key: T -> string)
    requires b + [p] + a == d + [q] + c && key(p) == key(q)
    requires (forall x :: x in a ==> key(x) != key(p)) && forall x :: x in c ==> key(x) != key(q)
    ensures p == q
  {
    var whole := b + [p] + a;
    assert whole[|b|] == p && whole[|d|] == q;
    assert forall k :: |b| < k < |whole| ==> whole[k] in a;
    assert forall k :: |d| < k < |whole| ==> whole[k] in c;
  }

  /** No order of adding the parts changes the payload. */
  ghost predicate PartsOrderFree(parts: seq<Part>) {
    forall order: seq<Part> :: multiset(order) == multiset(parts) ==> Payload(order) == Payload(parts)
  }

  lemma OneDigestEach(parts: seq<Part>, p: Part, q: Part)
    requires PartsOrderFree(parts) && p in parts && q in parts && p.name == q.name
    ensures p == q
  {
    var ps := PutLast(parts, p);
    var qs := PutLast(parts, q);
    PayloadListsParts(ps + [p], qs + [q]);
    var b, a := SortLast(ps, p, PartName);
    var d, c := SortLast(qs, q, PartName);
    LastOfKey(b, p, a, d, q, c, PartName);
  }

  /** The order of adding parts is forgotten exactly when a name always brings the same digest; otherwise some
      order gives another payload, so another digest or an explicit collision. */
  lemma PartsOrderFreeIff(parts: seq<Part>)
    ensures PartsOrderFree(parts) <==> Keyed(parts, PartName)
  {
    if Keyed(parts, PartName) {
      forall order: seq<Part> | multiset(order) == multiset(parts)
        ensures Payload(order) == Payload(parts)
      {
        SortForgetsOrder(parts, order, PartName);
      }
    }
    if PartsOrderFree(parts) {
      forall p, q | p in parts && q in parts && PartName(p) == PartName(q)
        ensures p == q
      {
        OneDigestEach(parts, p, q);
      }
    }
  }

  /** Two parts with one name and different digests: some order of the parts changes the composite digest, or
      exhibits a collision. */
  lemma DigestDependsOnOrder(dumps: Dumps, hash: Value -> string, parts: seq<Part>) returns (order: seq<Part>)
    requires !Keyed(parts, PartName)
    ensures multiset(order) == multiset(parts)
    ensures PartsDigest(dumps, hash, order) != PartsDigest(dumps, hash, parts)
         || CollidesOn(hash, (Payload(order), Payload(parts)))
  {
    PartsOrderFreeIff(parts);
    order :| multiset(order) == multiset(parts) && Payload(order) != Payload(parts);
    PayloadIsNormal(order);
    PayloadIsNormal(parts);
    FixedIffNormal(dumps, Payload(order));
    FixedIffNormal(dumps, Payload(parts));
  }

  /** Equal digests mean equal collections of parts, or two explicit canonical values with one hash. */
  lemma DigestBinds(dumps: Dumps, hash: Value -> string, a: seq<Part>, b: seq<Part>)
    requires PartsDigest(dumps, hash, a) == PartsDigest(dumps, hash, b)
    ensures multiset(a) == multiset(b) || CollidesOn(hash, (Payload(a), Payload(b)))
  {
    PayloadIsNormal(a);
    PayloadIsNormal(b);
    FixedIffNormal(dumps, Payload(a));
    FixedIffNormal(dumps, Payload(b));
    if Payload(a) == Payload(b) {
      PayloadDetermines(a, b);
    }
  }
}
