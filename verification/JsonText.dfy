/** A text for every JSON value from which the value can be read back: what the
    hypotheses about writing and reading JSON ask for can be met. The text is not
    that of any JSON writer; it starts with a tag, and lists and dictionaries tell
    their length. */
module JsonText {
  import opened Wrappers
  import opened JsonValues

  /** A number as that many marks and an end. */
  function Tally(n: nat): string {
    seq(n, k => '1') + ";"
  }

  function Integer(n: int): string {
    (if n < 0 then "-" else "+") + Tally(Magnitude(n))
  }

  function Quoted(s: string): string {
    Tally(|s|) + s
  }

  function FloatText(d: FloatValue): string {
    match d
    case Finite(sig, exp) => "0" + (Integer(sig) + Integer(exp))
    case NegativeZero => "1"
    case Infinite(negative) => if negative then "2" else "3"
    case NotANumber => "4"
  }

  /** The parts from number `k` on, one behind the other. */
  function FlatFrom(parts: seq<string>, k: nat): string
    requires k <= |parts|
    decreases |parts| - k
  {
    if k == |parts| then "" else parts[k] + FlatFrom(parts, k + 1)
  }

  /** The keys in some fixed order. */
  ghost function Listed(keys: set<string>): (r: seq<string>)
    ensures forall k :: k in r <==> k in keys
  {
    if keys == {} then []
    else
      var k :| k in keys;
      [k] + Listed(keys - {k})
  }

  ghost function ItemTexts(j: Json, items: seq<Json>): (r: seq<string>)
    requires j == Arr(items)
    ensures |r| == |items| && forall k :: 0 <= k < |r| ==> r[k] == TextOf(items[k])
    decreases j, 0
  {
    seq(|items|, k requires 0 <= k < |items| => TextOf(items[k]))
  }

  ghost function FieldTexts(j: Json, fields: map<string, Json>, keys: seq<string>): (r: seq<string>)
    requires j == Obj(fields) && forall k :: k in keys ==> k in fields
    ensures |r| == |keys| && forall k :: 0 <= k < |r| ==> r[k] == Quoted(keys[k]) + TextOf(fields[keys[k]])
    decreases j, 0
  {
    seq(|keys|, k requires 0 <= k < |keys| => Quoted(keys[k]) + TextOf(fields[keys[k]]))
  }

  ghost function TextOf(j: Json): string
    decreases j, 1
  {
    match j
    case Null => "n"
    case Bool(b) => if b then "t" else "f"
    case Int(n) => "i" + Integer(n)
    case Float(d) => "d" + FloatText(d)
    case Str(s) => "s" + Quoted(s)
    case Arr(items) => "a" + (Tally(|items|) + FlatFrom(ItemTexts(j, items), 0))
    case Obj(fields) =>
      var keys := Listed(fields.Keys);
      "o" + (Tally(|keys|) + FlatFrom(FieldTexts(j, fields, keys), 0))
  }

  // ----- No text is the beginning of another

  lemma Assoc(a: string, b: string, c: string)
    ensures (a + b) + c == a + (b + c)
  {
  }

  lemma Behind(a: string, r: string, s: string)
    requires a + r == a + s
    ensures r == s
  {
    assert (a + r)[|a|..] == r && (a + s)[|a|..] == s;
  }

  lemma TallyPrefix(m: nat, r: string, n: nat, s: string)
    requires Tally(m) + r == Tally(n) + s
    ensures m == n && r == s
  {
    var whole := Tally(m) + r;
    assert whole[m] == ';' && whole[n] == ';';
    assert forall k :: 0 <= k < m ==> whole[k] == '1';
    assert forall k :: 0 <= k < n ==> whole[k] == '1';
    assert m == n;
    Behind(Tally(m), r, s);
  }

  lemma IntegerPrefix(m: int, r: string, n: int, s: string)
    requires Integer(m) + r == Integer(n) + s
    ensures m == n && r == s
  {
    assert (Integer(m) + r)[0] == (Integer(n) + s)[0];
    var sign := Integer(m)[..1];
    Assoc(sign, Tally(Magnitude(m)), r);
    Assoc(sign, Tally(Magnitude(n)), s);
    Behind(sign, Tally(Magnitude(m)) + r, Tally(Magnitude(n)) + s);
    TallyPrefix(Magnitude(m), r, Magnitude(n), s);
  }

  lemma QuotedPrefix(t: string, r: string, u: string, s: string)
    requires Quoted(t) + r == Quoted(u) + s
    ensures t == u && r == s
  {
    Assoc(Tally(|t|), t, r);
    Assoc(Tally(|u|), u, s);
    TallyPrefix(|t|, t + r, |u|, u + s);
    assert t == (t + r)[..|t|] && u == (u + s)[..|t|];
    Behind(t, r, s);
  }

  lemma FinitePrefix(a: int, b: int, r: string, c: int, d: int, s: string)
    requires Integer(a) + Integer(b) + r == Integer(c) + Integer(d) + s
    ensures a == c && b == d && r == s
  {
    Assoc(Integer(a), Integer(b), r);
    Assoc(Integer(c), Integer(d), s);
    IntegerPrefix(a, Integer(b) + r, c, Integer(d) + s);
    IntegerPrefix(b, r, d, s);
  }

  lemma FloatPrefix(d: FloatValue, r: string, e: FloatValue, s: string)
    requires FloatText(d) + r == FloatText(e) + s
    ensures d == e && r == s
  {
    assert (FloatText(d) + r)[0] == (FloatText(e) + s)[0];
    if d.Finite? {
      Assoc("0", Integer(d.sig) + Integer(d.exp), r);
      Assoc("0", Integer(e.sig) + Integer(e.exp), s);
      Behind("0", Integer(d.sig) + Integer(d.exp) + r, Integer(e.sig) + Integer(e.exp) + s);
      FinitePrefix(d.sig, d.exp, r, e.sig, e.exp, s);
    } else {
      Behind(FloatText(d), r, s);
    }
  }

  /** The tag and what follows it. */
  lemma Untag(tag: string, body: string, r: string, body': string, s: string)
    requires (tag + body) + r == (tag + body') + s
    ensures body + r == body' + s
  {
    Assoc(tag, body, r);
    Assoc(tag, body', s);
    Behind(tag, body + r, body' + s);
  }

  ghost function Tag(j: Json): char {
    match j
    case Null => 'n'
    case Bool(b) => if b then 't' else 'f'
    case Int(_) => 'i'
    case Float(_) => 'd'
    case Str(_) => 's'
    case Arr(_) => 'a'
    case Obj(_) => 'o'
  }

  lemma {:induction false} ItemsPrefix(j: Json, xs: seq<Json>, r: string, i: Json, ys: seq<Json>, s: string, k: nat)
    requires j == Arr(xs) && i == Arr(ys) && |xs| == |ys| && k <= |xs|
    requires FlatFrom(ItemTexts(j, xs), k) + r == FlatFrom(ItemTexts(i, ys), k) + s
    ensures r == s && forall n :: k <= n < |xs| ==> xs[n] == ys[n]
    decreases j, 0, |xs| - k
  {
    var a, b := ItemTexts(j, xs), ItemTexts(i, ys);
    if k == |xs| {
      assert "" + r == r && "" + s == s;
    } else {
      Assoc(a[k], FlatFrom(a, k + 1), r);
      Assoc(b[k], FlatFrom(b, k + 1), s);
      TextPrefix(xs[k], FlatFrom(a, k + 1) + r, ys[k], FlatFrom(b, k + 1) + s);
      ItemsPrefix(j, xs, r, i, ys, s, k + 1);
    }
  }

  /** From number `k` on the keys and their values are the same. */
  ghost predicate SameFrom(f: map<string, Json>, xs: seq<string>, g: map<string, Json>, ys: seq<string>, k: nat) {
    && |xs| == |ys|
    && forall n :: k <= n < |xs| ==> xs[n] == ys[n] && xs[n] in f && ys[n] in g && f[xs[n]] == g[ys[n]]
  }

  lemma SameFromHead(f: map<string, Json>, xs: seq<string>, g: map<string, Json>, ys: seq<string>, k: nat)
    requires SameFrom(f, xs, g, ys, k + 1) && k < |xs| && xs[k] == ys[k]
    requires xs[k] in f && ys[k] in g && f[xs[k]] == g[ys[k]]
    ensures SameFrom(f, xs, g, ys, k)
  {
  }

  lemma FieldHead(a: seq<string>, b: seq<string>, k: nat, x: string, u: string, r: string, y: string, v: string,
                  s: string)
    requires k < |a| && k < |b| && a[k] == Quoted(x) + u && b[k] == Quoted(y) + v
    requires FlatFrom(a, k) + r == FlatFrom(b, k) + s
    ensures x == y && u + (FlatFrom(a, k + 1) + r) == v + (FlatFrom(b, k + 1) + s)
  {
    FlatHead(a, k, Quoted(x), u, r);
    FlatHead(b, k, Quoted(y), v, s);
    QuotedPrefix(x, u + (FlatFrom(a, k + 1) + r), y, v + (FlatFrom(b, k + 1) + s));
  }

  lemma FlatHead(parts: seq<string>, k: nat, x: string, y: string, r: string)
    requires k < |parts| && parts[k] == x + y
    ensures FlatFrom(parts, k) + r == x + (y + (FlatFrom(parts, k + 1) + r))
  {
    var rest := FlatFrom(parts, k + 1);
    Assoc(parts[k], rest, r);
    Assoc(x, y, rest + r);
  }

  lemma FlatEnd(parts: seq<string>, r: string)
    ensures FlatFrom(parts, |parts|) + r == r
  {
  }

  lemma FieldStep(j: Json, f: map<string, Json>, xs: seq<string>, r: string,
                  i: Json, g: map<string, Json>, ys: seq<string>, s: string, k: nat)
    requires j == Obj(f) && (forall x :: x in xs ==> x in f) && i == Obj(g) && (forall y :: y in ys ==> y in g)
    requires |xs| == |ys| && k < |xs|
    requires FlatFrom(FieldTexts(j, f, xs), k) + r == FlatFrom(FieldTexts(i, g, ys), k) + s
    ensures xs[k] == ys[k]
    ensures TextOf(f[xs[k]]) + (FlatFrom(FieldTexts(j, f, xs), k + 1) + r)
         == TextOf(g[ys[k]]) + (FlatFrom(FieldTexts(i, g, ys), k + 1) + s)
  {
    FieldHead(FieldTexts(j, f, xs), FieldTexts(i, g, ys), k, xs[k], TextOf(f[xs[k]]), r, ys[k], TextOf(g[ys[k]]), s);
  }

  lemma {:induction false} FieldsPrefix(j: Json, f: map<string, Json>, xs: seq<string>, r: string,
                                        i: Json, g: map<string, Json>, ys: seq<string>, s: string, k: nat)
    requires j == Obj(f) && (forall x :: x in xs ==> x in f) && i == Obj(g) && (forall y :: y in ys ==> y in g)
    requires |xs| == |ys| && k <= |xs|
    requires FlatFrom(FieldTexts(j, f, xs), k) + r == FlatFrom(FieldTexts(i, g, ys), k) + s
    ensures r == s && SameFrom(f, xs, g, ys, k)
    decreases j, 0, |xs| - k
  {
    if k == |xs| {
      FlatEnd(FieldTexts(j, f, xs), r);
      FlatEnd(FieldTexts(i, g, ys), s);
    } else {
      var tail, tail' := FlatFrom(FieldTexts(j, f, xs), k + 1) + r, FlatFrom(FieldTexts(i, g, ys), k + 1) + s;
      FieldStep(j, f, xs, r, i, g, ys, s, k);
      TextPrefix(f[xs[k]], tail, g[ys[k]], tail');
      FieldsPrefix(j, f, xs, r, i, g, ys, s, k + 1);
      SameFromHead(f, xs, g, ys, k);
    }
  }

  lemma {:induction false} ArrPrefix(a: Json, r: string, b: Json, s: string)
    requires a.Arr? && b.Arr? && TextOf(a) + r == TextOf(b) + s
    ensures a == b && r == s
    decreases a, 1, 0
  {
    var x, y := FlatFrom(ItemTexts(a, a.items), 0), FlatFrom(ItemTexts(b, b.items), 0);
    Untag("a", Tally(|a.items|) + x, r, Tally(|b.items|) + y, s);
    Assoc(Tally(|a.items|), x, r);
    Assoc(Tally(|b.items|), y, s);
    TallyPrefix(|a.items|, x + r, |b.items|, y + s);
    ItemsPrefix(a, a.items, r, b, b.items, s, 0);
    assert a.items == b.items;
  }

  lemma {:induction false} ObjPrefix(a: Json, r: string, b: Json, s: string)
    requires a.Obj? && b.Obj? && TextOf(a) + r == TextOf(b) + s
    ensures a == b && r == s
    decreases a, 1, 0
  {
    var xs, ys := Listed(a.fields.Keys), Listed(b.fields.Keys);
    var x, y := FlatFrom(FieldTexts(a, a.fields, xs), 0), FlatFrom(FieldTexts(b, b.fields, ys), 0);
    Untag("o", Tally(|xs|) + x, r, Tally(|ys|) + y, s);
    Assoc(Tally(|xs|), x, r);
    Assoc(Tally(|ys|), y, s);
    TallyPrefix(|xs|, x + r, |ys|, y + s);
    FieldsPrefix(a, a.fields, xs, r, b, b.fields, ys, s, 0);
  }

  /** Texts of different values differ, however they go on. */
  lemma {:induction false} TextPrefix(a: Json, r: string, b: Json, s: string)
    requires TextOf(a) + r == TextOf(b) + s
    ensures a == b && r == s
    decreases a, 2, 0
  {
    assert Tag(a) == Tag(b) by {
      assert (TextOf(a) + r)[0] == (TextOf(b) + s)[0];
    }
    match a
    case Null => Behind("n", r, s);
    case Bool(_) => Behind(TextOf(a), r, s);
    case Int(n) =>
      Untag("i", Integer(n), r, Integer(b.n), s);
      IntegerPrefix(n, r, b.n, s);
    case Float(d) =>
      Untag("d", FloatText(d), r, FloatText(b.d), s);
      FloatPrefix(d, r, b.d, s);
    case Str(t) =>
      Untag("s", Quoted(t), r, Quoted(b.s), s);
      QuotedPrefix(t, r, b.s, s);
    case Arr(_) => ArrPrefix(a, r, b, s);
    case Obj(_) => ObjPrefix(a, r, b, s);
  }

  ghost function ReadBack(t: string): Option<Json> {
    if exists j :: TextOf(j) == t then
      var j :| TextOf(j) == t;
      Some(j)
    else None
  }

  /** Every value is read back from its text. */
  lemma ReadsBack(j: Json)
    ensures ReadBack(TextOf(j)) == Some(j)
  {
    var i := ReadBack(TextOf(j)).value;
    assert TextOf(i) + "" == TextOf(j) + "";
    TextPrefix(i, "", j, "");
  }
}
