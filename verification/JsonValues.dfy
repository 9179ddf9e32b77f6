/** JSON values as Python holds them after reading a document: integers of any size, and doubles. */
module JsonValues {
  import opened Wrappers

  function Pow2(n: nat): nat {
    if n == 0 then 1 else 2 * Pow2(n - 1)
  }

  function Magnitude(n: int): nat {
    if n < 0 then -n else n
  }

  /** A finite value is sig * 2^exp. */
  datatype FloatValue = Finite(sig: int, exp: int) | NegativeZero | Infinite(negative: bool) | NotANumber

  /** The width of a significand: less than 53 bits where the exponent is near its upper end. */
  function Width(exp: int): nat {
    if exp <= 971 then 53 else if exp <= 1023 then 1024 - exp else 0
  }

  /** Each double once: zero, or an odd significand of its width with an exponent in range. */
  predicate IsDouble(d: FloatValue) {
    d.Finite? ==>
      || (d.sig == 0 && d.exp == 0)
      || (d.sig % 2 == 1 && -1074 <= d.exp && Magnitude(d.sig) < Pow2(Width(d.exp)))
  }

  type Double = d: FloatValue | IsDouble(d) witness Finite(0, 0)

  datatype Json =
    | Null | Bool(b: bool) | Int(n: int) | Float(d: Double) | Str(s: string)
    | Arr(items: seq<Json>) | Obj(fields: map<string, Json>)

  function Get(fields: map<string, Json>, key: string): Json {
    if key in fields then fields[key] else Null
  }

  /** Python's truth value. */
  predicate Truthy(j: Json) {
    match j
    case Null => false
    case Bool(b) => b
    case Int(n) => n != 0
    case Float(d) => d != Finite(0, 0) && d != NegativeZero
    case Str(s) => |s| > 0
    case Arr(items) => |items| > 0
    case Obj(fields) => |fields| > 0
  }

  /** n * 2^exp with the factors of two moved into the exponent. */
  function Reduced(n: int, exp: int): (d: FloatValue)
    ensures d.Finite?
    decreases Magnitude(n)
  {
    if n == 0 then Finite(0, 0) else if n % 2 == 1 then Finite(n, exp) else Reduced(n / 2, exp + 1)
  }

  /** The number a value counts as in a comparison: true is 1, false and the negative zero are 0. */
  function Worth(j: Json): Option<FloatValue> {
    match j
    case Bool(b) => Some(if b then Finite(1, 0) else Finite(0, 0))
    case Int(n) => Some(Reduced(n, 0))
    case Float(d) => Some(if d == NegativeZero then Finite(0, 0) else d)
    case _ => None
  }

  /** Python's equality: numbers of all types compare by value, not-a-number equals nothing. */
  predicate Equals(a: Json, b: Json)
    decreases a
  {
    if a.Arr? && b.Arr? then |a.items| == |b.items| && forall k | 0 <= k < |a.items| :: Equals(a.items[k], b.items[k])
    else if a.Obj? && b.Obj? then
      a.fields.Keys == b.fields.Keys && forall key | key in a.fields :: Equals(a.fields[key], b.fields[key])
    else if Worth(a).Some? then Worth(a) == Worth(b) && Worth(a) != Some(NotANumber)
    else a == b
  }

  lemma EqualsItself(n: int, s: string)
    ensures Equals(Int(n), Int(n)) && Equals(Str(s), Str(s))
  {
  }

  lemma {:induction false} Pow2Sum(a: nat, b: nat)
    ensures Pow2(a + b) == Pow2(a) * Pow2(b) && Pow2(a) >= 1
  {
    if a > 0 {
      Pow2Sum(a - 1, b);
    }
  }

  lemma {:induction false} ReducedOfOdd(sig: int, k: nat, exp: int)
    requires sig % 2 == 1
    ensures Reduced(sig * Pow2(k), exp) == Finite(sig, exp + k)
  {
    if k > 0 {
      var n := sig * Pow2(k - 1);
      assert sig * Pow2(k) == 2 * n;
      ReducedOfOdd(sig, k - 1, exp + 1);
    }
  }

  lemma {:induction false} ReducedIs(n: int, exp: int)
    requires n != 0
    ensures Reduced(n, exp).sig % 2 == 1 && Reduced(n, exp).exp >= exp
    ensures n == Reduced(n, exp).sig * Pow2(Reduced(n, exp).exp - exp)
    decreases Magnitude(n)
  {
    if n % 2 == 0 {
      ReducedIs(n / 2, exp + 1);
      var r := Reduced(n / 2, exp + 1);
      assert Pow2(r.exp - exp) == 2 * Pow2(r.exp - exp - 1);
    } else {
      assert Pow2(0) == 1;
    }
  }

  /** Numbers are equal by value: a whole number equals another only if it is the same, a truth value if it is its 1
      or 0, and a double if that double is exactly this number. */
  lemma NumbersEqualIff(n: int)
    ensures forall m :: Equals(Int(m), Int(n)) <==> m == n
    ensures forall b :: Equals(Bool(b), Int(n)) <==> (n == if b then 1 else 0)
    ensures forall d: Double :: (Equals(Float(d), Int(n))
      <==> (d.Finite? && d.exp >= 0 && n == d.sig * Pow2(d.exp)) || (d == NegativeZero && n == 0))
  {
    forall m
      ensures Equals(Int(m), Int(n)) <==> m == n
    {
      if m != 0 {
        ReducedIs(m, 0);
      }
      if n != 0 {
        ReducedIs(n, 0);
      }
    }
    forall b: bool
      ensures Equals(Bool(b), Int(n)) <==> (n == if b then 1 else 0)
    {
      var m := if b then 1 else 0;
      assert Reduced(m, 0) == Finite(m, 0);
      if n != 0 {
        ReducedIs(n, 0);
      }
    }
    forall d: Double
      ensures Equals(Float(d), Int(n))
        <==> (d.Finite? && d.exp >= 0 && n == d.sig * Pow2(d.exp)) || (d == NegativeZero && n == 0)
    {
      DoubleIsWhole(d, n);
    }
  }

  lemma DoubleIsWhole(d: Double, n: int)
    ensures Equals(Float(d), Int(n))
       <==> (d.Finite? && d.exp >= 0 && n == d.sig * Pow2(d.exp)) || (d == NegativeZero && n == 0)
  {
    if n == 0 {
      DoubleIsZero(d);
    } else {
      ReducedIs(n, 0);
      if d.Finite? && d.sig % 2 == 1 && d.exp >= 0 {
        ReducedOfOdd(d.sig, d.exp, 0);
      }
    }
  }

  lemma DoubleIsZero(d: Double)
    ensures Equals(Float(d), Int(0)) <==> d == Finite(0, 0) || d == NegativeZero
    ensures d.Finite? && d.exp >= 0 ==> (d.sig * Pow2(d.exp) == 0 <==> d == Finite(0, 0))
  {
    assert Reduced(0, 0) == Finite(0, 0);
    if d.Finite? && d.exp >= 0 {
      Pow2Sum(d.exp, 0);
      NotZero(d.sig, Pow2(d.exp));
    }
  }

  lemma {:induction false} NotZero(a: int, b: nat)
    requires b >= 1
    ensures a > 0 ==> a * b >= a
    ensures a < 0 ==> a * b <= a
  {
    if b > 1 {
      NotZero(a, b - 1);
      assert a * b == a * (b - 1) + a;
    }
  }

  /** False in Python are exactly null, what equals zero, and what is empty. */
  lemma FalsyIff(j: Json)
    ensures !Truthy(j)
       <==> j == Null || Equals(j, Int(0)) || j == Str("") || j == Arr([]) || j == Obj(map[])
  {
    match j
    case Int(n) =>
      NumbersEqualIff(0);
    case Float(d) =>
      assert Reduced(0, 0) == Finite(0, 0);
    case Obj(fields) =>
      assert |fields| == 0 <==> fields == map[];
    case _ =>
  }

  /** Lists are equal item by item, dictionaries key by key. */
  lemma EqualInside(a: seq<Json>, b: seq<Json>, f: map<string, Json>, g: map<string, Json>)
    ensures Equals(Arr(a), Arr(b)) <==> |a| == |b| && forall k :: 0 <= k < |a| ==> Equals(a[k], b[k])
    ensures Equals(Obj(f), Obj(g)) <==> f.Keys == g.Keys && forall key :: key in f ==> Equals(f[key], g[key])
  {
  }

  lemma ScaledLess(a: nat, b: nat, c: nat)
    requires c >= 1
    ensures a * c < b * c <==> a < b
  {
    assert b * c - a * c == (b - a) * c;
  }

  /** Scaled by powers of two, a number of one size fits exactly when the other does. */
  lemma FitsScaled(size: nat, k: nat, w: nat)
    ensures size * Pow2(k) < Pow2(w + k) <==> size < Pow2(w)
  {
    Pow2Sum(w, k);
    Pow2Sum(k, 0);
    ScaledLess(size, Pow2(w), Pow2(k));
  }

  /** size * 2^exp is m * 2^e for some m below 2^53. */
  ghost predicate WrittenAt(size: nat, exp: int, e: int) {
    -1074 <= e <= 971 && e <= exp && size * Pow2(exp - e) < Pow2(53)
  }

  lemma LowerExponent(size: nat, exp: int, e: int, f: int)
    requires e <= f <= exp
    ensures size * Pow2(exp - f) <= size * Pow2(exp - e)
  {
    Pow2Sum(f - e, exp - f);
    ScaledUp(size, Pow2(exp - f), Pow2(f - e));
  }

  lemma HighExponent(size: nat, k: nat)
    requires size >= 1
    ensures size * Pow2(k) < Pow2(53) <==> size < Pow2(if k <= 52 then 53 - k else 0)
  {
    if k <= 52 {
      FitsScaled(size, k, 53 - k);
    } else {
      Pow2Sum(53, k - 53);
      Pow2Sum(k - 53, 0);
      ScaledUp(1, Pow2(53), Pow2(k - 53));
      ScaledUp(1, Pow2(k), size);
      assert Pow2(0) == 1;
    }
  }

  /** The doubles other than zero are the multiples m * 2^e with m below 2^53 and e between -1074 and 971. */
  lemma DoublesAre(sig: int, exp: int)
    requires sig % 2 == 1
    ensures IsDouble(Finite(sig, exp)) <==> exists e :: WrittenAt(Magnitude(sig), exp, e)
  {
    var size, top := Magnitude(sig), if exp <= 971 then exp else 971;
    assert Pow2(0) == 1;
    if exp > 971 {
      HighExponent(size, exp - 971);
    }
    assert -1074 <= exp ==> (IsDouble(Finite(sig, exp)) <==> WrittenAt(size, exp, top));
    if e :| WrittenAt(size, exp, e) {
      LowerExponent(size, exp, e, top);
      assert WrittenAt(size, exp, top);
    }
  }

  lemma ScaledUp(a: nat, b: nat, c: nat)
    requires c >= 1
    ensures a * b <= a * (b * c) && a * b <= a * (c * b)
  {
    assert b <= b * c;
  }
}
