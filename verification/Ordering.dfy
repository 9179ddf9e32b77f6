/** Code-point order on strings and the stable sort that `sorted(..., key=...)`
    performs: a permutation in order that keeps equal keys as they were. When equal
    keys mean equal items, the order of the listing does not matter. The sort is an
    insertion sort; any stable sort gives the same list. */
module Ordering {
  predicate Leq(a: string, b: string) {
    || a == ""
    || (b != "" && (a[0] < b[0] || (a[0] == b[0] && Leq(a[1..], b[1..]))))
  }

  lemma {:induction false} LeqTotal(a: string, b: string)
    ensures Leq(a, b) || Leq(b, a)
  {
    if a != "" && b != "" && a[0] == b[0] {
      LeqTotal(a[1..], b[1..]);
    }
  }

  lemma {:induction false} LeqAntisymmetric(a: string, b: string)
    requires Leq(a, b) && Leq(b, a)
    ensures a == b
  {
    if a != "" && b != "" {
      LeqAntisymmetric(a[1..], b[1..]);
      assert a == [a[0]] + a[1..] && b == [b[0]] + b[1..];
    }
  }

  lemma {:induction false} LeqTransitive(a: string, b: string, c: string)
    requires Leq(a, b) && Leq(b, c)
    ensures Leq(a, c)
  {
    if a != "" && b != "" && c != "" && a[0] == b[0] && b[0] == c[0] {
      LeqTransitive(a[1..], b[1..], c[1..]);
    }
  }

  function Insert<T>(x: T, xs: seq<T>, key: T -> string): seq<T> {
    if |xs| == 0 || Leq(key(x), key(xs[0])) then [x] + xs
    else [xs[0]] + Insert(x, xs[1..], key)
  }

  /** Equal keys keep their order: each item goes before the later ones it equals. */
  function SortBy<T>(xs: seq<T>, key: T -> string): seq<T> {
    if |xs| == 0 then [] else Insert(xs[0], SortBy(xs[1..], key), key)
  }

  ghost predicate InOrder<T>(xs: seq<T>, key: T -> string) {
    forall i, j :: 0 <= i < j < |xs| ==> Leq(key(xs[i]), key(xs[j]))
  }

  lemma {:induction false} InsertKeeps<T>(x: T, xs: seq<T>, key: T -> string)
    ensures multiset(Insert(x, xs, key)) == multiset(xs) + multiset{x}
  {
    if |xs| > 0 && !Leq(key(x), key(xs[0])) {
      InsertKeeps(x, xs[1..], key);
      assert xs == [xs[0]] + xs[1..];
    }
  }

  lemma {:induction false} SortKeeps<T>(xs: seq<T>, key: T -> string)
    ensures multiset(SortBy(xs, key)) == multiset(xs)
  {
    if |xs| > 0 {
      SortKeeps(xs[1..], key);
      InsertKeeps(xs[0], SortBy(xs[1..], key), key);
      assert xs == [xs[0]] + xs[1..];
    }
  }

  ghost predicate Heads<T>(x: T, xs: seq<T>, key: T -> string) {
    forall y :: y in xs ==> Leq(key(x), key(y))
  }

  lemma InOrderCons<T>(x: T, xs: seq<T>, key: T -> string)
    ensures InOrder([x] + xs, key) <==> InOrder(xs, key) && Heads(x, xs, key)
  {
    var whole := [x] + xs;
    assert forall i :: 0 <= i < |xs| ==> whole[i + 1] == xs[i];
    if InOrder(whole, key) {
      forall i, j | 0 <= i < j < |xs|
        ensures Leq(key(xs[i]), key(xs[j]))
      {
        assert Leq(key(whole[i + 1]), key(whole[j + 1]));
      }
      forall y | y in xs
        ensures Leq(key(x), key(y))
      {
        var i :| 0 <= i < |xs| && xs[i] == y;
        assert Leq(key(whole[0]), key(whole[i + 1]));
      }
    }
  }

  lemma {:induction false} InsertOrders<T>(x: T, xs: seq<T>, key: T -> string)
    requires InOrder(xs, key)
    ensures InOrder(Insert(x, xs, key), key)
  {
    if |xs| > 0 {
      var head, tail := xs[0], xs[1..];
      assert xs == [head] + tail;
      InOrderCons(head, tail, key);
      if Leq(key(x), key(head)) {
        forall y | y in xs
          ensures Leq(key(x), key(y))
        {
          if y in tail {
            LeqTransitive(key(x), key(head), key(y));
          }
        }
        InOrderCons(x, xs, key);
      } else {
        InsertOrders(x, tail, key);
        LeqTotal(key(x), key(head));
        InsertKeeps(x, tail, key);
        assert forall y :: y in Insert(x, tail, key) ==> y in multiset(Insert(x, tail, key));
        InOrderCons(head, Insert(x, tail, key), key);
      }
    }
  }

  /** The sort orders. */
  lemma {:induction false} SortOrders<T>(xs: seq<T>, key: T -> string)
    ensures InOrder(SortBy(xs, key), key)
  {
    if |xs| > 0 {
      SortOrders(xs[1..], key);
      InsertOrders(xs[0], SortBy(xs[1..], key), key);
    }
  }

  /** Items that share a key are the same item. */
  ghost predicate Keyed<T(!new)>(xs: seq<T>, key: T -> string) {
    forall x, y :: x in xs && y in xs && key(x) == key(y) ==> x == y
  }

  lemma SameHead<T(!new)>(xs: seq<T>, ys: seq<T>, key: T -> string)
    requires |xs| > 0 && multiset(xs) == multiset(ys) && Keyed(xs, key)
    requires InOrder(xs, key) && InOrder(ys, key)
    ensures |ys| > 0 && xs[0] == ys[0]
  {
    assert xs[0] in multiset(xs);
    assert xs[0] in ys;
    assert ys[0] in multiset(ys);
    assert ys[0] in xs;
    var i :| 0 <= i < |xs| && xs[i] == ys[0];
    var j :| 0 <= j < |ys| && ys[j] == xs[0];
    if i > 0 && j > 0 {
      assert Leq(key(xs[0]), key(xs[i])) && Leq(key(ys[0]), key(ys[j]));
      LeqAntisymmetric(key(xs[0]), key(ys[0]));
    }
  }

  lemma {:induction false} InOrderUnique<T(!new)>(xs: seq<T>, ys: seq<T>, key: T -> string)
    requires multiset(xs) == multiset(ys) && Keyed(xs, key)
    requires InOrder(xs, key) && InOrder(ys, key)
    ensures xs == ys
    decreases |xs|
  {
    if |xs| == 0 {
      assert |multiset(ys)| == |ys|;
    } else {
      SameHead(xs, ys, key);
      assert xs == [xs[0]] + xs[1..] && ys == [xs[0]] + ys[1..];
      assert multiset(xs[1..]) == multiset(xs) - multiset{xs[0]};
      assert multiset(ys[1..]) == multiset(ys) - multiset{xs[0]};
      InOrderCons(xs[0], xs[1..], key);
      InOrderCons(xs[0], ys[1..], key);
      InOrderUnique(xs[1..], ys[1..], key);
    }
  }

  /** Any listing of the same items sorts to the same list. */
  lemma SortForgetsOrder<T(!new)>(xs: seq<T>, ys: seq<T>, key: T -> string)
    requires multiset(xs) == multiset(ys) && Keyed(xs, key)
    ensures SortBy(xs, key) == SortBy(ys, key)
  {
    SortKeeps(xs, key);
    SortKeeps(ys, key);
    SortOrders(xs, key);
    SortOrders(ys, key);
    assert forall x :: x in SortBy(xs, key) ==> x in multiset(SortBy(xs, key));
    assert forall x :: x in multiset(xs) ==> x in xs;
    InOrderUnique(SortBy(xs, key), SortBy(ys, key), key);
  }

  /** Sorting changes nothing that is already in order. */
  lemma {:induction false} SortKeepsOrdered<T>(xs: seq<T>, key: T -> string)
    requires InOrder(xs, key)
    ensures SortBy(xs, key) == xs
  {
    if |xs| > 0 {
      assert xs == [xs[0]] + xs[1..];
      InOrderCons(xs[0], xs[1..], key);
      SortKeepsOrdered(xs[1..], key);
      if |xs| > 1 {
        assert xs[1] in xs[1..];
      }
    }
  }

  /** The texts agree up to a position where the first has the smaller character. */
  ghost predicate FirstDifference(a: string, b: string, k: nat) {
    k < |a| && k < |b| && a[..k] == b[..k] && a[k] < b[k]
  }

  /** One text comes before another exactly when it is a prefix of it or smaller at the first difference. */
  lemma {:induction false} LeqIff(a: string, b: string)
    ensures Leq(a, b) <==> a <= b || exists k: nat :: FirstDifference(a, b, k)
  {
    if a != "" && b != "" {
      if a[0] == b[0] {
        LeqIff(a[1..], b[1..]);
        assert a == [a[0]] + a[1..] && b == [b[0]] + b[1..];
        if k: nat :| FirstDifference(a[1..], b[1..], k) {
          assert a[..k + 1] == [a[0]] + a[1..][..k] && b[..k + 1] == [b[0]] + b[1..][..k];
          assert FirstDifference(a, b, k + 1);
        }
        if k: nat :| FirstDifference(a, b, k) {
          assert k > 0;
          assert a[..k] == [a[0]] + a[1..][..k - 1] && b[..k] == [b[0]] + b[1..][..k - 1];
          assert a[1..][..k - 1] == a[..k][1..] && b[1..][..k - 1] == b[..k][1..];
          assert FirstDifference(a[1..], b[1..], k - 1);
        }
      } else {
        if a[0] < b[0] {
          assert FirstDifference(a, b, 0);
        }
        if k: nat :| FirstDifference(a, b, k) {
          assert k > 0 ==> a[..k][0] == b[..k][0];
        }
      }
    }
  }

  /** The items with a key, in their order. */
  function WithKey<T>(xs: seq<T>, key: T -> string, text: string): seq<T> {
    if |xs| == 0 then []
    else (if key(xs[0]) == text then [xs[0]] else []) + WithKey(xs[1..], key, text)
  }

  lemma {:induction false} InsertStable<T>(x: T, xs: seq<T>, key: T -> string, text: string)
    ensures WithKey(Insert(x, xs, key), key, text) == WithKey([x] + xs, key, text)
  {
    assert ([x] + xs)[1..] == xs;
    if |xs| > 0 && !Leq(key(x), key(xs[0])) {
      InsertStable(x, xs[1..], key, text);
      assert ([x] + xs[1..])[1..] == xs[1..];
      LeqTotal(key(x), key(x));
      assert ([xs[0]] + Insert(x, xs[1..], key))[1..] == Insert(x, xs[1..], key);
    }
  }

  /** Sorting leaves the items of each key in their order. */
  lemma {:induction false} SortIsStable<T>(xs: seq<T>, key: T -> string, text: string)
    ensures WithKey(SortBy(xs, key), key, text) == WithKey(xs, key, text)
  {
    if |xs| > 0 {
      var rest := SortBy(xs[1..], key);
      SortIsStable(xs[1..], key, text);
      InsertStable(xs[0], rest, key, text);
      assert ([xs[0]] + rest)[1..] == rest;
    }
  }
}
