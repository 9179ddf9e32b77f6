/** Comparison operators that the translator of src/mvpc/backends/lean.py drops: what a chain loses with
    them, where that does no harm, and where it does. */
module SmtUnlisted {
  import opened Wrappers
  import opened SmtTranslate
  import opened SmtMeaning

  /** Every comparison uses one of the six listed operators. */
  predicate SixOps(e: Expr) {
    match e
    case Unary(_, a) => SixOps(a)
    case Binary(_, l, r) => SixOps(l) && SixOps(r)
    case BoolOp(_, vs) => forall v | v in vs :: SixOps(v)
    case Compare(first, ops, rights) => Unlisted !in ops && SixOps(first) && forall r | r in rights :: SixOps(r)
    case _ => true
  }

  lemma {:induction false} SixOpsAreExact(i: Interp, e: Expr)
    requires SixOps(e)
    ensures Eval(i, e) == Eval(Lenient(i), e)
    decreases e, 0
  {
    match e
    case Const(_) =>
    case Name(_) =>
    case Opaque(_, _) =>
    case Unary(_, a) => SixOpsAreExact(i, a);
    case Binary(_, l, r) => SixOpsAreExact(i, l); SixOpsAreExact(i, r);
    case BoolOp(op, vs) => SixOpsJunction(i, op, vs);
    case Compare(first, ops, rights) =>
      SixOpsAreExact(i, first);
      var a := Eval(i, first);
      if a.Some? {
        SixOpsChain(i, a.value, ops, rights);
      }
  }

  lemma {:induction false} SixOpsJunction(i: Interp, op: Junctor, vs: seq<Expr>)
    requires forall v :: v in vs ==> SixOps(v)
    ensures EvalJunction(i, op, vs) == EvalJunction(Lenient(i), op, vs)
    decreases vs, 1
  {
    if vs != [] {
      SixOpsAreExact(i, vs[0]);
      SixOpsJunction(i, op, vs[1..]);
    }
  }

  lemma {:induction false} SixOpsChain(i: Interp, curr: Value, ops: seq<CmpOp>, rights: seq<Expr>)
    requires Unlisted !in ops && forall r :: r in rights ==> SixOps(r)
    ensures EvalChain(i, curr, ops, rights) == EvalChain(Lenient(i), curr, ops, rights)
    decreases rights, 1
  {
    if ops != [] && rights != [] {
      SixOpsAreExact(i, rights[0]);
      var r := Eval(i, rights[0]);
      if r.Some? {
        SixOpsChain(i, r.value, ops[1..], rights[1..]);
      }
    }
  }

  /** On the six operators the translation has exactly the value of the source. */
  lemma SixOpsMeaning(py: Python, i: Interp, m: Model, e: Expr)
    requires PowAgrees(i.pow, m) && FoldsExact(py, i.pow, e) && SixOps(e)
    requires Translate(py, e).Some? && Eval(i, e).Some?
    ensures Translate(py, e).value.ValueIn(i.vars, m) == Eval(i, e).value
  {
    SixOpsAreExact(i, e);
    TranslationMeaning(py, i, m, e);
  }

  /** The unlisted links of a chain, evaluated where they stand. */
  ghost predicate DroppedHold(i: Interp, curr: Value, ops: seq<CmpOp>, rights: seq<Expr>)
    decreases |ops|
  {
    ops == [] || rights == [] ||
    var r := Eval(i, rights[0]);
    r.Some? && (ops[0] == Unlisted ==> i.unlisted(curr, r.value)) && DroppedHold(i, r.value, ops[1..], rights[1..])
  }

  lemma {:induction false} ChainWithDropped(i: Interp, curr: Value, ops: seq<CmpOp>, rights: seq<Expr>)
    requires forall r :: r in rights ==> SixOps(r)
    ensures EvalChain(i, curr, ops, rights) == Some(Truth(true)) <==>
      EvalChain(Lenient(i), curr, ops, rights) == Some(Truth(true)) && DroppedHold(i, curr, ops, rights)
    decreases |ops|
  {
    if ops != [] && rights != [] {
      SixOpsAreExact(i, rights[0]);
      var r := Eval(i, rights[0]);
      if r.Some? {
        ChainWithDropped(i, r.value, ops[1..], rights[1..]);
      }
    }
  }

  /** A comparison chain with an unlisted operator is weakened: where its listed part is defined,
      the source holds exactly when the translation holds and the dropped links hold as well. */
  lemma DroppedLinksWeaken(py: Python, i: Interp, m: Model, first: Expr, ops: seq<CmpOp>, rights: seq<Expr>)
    requires PowAgrees(i.pow, m) && FoldsExact(py, i.pow, Compare(first, ops, rights))
    requires SixOps(first) && forall r :: r in rights ==> SixOps(r)
    requires Translate(py, Compare(first, ops, rights)).Some?
    requires Eval(Lenient(i), Compare(first, ops, rights)).Some?
    ensures Eval(i, Compare(first, ops, rights)) == Some(Truth(true)) <==>
      Translate(py, Compare(first, ops, rights)).value.ValueIn(i.vars, m) == Truth(true)
      && Eval(i, first).Some? && DroppedHold(i, Eval(i, first).value, ops, rights)
  {
    var e := Compare(first, ops, rights);
    SixOpsAreExact(i, first);
    ChainWithDropped(i, Eval(i, first).value, ops, rights);
    TranslationMeaning(py, i, m, e);
  }

  // ----- Where an unlisted comparison does no harm

  /** Unlisted operators only where being read as true can only make the expression truer (`want` is
      true) or falser (`want` is false): in chains over six-operator operands, under `and`, `or` and
      an even, or odd, number of negations. */
  predicate Polar(e: Expr, want: bool) {
    || SixOps(e)
    || match e
       case Unary(op, a) => op == Not && Polar(a, !want)
       case BoolOp(_, vs) => forall v | v in vs :: Polar(v, want)
       case Compare(first, _, rights) => want && SixOps(first) && forall r | r in rights :: SixOps(r)
       case _ => false
  }

  /** Such an expression passes its value on to its translation when the value is the wanted one. */
  lemma {:induction false} PolarMeaning(py: Python, i: Interp, m: Model, e: Expr, want: bool)
    requires PowAgrees(i.pow, m) && FoldsExact(py, i.pow, e) && Polar(e, want)
    requires Translate(py, e).Some? && Eval(i, e) == Some(Truth(want))
    ensures Translate(py, e).value.ValueIn(i.vars, m) == Truth(want)
    decreases e, 0
  {
    if SixOps(e) {
      SixOpsMeaning(py, i, m, e);
    } else {
      match e
      case Unary(_, a) => PolarMeaning(py, i, m, a, !want);
      case BoolOp(op, vs) => PolarJunction(py, i, m, op, vs, want);
      case Compare(first, ops, rights) =>
        SixOpsAreExact(i, first);
        ChainWithDropped(i, Eval(i, first).value, ops, rights);
        TranslationMeaning(py, i, m, e);
    }
  }

  lemma {:induction false} PolarJunction(py: Python, i: Interp, m: Model, op: Junctor, vs: seq<Expr>, want: bool)
    requires PowAgrees(i.pow, m)
    requires forall v :: v in vs ==> FoldsExact(py, i.pow, v) && Polar(v, want)
    requires TranslateAll(py, vs).Some? && EvalJunction(i, op, vs) == Some(Truth(want))
    ensures Settled(i.vars, m, op, TranslateAll(py, vs).value) <==> ((op == AndOp) != want)
    decreases vs, 1
  {
    if vs != [] {
      var v := Eval(i, vs[0]).value;
      var x, xs := Translate(py, vs[0]).value, TranslateAll(py, vs[1..]).value;
      assert TranslateAll(py, vs).value == [x] + xs;
      if v.b == want {
        PolarMeaning(py, i, m, vs[0], want);
      }
      if v.b != (op == AndOp) {
        assert ([x] + xs)[0] == x;
      } else {
        PolarJunction(py, i, m, op, vs[1..], want);
        if want == (op == AndOp) {
          SettledTail(i.vars, m, op, x, xs);
        } else {
          SettledMore(i.vars, m, op, x, xs);
        }
      }
    }
  }

  lemma SettledMore(vars: string -> real, m: Model, op: Junctor, x: Operand, xs: seq<Operand>)
    requires Settled(vars, m, op, xs)
    ensures Settled(vars, m, op, [x] + xs)
  {
    var k :| 0 <= k < |xs| && AsTruth(xs[k].ValueIn(vars, m)) != (op == AndOp);
    assert ([x] + xs)[k + 1] == xs[k];
  }

  lemma {:induction false} StrictIsDefined(i: Interp, curr: Value, ops: seq<CmpOp>, rights: seq<Expr>)
    requires forall r :: r in rights ==> SixOps(r)
    requires EvalChain(Lenient(i), curr, ops, rights).Some?
    ensures EvalChain(i, curr, ops, rights).Some? && EvalChain(i, curr, ops, rights).value.Truth?
    decreases |ops|
  {
    if ops != [] && rights != [] {
      SixOpsAreExact(i, rights[0]);
      if LinkHolds(Lenient(i), ops[0], curr, Eval(i, rights[0]).value) {
        StrictIsDefined(i, Eval(i, rights[0]).value, ops[1..], rights[1..]);
      }
    }
  }

  /** Under a negation a dropped link does harm: where the listed part is defined, the negated chain
      holds against its translation exactly when the listed links hold and a dropped one does not. */
  lemma NegatedChainFailsIff(py: Python, i: Interp, m: Model, first: Expr, ops: seq<CmpOp>, rights: seq<Expr>)
    requires PowAgrees(i.pow, m) && FoldsExact(py, i.pow, Compare(first, ops, rights))
    requires SixOps(first) && forall r :: r in rights ==> SixOps(r)
    requires Translate(py, Unary(Not, Compare(first, ops, rights))).Some?
    requires Eval(Lenient(i), Compare(first, ops, rights)).Some?
    ensures
      var e := Unary(Not, Compare(first, ops, rights));
      (Eval(i, e) == Some(Truth(true)) && Translate(py, e).value.ValueIn(i.vars, m) == Truth(false))
      <==> (&& Eval(Lenient(i), e.operand) == Some(Truth(true))
            && Eval(i, first).Some? && !DroppedHold(i, Eval(i, first).value, ops, rights))
  {
    var e := Compare(first, ops, rights);
    SixOpsAreExact(i, first);
    StrictIsDefined(i, Eval(i, first).value, ops, rights);
    ChainWithDropped(i, Eval(i, first).value, ops, rights);
    TranslationMeaning(py, i, m, e);
    NegationMeaning(py, i, m, e);
  }

  lemma NegationMeaning(py: Python, i: Interp, m: Model, a: Expr)
    requires Translate(py, Unary(Not, a)).Some? && Eval(i, a).Some? && Eval(i, a).value.Truth?
    ensures Eval(i, Unary(Not, a)) == Some(Truth(!Eval(i, a).value.b))
    ensures Translate(py, Unary(Not, a)).value.ValueIn(i.vars, m)
         == Truth(!AsTruth(Translate(py, a).value.ValueIn(i.vars, m)))
  {
    var x := Translate(py, a).value;
    assert Translate(py, Unary(Not, a)) == Some(Symbolic(NotT(x.AsTerm())));
  }
}
