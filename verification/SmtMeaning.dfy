/** What the translator of src/mvpc/backends/lean.py keeps of an expression's meaning, and what rounded
    constants do to it. */
module SmtMeaning {
  import opened Wrappers
  import opened SmtTranslate

  ghost predicate PowAgrees(pow: (real, real) -> Option<real>, m: Model) {
    forall a, b :: pow(a, b).Some? ==> m.pow(a, b) == pow(a, b).value
  }

  /** The reading the translator gives to unlisted comparisons: all of them hold. */
  function Lenient(i: Interp): Interp {
    i.(unlisted := (a, b) => true)
  }

  // ----- Plain operands

  /** Arithmetic over number literals only, which Python computes instead of building a term. */
  predicate ClosedNum(e: Expr) {
    match e
    case Const(lit) => !lit.BoolLit?
    case Unary(op, a) => op != Not && ClosedNum(a)
    case Binary(_, l, r) => ClosedNum(l) && ClosedNum(r)
    case _ => false
  }

  /** What Python makes of it. */
  function FoldValue(py: Python, e: Expr): Option<PyNum>
    requires ClosedNum(e)
  {
    match e
    case Const(IntLit(n)) => Some(PyInt(n))
    case Const(FloatLit(written)) =>
      var d := py.read(written);
      if d.None? then None else Some(PyFloat(d.value))
    case Unary(op, a) =>
      var x := FoldValue(py, a);
      if x.None? || op == UAdd then x else Some(Negated(x.value))
    case Binary(op, l, r) =>
      var x, y := FoldValue(py, l), FoldValue(py, r);
      if x.None? || y.None? then None else py.arith(op, x.value, y.value)
  }

  /** The exact value of it. */
  function ExactValue(pow: (real, real) -> Option<real>, e: Expr): Option<real>
    requires ClosedNum(e)
  {
    match e
    case Const(lit) => Some(lit.Meaning().n)
    case Unary(op, a) =>
      var x := ExactValue(pow, a);
      if x.None? || op == UAdd then x else Some(-x.value)
    case Binary(op, l, r) =>
      var x, y := ExactValue(pow, l), ExactValue(pow, r);
      if x.None? || y.None? then None else ArithValue(pow, op, x.value, y.value)
  }

  lemma {:induction false} ExactIsEval(i: Interp, e: Expr)
    requires ClosedNum(e)
    ensures Eval(i, e) == match ExactValue(i.pow, e) case Some(x) => Some(Num(x)) case None => None
  {
    match e
    case Const(_) =>
    case Unary(_, a) => ExactIsEval(i, a);
    case Binary(_, l, r) => ExactIsEval(i, l); ExactIsEval(i, r);
  }

  lemma {:induction false} FoldIsTranslate(py: Python, e: Expr)
    requires ClosedNum(e)
    ensures Translate(py, e) == match FoldValue(py, e) case Some(p) => Some(PlainNum(p)) case None => None
  {
    match e
    case Const(_) =>
    case Unary(_, a) => FoldIsTranslate(py, a);
    case Binary(_, l, r) => FoldIsTranslate(py, l); FoldIsTranslate(py, r);
  }

  /** Only closed arithmetic becomes a plain number. */
  lemma {:induction false} PlainIsClosed(py: Python, e: Expr)
    requires Translate(py, e).Some? && Translate(py, e).value.PlainNum?
    ensures ClosedNum(e)
  {
    match e
    case Const(_) =>
    case Name(_) =>
    case Opaque(_, _) =>
    case BoolOp(_, _) =>
    case Unary(_, a) => PlainIsClosed(py, a);
    case Binary(_, l, r) => PlainIsClosed(py, l); PlainIsClosed(py, r);
    case Compare(first, ops, rights) => LinksAreTruths(py, Translate(py, first).value, ops, rights);
  }

  lemma {:induction false} LinksAreTruths(py: Python, curr: Operand, ops: seq<CmpOp>, rights: seq<Expr>)
    requires TranslateLinks(py, curr, ops, rights).Some?
    ensures forall k :: 0 <= k < |TranslateLinks(py, curr, ops, rights).value| ==>
      TranslateLinks(py, curr, ops, rights).value[k].Sort() == BoolSort
    decreases |ops|
  {
    if ops != [] && rights != [] {
      LinksAreTruths(py, Translate(py, rights[0]).value, ops[1..], rights[1..]);
    }
  }

  // ----- Exact constants

  /** If Python's result and the exact value both exist, they are the same number. */
  predicate ExactAt(py: Python, pow: (real, real) -> Option<real>, e: Expr)
    requires ClosedNum(e)
  {
    var p, x := FoldValue(py, e), ExactValue(pow, e);
    p.Some? && x.Some? ==> p.value.Real() == x.value
  }

  /** A comparison of two plain values comes out as it does on the numbers they stand for. */
  predicate LinkExact(py: Python, op: CmpOp, l: Option<Operand>, r: Option<Operand>) {
    op != Unlisted && l.Some? && r.Some? && !l.value.Symbolic? && !r.value.Symbolic? ==>
      py.compare(op, l.value.AsPyNum(), r.value.AsPyNum())
      == CompareReals(op, l.value.AsPyNum().Real(), r.value.AsPyNum().Real())
  }

  /** Every largest piece of closed arithmetic is computed exactly, and every comparison of plain values. */
  predicate FoldsExact(py: Python, pow: (real, real) -> Option<real>, e: Expr)
    decreases e, 0
  {
    if ClosedNum(e) then ExactAt(py, pow, e)
    else
      match e
      case Unary(_, a) => FoldsExact(py, pow, a)
      case Binary(_, l, r) => FoldsExact(py, pow, l) && FoldsExact(py, pow, r)
      case BoolOp(_, vs) => forall v | v in vs :: FoldsExact(py, pow, v)
      case Compare(first, ops, rights) =>
        FoldsExact(py, pow, first) && ChainExact(py, pow, Translate(py, first), ops, rights)
      case _ => true
  }

  predicate ChainExact(py: Python, pow: (real, real) -> Option<real>, curr: Option<Operand>, ops: seq<CmpOp>,
                       rights: seq<Expr>)
    decreases rights, 1
  {
    ops == [] || rights == [] ||
    (&& FoldsExact(py, pow, rights[0])
     && LinkExact(py, ops[0], curr, Translate(py, rights[0]))
     && ChainExact(py, pow, Translate(py, rights[0]), ops[1..], rights[1..]))
  }

  lemma ClosedMeaning(py: Python, i: Interp, m: Model, e: Expr)
    requires ClosedNum(e) && ExactAt(py, i.pow, e)
    requires Translate(py, e).Some? && Eval(i, e).Some?
    ensures Translate(py, e).value.ValueIn(i.vars, m) == Eval(i, e).value
  {
    FoldIsTranslate(py, e);
    ExactIsEval(i, e);
  }

  // ----- Meaning is preserved

  /** The central law: a translated expression with exact constants has, under every assignment and whatever the
      solver makes of division by zero, the value of the source with unlisted comparisons read as true. */
  lemma {:induction false} TranslationMeaning(py: Python, i: Interp, m: Model, e: Expr)
    requires PowAgrees(i.pow, m) && FoldsExact(py, i.pow, e)
    requires Translate(py, e).Some? && Eval(Lenient(i), e).Some?
    ensures Translate(py, e).value.ValueIn(i.vars, m) == Eval(Lenient(i), e).value
    decreases e, 0
  {
    if ClosedNum(e) {
      ClosedMeaning(py, Lenient(i), m, e);
    } else {
      match e
      case Const(_) =>
      case Name(_) =>
      case Opaque(_, _) =>
      case Unary(_, a) => UnaryMeaning(py, i, m, e);
      case Binary(_, _, _) => BinaryMeaning(py, i, m, e);
      case BoolOp(op, vs) => JunctionMeaning(py, i, m, op, vs);
      case Compare(first, ops, rights) =>
        TranslationMeaning(py, i, m, first);
        var x := Translate(py, first).value;
        ChainMeaning(py, i, m, x, ops, rights);
        var rs := TranslateLinks(py, x, ops, rights).value;
        LinksAreTruths(py, x, ops, rights);
        if |rs| == 1 {
          SortIsSort(rs[0], i.vars, m);
        }
    }
  }

  lemma {:induction false} UnaryMeaning(py: Python, i: Interp, m: Model, e: Expr)
    requires e.Unary? && !ClosedNum(e) && PowAgrees(i.pow, m) && FoldsExact(py, i.pow, e)
    requires Translate(py, e).Some? && Eval(Lenient(i), e).Some?
    ensures Translate(py, e).value.ValueIn(i.vars, m) == Eval(Lenient(i), e).value
    decreases e.operand, 1
  {
    TranslationMeaning(py, i, m, e.operand);
    if Translate(py, e.operand).value.PlainNum? {
      PlainIsClosed(py, e.operand);
    }
  }

  lemma {:induction false} BinaryMeaning(py: Python, i: Interp, m: Model, e: Expr)
    requires e.Binary? && !ClosedNum(e) && PowAgrees(i.pow, m) && FoldsExact(py, i.pow, e)
    requires Translate(py, e).Some? && Eval(Lenient(i), e).Some?
    ensures Translate(py, e).value.ValueIn(i.vars, m) == Eval(Lenient(i), e).value
    decreases e, 0, 0
  {
    TranslationMeaning(py, i, m, e.left);
    TranslationMeaning(py, i, m, e.right);
    if Translate(py, e.left).value.PlainNum? && Translate(py, e.right).value.PlainNum? {
      PlainIsClosed(py, e.left);
      PlainIsClosed(py, e.right);
    }
  }

  /** Some operand settles the junction. */
  ghost predicate Settled(vars: string -> real, m: Model, op: Junctor, xs: seq<Operand>) {
    exists k :: 0 <= k < |xs| && AsTruth(xs[k].ValueIn(vars, m)) != (op == AndOp)
  }

  lemma {:induction false} JunctionMeaning(py: Python, i: Interp, m: Model, op: Junctor, vs: seq<Expr>)
    requires PowAgrees(i.pow, m) && forall v :: v in vs ==> FoldsExact(py, i.pow, v)
    requires TranslateAll(py, vs).Some? && EvalJunction(Lenient(i), op, vs).Some?
    ensures EvalJunction(Lenient(i), op, vs).value
         == Truth(Settled(i.vars, m, op, TranslateAll(py, vs).value) != (op == AndOp))
    decreases vs, 1
  {
    if vs != [] {
      TranslationMeaning(py, i, m, vs[0]);
      var v := Eval(Lenient(i), vs[0]).value;
      var x, xs := Translate(py, vs[0]).value, TranslateAll(py, vs[1..]).value;
      var all := [x] + xs;
      assert TranslateAll(py, vs).value == all;
      if v.b != (op == AndOp) {
        assert AsTruth(all[0].ValueIn(i.vars, m)) != (op == AndOp);
      } else {
        JunctionMeaning(py, i, m, op, vs[1..]);
        SettledTail(i.vars, m, op, x, xs);
      }
    }
  }

  lemma SettledTail(vars: string -> real, m: Model, op: Junctor, x: Operand, xs: seq<Operand>)
    requires AsTruth(x.ValueIn(vars, m)) == (op == AndOp)
    ensures Settled(vars, m, op, [x] + xs) <==> Settled(vars, m, op, xs)
  {
    var all := [x] + xs;
    if Settled(vars, m, op, all) {
      var k :| 0 <= k < |all| && AsTruth(all[k].ValueIn(vars, m)) != (op == AndOp);
      assert all[k] == xs[k - 1];
    }
    if Settled(vars, m, op, xs) {
      var k :| 0 <= k < |xs| && AsTruth(xs[k].ValueIn(vars, m)) != (op == AndOp);
      assert all[k + 1] == xs[k];
    }
  }

  /** A comparison of operands, plain, built, mirrored or coerced, has the meaning of the source operator. */
  lemma CompareMeaning(py: Python, vars: string -> real, m: Model, op: CmpOp, l: Operand, r: Operand)
    requires op != Unlisted && ApplyCompare(py, op, l, r).Some? && LinkExact(py, op, Some(l), Some(r))
    ensures ApplyCompare(py, op, l, r).value.ValueIn(vars, m)
         == Truth(CompareValues(op, l.ValueIn(vars, m), r.ValueIn(vars, m)))
  {
    var a, b := l.ValueIn(vars, m), r.ValueIn(vars, m);
    SortIsSort(l, vars, m);
    SortIsSort(r, vars, m);
    MirrorMeaning(op, a.AsNumber(), b.AsNumber());
    CoercedMeaning(l.AsTerm(), vars, m);
    CoercedMeaning(r.AsTerm(), vars, m);
    if !l.Symbolic? && !r.Symbolic? {
      assert a.AsNumber() == l.AsPyNum().Real() && b.AsNumber() == r.AsPyNum().Real();
    }
  }

  lemma MirrorMeaning(op: CmpOp, a: real, b: real)
    requires op != Unlisted
    ensures Mirror(op) != Unlisted && CompareReals(Mirror(op), b, a) == CompareReals(op, a, b)
  {
  }

  /** Coercion does not change what a truth value compares as. */
  lemma CoercedMeaning(t: Term, vars: string -> real, m: Model)
    ensures TermValue(vars, m, Coerced(t)).AsNumber() == TermValue(vars, m, t).AsNumber()
  {
    SortIsSort(Symbolic(t), vars, m);
  }

  lemma SortIsSort(x: Operand, vars: string -> real, m: Model)
    ensures x.ValueIn(vars, m).Sort() == x.Sort()
  {
  }

  lemma {:induction false} ChainMeaning(py: Python, i: Interp, m: Model, curr: Operand, ops: seq<CmpOp>,
                                        rights: seq<Expr>)
    requires PowAgrees(i.pow, m) && ChainExact(py, i.pow, Some(curr), ops, rights)
    requires TranslateLinks(py, curr, ops, rights).Some?
    requires EvalChain(Lenient(i), curr.ValueIn(i.vars, m), ops, rights).Some?
    ensures EvalChain(Lenient(i), curr.ValueIn(i.vars, m), ops, rights).value
         == Truth(!Settled(i.vars, m, AndOp, TranslateLinks(py, curr, ops, rights).value))
    decreases rights, 1
  {
    if ops != [] && rights != [] {
      var op, y := ops[0], Translate(py, rights[0]).value;
      TranslationMeaning(py, i, m, rights[0]);
      if op == Unlisted {
        ChainMeaning(py, i, m, y, ops[1..], rights[1..]);
      } else {
        CompareMeaning(py, i.vars, m, op, curr, y);
        var c, rest := ApplyCompare(py, op, curr, y).value, TranslateLinks(py, y, ops[1..], rights[1..]).value;
        var all := [c] + rest;
        assert TranslateLinks(py, curr, ops, rights).value == all;
        if CompareValues(op, curr.ValueIn(i.vars, m), y.ValueIn(i.vars, m)) {
          ChainMeaning(py, i, m, y, ops[1..], rights[1..]);
          SettledTail(i.vars, m, AndOp, c, rest);
        } else {
          assert !AsTruth(all[0].ValueIn(i.vars, m));
        }
      }
    }
  }

  // ----- Rounded constants

  /** A variable compared with closed arithmetic keeps its meaning under every assignment exactly when Python
      computes the constant exactly. */
  lemma ConstantKeptIff(py: Python, i: Interp, m: Model, id: string, op: CmpOp, c: Expr)
    requires Named(id).None? && op != Unlisted && ClosedNum(c)
    requires FoldValue(py, c).Some? && ExactValue(i.pow, c).Some?
    ensures
      (forall vars: string -> real :: MeansSame(py, i.(vars := vars), m, Compare(Name(id), [op], [c])))
      <==> FoldValue(py, c).value.Real() == ExactValue(i.pow, c).value
  {
    var q, x := FoldValue(py, c).value.Real(), ExactValue(i.pow, c).value;
    forall vars: string -> real
      ensures MeansSame(py, i.(vars := vars), m, Compare(Name(id), [op], [c]))
         <==> CompareReals(op, vars(id), q) == CompareReals(op, vars(id), x)
    {
      ConstantCompared(py, i.(vars := vars), m, id, op, c);
    }
    var atQ, atX := (s: string) => q, (s: string) => x;
    assert atQ(id) == q && atX(id) == x;
    if forall vars: string -> real :: MeansSame(py, i.(vars := vars), m, Compare(Name(id), [op], [c])) {
      assert MeansSame(py, i.(vars := atQ), m, Compare(Name(id), [op], [c]));
      assert MeansSame(py, i.(vars := atX), m, Compare(Name(id), [op], [c]));
    }
  }

  /** The translation has the value of the source. */
  ghost predicate MeansSame(py: Python, i: Interp, m: Model, e: Expr) {
    && Translate(py, e).Some? && Eval(i, e).Some?
    && Translate(py, e).value.ValueIn(i.vars, m) == Eval(i, e).value
  }

  lemma OneLink(py: Python, x: Operand, op: CmpOp, c: Expr, y: Operand, link: Operand)
    requires op != Unlisted && Translate(py, c) == Some(y) && ApplyCompare(py, op, x, y) == Some(link)
    ensures TranslateLinks(py, x, [op], [c]) == Some([link])
  {
    assert [op][1..] == [] && [c][1..] == [];
    assert TranslateLinks(py, y, [op][1..], [c][1..]) == Some([]);
    assert [link] + [] == [link];
  }

  lemma ConstantTranslated(py: Python, id: string, op: CmpOp, c: Expr)
    requires Named(id).None? && op != Unlisted && ClosedNum(c) && FoldValue(py, c).Some?
    ensures Translate(py, Compare(Name(id), [op], [c]))
         == Some(Symbolic(Rel(op, RealVar(id), Lit(Num(FoldValue(py, c).value.Real())))))
  {
    FoldIsTranslate(py, c);
    var x, p := Symbolic(RealVar(id)), PlainNum(FoldValue(py, c).value);
    OneLink(py, x, op, c, p, Symbolic(Rel(op, RealVar(id), p.AsTerm())));
  }

  lemma ConstantCompared(py: Python, i: Interp, m: Model, id: string, op: CmpOp, c: Expr)
    requires Named(id).None? && op != Unlisted && ClosedNum(c)
    requires FoldValue(py, c).Some? && ExactValue(i.pow, c).Some?
    ensures
      var e := Compare(Name(id), [op], [c]);
      && Translate(py, e).Some?
      && Translate(py, e).value.ValueIn(i.vars, m)
         == Truth(CompareReals(op, i.vars(id), FoldValue(py, c).value.Real()))
      && Eval(i, e) == Some(Truth(CompareReals(op, i.vars(id), ExactValue(i.pow, c).value)))
  {
    ConstantTranslated(py, id, op, c);
    ConstantEvaluated(i, id, op, c);
    var q := Lit(Num(FoldValue(py, c).value.Real()));
    assert TermValue(i.vars, m, RealVar(id)) == Num(i.vars(id)) && TermValue(i.vars, m, q) == q.v;
  }

  lemma ConstantEvaluated(i: Interp, id: string, op: CmpOp, c: Expr)
    requires Named(id).None? && op != Unlisted && ClosedNum(c) && ExactValue(i.pow, c).Some?
    ensures Eval(i, Compare(Name(id), [op], [c]))
         == Some(Truth(CompareReals(op, i.vars(id), ExactValue(i.pow, c).value)))
  {
    ExactIsEval(i, c);
    var x, v := Num(i.vars(id)), Num(ExactValue(i.pow, c).value);
    assert Eval(i, Name(id)) == Some(x) && Eval(i, c) == Some(v);
    assert [op][1..] == [] && [c][1..] == [];
    assert EvalChain(i, v, [op][1..], [c][1..]) == Some(Truth(true));
    assert EvalChain(i, x, [op], [c]) == Some(Truth(LinkHolds(i, op, x, v)));
  }

  // ----- Names and single comparisons, written out

  /** The four truth names are constants; every other name is a real variable of that name. */
  lemma NamesMean(py: Python, i: Interp, id: string)
    ensures id == "True" || id == "True_" ==>
      Translate(py, Name(id)) == Some(PlainBool(true)) && Eval(i, Name(id)) == Some(Truth(true))
    ensures id == "False" || id == "False_" ==>
      Translate(py, Name(id)) == Some(PlainBool(false)) && Eval(i, Name(id)) == Some(Truth(false))
    ensures id != "True" && id != "True_" && id != "False" && id != "False_" ==>
      Translate(py, Name(id)) == Some(Symbolic(RealVar(id))) && Eval(i, Name(id)) == Some(Num(i.vars(id)))
  {
    assert |"True"| == 4 && |"True_"| == 5 && |"False"| == 5 && |"False_"| == 6;
    assert "True_"[0] == 'T' && "False"[0] == 'F';
  }

  /** A variable compared with a whole number: what the source says and the term says. */
  lemma ComparisonMeans(py: Python, i: Interp, m: Model, id: string, op: CmpOp, n: int)
    requires id !in {"True", "True_", "False", "False_"} && op != Unlisted
    ensures
      var x, c := i.vars(id), n as real;
      var holds := match op
        case Eq => x == c
        case NotEq => x != c
        case Lt => x < c
        case LtE => x <= c
        case Gt => x > c
        case _ => x >= c;
      var e := Compare(Name(id), [op], [Const(IntLit(n))]);
      && Translate(py, e).Some? && Translate(py, e).value.ValueIn(i.vars, m) == Truth(holds)
      && Eval(i, e) == Some(Truth(holds))
  {
    NamesMean(py, i, id);
    ConstantCompared(py, i, m, id, op, Const(IntLit(n)));
  }
}
