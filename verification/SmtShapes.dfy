/** Which expressions the translator of src/mvpc/backends/lean.py translates, and to what. */
module SmtShapes {
  import opened Wrappers
  import opened SmtTranslate
  import opened SmtMeaning

  datatype Shape = PlainNumber | PlainTruth | RealTerm | TruthTerm {
    predicate IsPlain() {
      PlainNumber? || PlainTruth?
    }
    predicate IsNumber() {
      PlainNumber? || RealTerm?
    }
  }

  function OperandShape(x: Operand): Shape {
    match x
    case PlainNum(_) => PlainNumber
    case PlainBool(_) => PlainTruth
    case Symbolic(t) => if TermSort(t) == RealSort then RealTerm else TruthTerm
  }

  function LinkShape(op: CmpOp, a: Shape, b: Shape): Option<Shape> {
    if a.IsPlain() && b.IsPlain() then Some(PlainTruth)
    else if a.IsNumber() && b.IsNumber() then Some(TruthTerm)
    else if !a.IsNumber() && !b.IsNumber() then (if op in {Eq, NotEq} then Some(TruthTerm) else None)
    else if a.IsPlain() || b.IsPlain() then None
    else Some(TruthTerm)
  }

  /** An independent sort check: what an expression translates to, from its form alone. */
  function ShapeOf(e: Expr): Option<Shape>
    decreases e, 0
  {
    match e
    case Const(lit) => Some(if lit.BoolLit? then PlainTruth else PlainNumber)
    case Name(id) => Some(if Named(id).Some? then PlainTruth else RealTerm)
    case Unary(op, a) =>
      var s := ShapeOf(a);
      if s.None? || op == UAdd then s
      else if op == USub then (if s.value.IsNumber() then s else None)
      else if s.value.IsNumber() then None
      else Some(TruthTerm)
    case Binary(_, l, r) =>
      var s, t := ShapeOf(l), ShapeOf(r);
      if s.None? || t.None? || !s.value.IsNumber() || !t.value.IsNumber() then None
      else Some(if s.value.PlainNumber? && t.value.PlainNumber? then PlainNumber else RealTerm)
    case BoolOp(_, vs) =>
      if forall v | v in vs :: ShapeOf(v).Some? && !ShapeOf(v).value.IsNumber() then Some(TruthTerm) else None
    case Compare(first, ops, rights) =>
      var s := ShapeOf(first);
      if s.None? then None
      else
        var links := ChainShapes(s.value, ops, rights);
        if links.None? then None else Some(if |links.value| == 1 then links.value[0] else TruthTerm)
    case Opaque(_, s) => Some(if s == RealSort then RealTerm else TruthTerm)
  }

  function ChainShapes(curr: Shape, ops: seq<CmpOp>, rights: seq<Expr>): Option<seq<Shape>>
    decreases rights, 1
  {
    if ops == [] || rights == [] then Some([])
    else
      var s := ShapeOf(rights[0]);
      if s.None? then None
      else
        var rest := ChainShapes(s.value, ops[1..], rights[1..]);
        if ops[0] == Unlisted then rest
        else
          var link := LinkShape(ops[0], curr, s.value);
          if link.None? || rest.None? then None else Some([link.value] + rest.value)
  }

  predicate Supported(e: Expr) {
    match e
    case Unary(_, a) => Supported(a)
    case Binary(_, l, r) => Supported(l) && Supported(r)
    case BoolOp(_, vs) => forall v | v in vs :: Supported(v)
    case Compare(first, ops, rights) =>
      Supported(first) && forall k | 0 <= k < |rights| && k < |ops| :: Supported(rights[k])
    case Opaque(_, _) => false
    case _ => true
  }

  /** Python reads every literal and computes all closed arithmetic without raising. */
  predicate FoldsDefined(py: Python, e: Expr) {
    match e
    case Const(FloatLit(written)) => py.read(written).Some?
    case Unary(_, a) => FoldsDefined(py, a)
    case Binary(_, l, r) => FoldsDefined(py, l) && FoldsDefined(py, r) && (ClosedNum(e) ==> FoldValue(py, e).Some?)
    case BoolOp(_, vs) => forall v | v in vs :: FoldsDefined(py, v)
    case Compare(first, ops, rights) =>
      FoldsDefined(py, first) && forall k | 0 <= k < |rights| && k < |ops| :: FoldsDefined(py, rights[k])
    case _ => true
  }

  ghost predicate Translatable(py: Python, e: Expr) {
    ShapeOf(e).Some? && Supported(e) && FoldsDefined(py, e)
  }

  lemma {:induction false} ClosedShape(e: Expr)
    requires ShapeOf(e).Some?
    ensures ShapeOf(e).value.PlainNumber? <==> ClosedNum(e)
  {
    match e
    case Const(_) =>
    case Name(_) =>
    case Opaque(_, _) =>
    case BoolOp(_, _) =>
    case Unary(_, a) => ClosedShape(a);
    case Binary(_, l, r) => ClosedShape(l); ClosedShape(r);
    case Compare(first, ops, rights) => LinkShapes(ShapeOf(first).value, ops, rights);
  }

  lemma {:induction false} LinkShapes(curr: Shape, ops: seq<CmpOp>, rights: seq<Expr>)
    requires ChainShapes(curr, ops, rights).Some?
    ensures forall k :: 0 <= k < |ChainShapes(curr, ops, rights).value| ==>
      !ChainShapes(curr, ops, rights).value[k].IsNumber()
    decreases |ops|
  {
    if ops != [] && rights != [] {
      LinkShapes(ShapeOf(rights[0]).value, ops[1..], rights[1..]);
    }
  }

  lemma SortIsShape(x: Operand)
    ensures OperandShape(x).IsNumber() <==> x.Sort() == RealSort
    ensures OperandShape(x).IsPlain() <==> !x.Symbolic?
  {
  }

  lemma CompareShape(py: Python, op: CmpOp, l: Operand, r: Operand)
    requires op != Unlisted
    ensures ApplyCompare(py, op, l, r).Some? <==> LinkShape(op, OperandShape(l), OperandShape(r)).Some?
    ensures ApplyCompare(py, op, l, r).Some? ==>
      LinkShape(op, OperandShape(l), OperandShape(r)) == Some(OperandShape(ApplyCompare(py, op, l, r).value))
  {
    SortIsShape(l);
    SortIsShape(r);
  }

  /** An expression translates exactly when its sorts fit, it has no unknown construct and Python computes all
      its constants; what it translates to has the shape read off its form. */
  lemma {:induction false} TranslatesIff(py: Python, e: Expr)
    ensures Translate(py, e).Some? <==> Translatable(py, e)
    ensures Translate(py, e).Some? ==> ShapeOf(e) == Some(OperandShape(Translate(py, e).value))
    decreases e, 0
  {
    match e
    case Const(_) =>
    case Name(_) =>
    case Opaque(_, _) =>
    case Unary(_, a) => TranslatesIff(py, a);
    case Binary(_, _, _) => BinaryTranslatesIff(py, e);
    case BoolOp(op, vs) => AllTranslateIff(py, vs);
    case Compare(first, ops, rights) =>
      TranslatesIff(py, first);
      var x := Translate(py, first);
      if x.Some? {
        LinksTranslateIff(py, x.value, ops, rights);
        if TranslateLinks(py, x.value, ops, rights).Some? {
          LinksAreTruths(py, x.value, ops, rights);
        }
      }
  }

  lemma {:induction false} BinaryTranslatesIff(py: Python, e: Expr)
    requires e.Binary?
    ensures Translate(py, e).Some? <==> Translatable(py, e)
    ensures Translate(py, e).Some? ==> ShapeOf(e) == Some(OperandShape(Translate(py, e).value))
    decreases e, 0, 0
  {
    TranslatesIff(py, e.left);
    TranslatesIff(py, e.right);
    if ShapeOf(e.left).Some? && ShapeOf(e.right).Some? {
      ClosedShape(e.left);
      ClosedShape(e.right);
    }
    if ClosedNum(e) {
      FoldIsTranslate(py, e);
    }
  }

  lemma {:induction false} AllTranslateIff(py: Python, vs: seq<Expr>)
    ensures TranslateAll(py, vs).Some? <==> forall v :: v in vs ==> Translatable(py, v)
    ensures TranslateAll(py, vs).Some? ==>
      forall k :: 0 <= k < |vs| ==> ShapeOf(vs[k]) == Some(OperandShape(TranslateAll(py, vs).value[k]))
    decreases vs, 1
  {
    if vs != [] {
      TranslatesIff(py, vs[0]);
      AllTranslateIff(py, vs[1..]);
      assert forall v :: v in vs <==> v == vs[0] || v in vs[1..];
    }
  }

  ghost predicate LinksTranslatable(py: Python, ops: seq<CmpOp>, rights: seq<Expr>) {
    forall k :: 0 <= k < |rights| && k < |ops| ==> Supported(rights[k]) && FoldsDefined(py, rights[k])
  }

  lemma {:induction false} LinksTranslateIff(py: Python, curr: Operand, ops: seq<CmpOp>, rights: seq<Expr>)
    ensures TranslateLinks(py, curr, ops, rights).Some?
       <==> ChainShapes(OperandShape(curr), ops, rights).Some? && LinksTranslatable(py, ops, rights)
    ensures TranslateLinks(py, curr, ops, rights).Some? ==>
      var rs, shapes := TranslateLinks(py, curr, ops, rights).value, ChainShapes(OperandShape(curr), ops, rights).value;
      |rs| == |shapes| && forall k :: 0 <= k < |rs| ==> shapes[k] == OperandShape(rs[k])
    decreases rights, 1
  {
    if ops != [] && rights != [] {
      TranslatesIff(py, rights[0]);
      var y := Translate(py, rights[0]);
      if y.Some? {
        LinksTranslateIff(py, y.value, ops[1..], rights[1..]);
        assert forall k :: 1 <= k < |rights| ==> rights[k] == rights[1..][k - 1];
        assert forall k :: 0 <= k < |rights| - 1 ==> rights[1..][k] == rights[k + 1];
        if ops[0] != Unlisted {
          CompareShape(py, ops[0], curr, y.value);
        }
      }
    }
  }

  // ----- Sorts of terms

  /** The solver accepts the term: numbers where it computes or orders, truth values where it negates or joins, and
      one sort on both sides of a comparison. */
  predicate WellSorted(t: Term) {
    match t
    case RealVar(_) => true
    case Lit(_) => true
    case Neg(a) => WellSorted(a) && TermSort(a) == RealSort
    case Arith(_, l, r) => WellSorted(l) && WellSorted(r) && TermSort(l) == RealSort && TermSort(r) == RealSort
    case Indicator(a) => WellSorted(a) && TermSort(a) == BoolSort
    case NotT(a) => WellSorted(a) && TermSort(a) == BoolSort
    case Rel(op, l, r) =>
      && WellSorted(l) && WellSorted(r) && TermSort(l) == TermSort(r)
      && op != Unlisted && (TermSort(l) == RealSort || op in {Eq, NotEq})
    case Junction(_, ts) => forall k | 0 <= k < |ts| :: WellSorted(ts[k]) && TermSort(ts[k]) == BoolSort
  }

  ghost predicate AllWellSorted(xs: seq<Operand>) {
    forall k :: 0 <= k < |xs| ==> WellSorted(xs[k].AsTerm())
  }

  lemma CompareWellSorted(py: Python, op: CmpOp, l: Operand, r: Operand)
    requires op != Unlisted && WellSorted(l.AsTerm()) && WellSorted(r.AsTerm()) && ApplyCompare(py, op, l, r).Some?
    ensures WellSorted(ApplyCompare(py, op, l, r).value.AsTerm())
  {
    if l.Symbolic? {
      assert TermSort(Coerced(l.t)) == RealSort && WellSorted(Coerced(l.t));
    }
    if r.Symbolic? {
      assert TermSort(Coerced(r.t)) == RealSort && WellSorted(Coerced(r.t));
    }
    assert Mirror(op) != Unlisted && (op in {Eq, NotEq} ==> Mirror(op) in {Eq, NotEq});
  }

  lemma JoinWellSorted(op: Junctor, xs: seq<Operand>)
    requires AllWellSorted(xs) && Join(op, xs).Some?
    ensures WellSorted(Join(op, xs).value.AsTerm())
  {
    var ts := Terms(xs);
    forall k | 0 <= k < |ts|
      ensures WellSorted(ts[k]) && TermSort(ts[k]) == BoolSort
    {
      assert ts[k] == xs[k].AsTerm() && xs[k].Sort() == BoolSort;
    }
  }

  /** Whatever is translated is a term the solver accepts. */
  lemma {:induction false} TranslationWellSorted(py: Python, e: Expr)
    requires Translate(py, e).Some?
    ensures WellSorted(Translate(py, e).value.AsTerm())
    decreases e, 0
  {
    match e
    case Const(_) =>
    case Name(_) =>
    case Opaque(_, _) =>
    case Unary(_, a) => TranslationWellSorted(py, a);
    case Binary(_, l, r) => TranslationWellSorted(py, l); TranslationWellSorted(py, r);
    case BoolOp(op, vs) =>
      AllTranslationsWellSorted(py, vs);
      JoinWellSorted(op, TranslateAll(py, vs).value);
    case Compare(first, ops, rights) =>
      TranslationWellSorted(py, first);
      var rs := TranslateLinks(py, Translate(py, first).value, ops, rights).value;
      LinksWellSorted(py, Translate(py, first).value, ops, rights);
      if |rs| != 1 {
        JoinWellSorted(AndOp, rs);
      }
  }

  lemma {:induction false} AllTranslationsWellSorted(py: Python, vs: seq<Expr>)
    requires TranslateAll(py, vs).Some?
    ensures AllWellSorted(TranslateAll(py, vs).value)
    decreases vs, 1
  {
    if vs != [] {
      TranslationWellSorted(py, vs[0]);
      AllTranslationsWellSorted(py, vs[1..]);
    }
  }

  lemma {:induction false} LinksWellSorted(py: Python, curr: Operand, ops: seq<CmpOp>, rights: seq<Expr>)
    requires WellSorted(curr.AsTerm()) && TranslateLinks(py, curr, ops, rights).Some?
    ensures AllWellSorted(TranslateLinks(py, curr, ops, rights).value)
    decreases rights, 1
  {
    if ops != [] && rights != [] {
      TranslationWellSorted(py, rights[0]);
      var y := Translate(py, rights[0]).value;
      LinksWellSorted(py, y, ops[1..], rights[1..]);
      if ops[0] != Unlisted {
        CompareWellSorted(py, ops[0], curr, y);
      }
    }
  }
}
