/** The translator as it runs, with its variable table, and the vacuity check (src/mvpc/backends/lean.py). */
module VacuityCheck {
  import opened Wrappers
  import opened SmtTranslate
  import opened SmtMeaning
  import opened SmtUnlisted

  /** The names an expression reads as variables. */
  function Names(e: Expr): set<string> {
    match e
    case Name(id) => if Named(id).Some? then {} else {id}
    case Unary(_, a) => Names(a)
    case Binary(_, l, r) => Names(l) + Names(r)
    case BoolOp(_, vs) => AllNames(vs)
    case Compare(first, _, rights) => Names(first) + AllNames(rights)
    case _ => {}
  }

  function AllNames(vs: seq<Expr>): set<string> {
    set v, n | v in vs && n in Names(v) :: n
  }

  /** A chain read from link `k` on: that link's comparison, then the rest. */
  lemma LinksAt(py: Python, curr: Operand, ops: seq<CmpOp>, rights: seq<Expr>, k: nat)
    requires k < |ops| && k < |rights| && Translate(py, rights[k]).Some?
    ensures
      var y := Translate(py, rights[k]).value;
      var rest := TranslateLinks(py, y, ops[k + 1..], rights[k + 1..]);
      TranslateLinks(py, curr, ops[k..], rights[k..]) ==
        if ops[k] == Unlisted then rest
        else if ApplyCompare(py, ops[k], curr, y).None? || rest.None? then None
        else Some([ApplyCompare(py, ops[k], curr, y).value] + rest.value)
  {
    assert ops[k..][1..] == ops[k + 1..] && rights[k..][1..] == rights[k + 1..];
  }

  /** `all` is what has been collected so far followed by `rest`, or both failed. */
  ghost predicate Continues(all: Option<seq<Operand>>, results: seq<Operand>, rest: Option<seq<Operand>>) {
    all == if rest.Some? then Some(results + rest.value) else None
  }

  lemma ContinuesWith(all: Option<seq<Operand>>, results: seq<Operand>, c: Operand, rest: Option<seq<Operand>>)
    requires Continues(all, results, if rest.Some? then Some([c] + rest.value) else None)
    ensures Continues(all, results + [c], rest)
  {
    if rest.Some? {
      assert results + ([c] + rest.value) == results + [c] + rest.value;
    }
  }

  lemma ContinuesToEnd(all: Option<seq<Operand>>, results: seq<Operand>)
    requires Continues(all, results, Some([]))
    ensures all == Some(results)
  {
    assert results + [] == results;
  }

  /** The table of variables made so far, shared by all hypotheses of one declaration. */
  class Env {
    var table: map<string, Term>

    ghost predicate Valid()
      reads this
    {
      forall n :: n in table ==> table[n] == RealVar(n)
    }

    constructor ()
      ensures Valid() && table == map[]
    {
      table := map[];
    }

    method Variable(id: string) returns (t: Term)
      requires Valid()
      modifies this
      ensures Valid() && t == RealVar(id)
      ensures table.Keys == old(table.Keys) + {id}
    {
      if id !in table {
        table := table[id := RealVar(id)];
      }
      t := table[id];
    }

    /** One call of the translator. The result does not depend on the table it starts from, and
        the table gains variables for names of the expression only. */
    method AstToZ3(py: Python, e: Expr) returns (r: Option<Operand>)
      requires Valid()
      modifies this
      ensures Valid() && r == Translate(py, e)
      ensures old(table.Keys) <= table.Keys <= old(table.Keys) + Names(e)
      decreases e, 0
    {
      match e
      case Const(lit) => r := ReadLiteral(py, lit);
      case Name(id) =>
        if Named(id).Some? {
          return Some(PlainBool(Named(id).value));
        }
        var t := Variable(id);
        r := Some(Symbolic(t));
      case Unary(op, a) =>
        var x := AstToZ3(py, a);
        r := if x.None? then None else ApplyUnary(op, x.value);
      case Binary(op, left, right) =>
        var x := AstToZ3(py, left);
        if x.None? {
          return None;
        }
        var y := AstToZ3(py, right);
        r := if y.None? then None else ApplyArith(py, op, x.value, y.value);
      case BoolOp(op, vs) =>
        var vals := AllToZ3(py, vs);
        r := if vals.None? then None else Join(op, vals.value);
      case Compare(first, ops, rights) => r := CompareToZ3(py, first, ops, rights);
      case Opaque(_, _) => r := None;
    }

    method AllToZ3(py: Python, vs: seq<Expr>) returns (r: Option<seq<Operand>>)
      requires Valid()
      modifies this
      ensures Valid() && r == TranslateAll(py, vs)
      ensures old(table.Keys) <= table.Keys <= old(table.Keys) + AllNames(vs)
      decreases vs, 1
    {
      var vals, k := [], 0;
      assert vs[0..] == vs;
      assert TranslateAll(py, vs).Some? ==> [] + TranslateAll(py, vs).value == TranslateAll(py, vs).value;
      while k < |vs|
        invariant 0 <= k <= |vs| && Valid()
        invariant Continues(TranslateAll(py, vs), vals, TranslateAll(py, vs[k..]))
        invariant old(table.Keys) <= table.Keys <= old(table.Keys) + AllNames(vs)
      {
        assert vs[k..][1..] == vs[k + 1..];
        var x := AstToZ3(py, vs[k]);
        if x.None? {
          return None;
        }
        ContinuesWith(TranslateAll(py, vs), vals, x.value, TranslateAll(py, vs[k + 1..]));
        vals := vals + [x.value];
        k := k + 1;
      }
      ContinuesToEnd(TranslateAll(py, vs), vals);
      r := Some(vals);
    }

    method CompareToZ3(py: Python, first: Expr, ops: seq<CmpOp>, rights: seq<Expr>)
      returns (r: Option<Operand>)
      requires Valid()
      modifies this
      ensures Valid() && r == Translate(py, Compare(first, ops, rights))
      ensures old(table.Keys) <= table.Keys <= old(table.Keys) + Names(Compare(first, ops, rights))
      decreases Compare(first, ops, rights), -1
    {
      ghost var e := Compare(first, ops, rights);
      var left := AstToZ3(py, first);
      if left.None? {
        return None;
      }
      ghost var all := TranslateLinks(py, left.value, ops, rights);
      var results, curr, k := [], left.value, 0;
      assert ops[0..] == ops && rights[0..] == rights;
      assert all.Some? ==> [] + all.value == all.value;
      while k < |ops| && k < |rights|
        invariant 0 <= k <= |ops| && k <= |rights| && Valid()
        invariant Continues(all, results, TranslateLinks(py, curr, ops[k..], rights[k..]))
        invariant old(table.Keys) <= table.Keys <= old(table.Keys) + Names(e)
      {
        var right := AstToZ3(py, rights[k]);
        if right.None? {
          return None;
        }
        LinksAt(py, curr, ops, rights, k);
        ghost var rest := TranslateLinks(py, right.value, ops[k + 1..], rights[k + 1..]);
        if ops[k] != Unlisted {
          var c := ApplyCompare(py, ops[k], curr, right.value);
          if c.None? {
            return None;
          }
          ContinuesWith(all, results, c.value, rest);
          results := results + [c.value];
        }
        curr := right.value;
        k := k + 1;
      }
      ContinuesToEnd(all, results);
      r := if |results| == 1 then Some(results[0]) else Join(AndOp, results);
    }
  }

  // ----- The check

  /** A hypothesis, or `None` for a text that does not parse. */
  type Hypothesis = Option<Expr>

  /** The constraint a hypothesis contributes; `None` when it is skipped. The solver refuses a
      constraint that is not a truth value. */
  function Constraint(py: Python, h: Hypothesis): Option<Operand> {
    if h.None? then None
    else
      var x := Translate(py, h.value);
      if x.Some? && x.value.Sort() == BoolSort then x else None
  }

  function Accepted(py: Python, hyps: seq<Hypothesis>): seq<Operand> {
    if hyps == [] then []
    else
      var init := Accepted(py, hyps[..|hyps| - 1]);
      match Constraint(py, hyps[|hyps| - 1])
      case Some(c) => init + [c]
      case None => init
  }

  ghost predicate Satisfies(vars: string -> real, m: Model, cs: seq<Operand>) {
    forall c :: c in cs ==> AsTruth(c.ValueIn(vars, m))
  }

  /** `unsat` answers truthfully: constraints it calls contradictory have no model under the
      power function `zpow`. */
  ghost predicate SoundSolver(unsat: seq<Operand> -> bool, zpow: (real, real) -> real) {
    forall cs, vars, div :: unsat(cs) ==> !Satisfies(vars, Model(div, zpow), cs)
  }

  ghost predicate Holds(i: Interp, h: Hypothesis) {
    h.Some? && Eval(i, h.value) == Some(Truth(true))
  }

  /** The characters one of which a binder's type must hold to be looked at. */
  const COMPARISONS: set<char> := {'>', '<', '=', '\U{2260}', '\U{2264}', '\U{2265}'}

  predicate HasComparison(text: string) {
    exists k | 0 <= k < |text| :: text[k] in COMPARISONS
  }

  /** The hypotheses taken up, read by `parse`, which stands for the rewriting of operators and the
      parser behind it. */
  function Hypotheses(parse: string -> Hypothesis, types: seq<string>): seq<Hypothesis> {
    if types == [] then []
    else
      var init := Hypotheses(parse, types[..|types| - 1]);
      if HasComparison(types[|types| - 1]) then init + [parse(types[|types| - 1])] else init
  }

  /** At least two constraints, and the solver refutes them. */
  predicate Reported(py: Python, parse: string -> Hypothesis, types: seq<string>, unsat: seq<Operand> -> bool) {
    var constraints := Accepted(py, Hypotheses(parse, types));
    |constraints| >= 2 && unsat(constraints)
  }

  /** `types` are the binder types of one declaration, in order. */
  method Vacuous(py: Python, parse: string -> Hypothesis, types: seq<string>,
                 unsat: seq<Operand> -> bool)
    returns (report: bool)
    ensures report <==> Reported(py, parse, types, unsat)
  {
    var texts: seq<string>, k := [], 0;
    ghost var hyps := Hypotheses(parse, types);
    while k < |types|
      invariant 0 <= k <= |types|
      invariant |texts| == |Hypotheses(parse, types[..k])|
      invariant forall j :: 0 <= j < |texts| ==> Hypotheses(parse, types[..k])[j] == parse(texts[j])
    {
      assert types[..k + 1][..k] == types[..k];
      if HasComparison(types[k]) {
        texts := texts + [types[k]];
      }
      k := k + 1;
    }
    assert types[..|types|] == types;
    AcceptedLength(py, hyps);
    if |texts| < 2 {
      return false;
    }
    var env := new Env();
    var solver, parsed := [], 0;
    for k := 0 to |texts|
      invariant env.Valid() && fresh(env)
      invariant solver == Accepted(py, hyps[..k]) && parsed == |solver|
    {
      assert hyps[..k + 1][..k] == hyps[..k];
      var tree := parse(texts[k]);
      if tree.Some? {
        var x := env.AstToZ3(py, tree.value);
        if x.Some? && x.value.Sort() == BoolSort {
          solver := solver + [x.value];
          parsed := parsed + 1;
        }
      }
    }
    assert hyps[..|hyps|] == hyps;
    report := parsed >= 2 && unsat(solver);
  }

  lemma {:induction false} AcceptedLength(py: Python, hyps: seq<Hypothesis>)
    ensures |Accepted(py, hyps)| <= |hyps|
  {
    if |hyps| > 0 {
      AcceptedLength(py, hyps[..|hyps| - 1]);
    }
  }

  /** Constants that Python computes exactly, and unlisted operators only where reading them as true makes the
      hypothesis no stronger. */
  ghost predicate Harmless(py: Python, pow: (real, real) -> Option<real>, hyps: seq<Hypothesis>) {
    forall h: Hypothesis :: h in hyps && h.Some? ==> FoldsExact(py, pow, h.value) && Polar(h.value, true)
  }

  lemma {:induction false} HypothesesSatisfy(py: Python, i: Interp, m: Model, hyps: seq<Hypothesis>)
    requires PowAgrees(i.pow, m) && Harmless(py, i.pow, hyps)
    requires forall h: Hypothesis :: h in hyps && h.Some? ==> Holds(i, h)
    ensures Satisfies(i.vars, m, Accepted(py, hyps))
  {
    if hyps != [] {
      var h := hyps[|hyps| - 1];
      HypothesesSatisfy(py, i, m, hyps[..|hyps| - 1]);
      if Constraint(py, h).Some? {
        PolarMeaning(py, i, m, h.value, true);
      }
    }
  }

  /** A reported declaration is vacuous: no assignment, and no meaning given to unlisted comparisons
      and to the constructs the translator does not know, satisfies every parsed hypothesis, skipped
      ones included. */
  lemma ReportMeansVacuous(py: Python, unsat: seq<Operand> -> bool, zpow: (real, real) -> real, i: Interp,
                           hyps: seq<Hypothesis>)
    requires SoundSolver(unsat, zpow) && PowAgrees(i.pow, Model(x => x, zpow))
    requires Harmless(py, i.pow, hyps) && unsat(Accepted(py, hyps))
    ensures exists h: Hypothesis :: h in hyps && h.Some? && !Holds(i, h)
  {
    if forall h: Hypothesis :: h in hyps && h.Some? ==> Holds(i, h) {
      HypothesesSatisfy(py, i, Model(x => x, zpow), hyps);
    }
  }

  ghost predicate Satisfiable(m: Model, cs: seq<Operand>) {
    exists vars :: Satisfies(vars, m, cs)
  }

  /** `unsat` recognises every contradiction. */
  ghost predicate CompleteSolver(unsat: seq<Operand> -> bool, zpow: (real, real) -> real) {
    forall cs :: (forall div :: !Satisfiable(Model(div, zpow), cs)) ==> unsat(cs)
  }

  // ----- Negated chains with an unlisted operator

  /** The listed links hold under every assignment. */
  ghost predicate ListedAlwaysHold(i: Interp, chain: Expr) {
    forall vars: string -> real :: Eval(Lenient(i.(vars := vars)), chain) == Some(Truth(true))
  }

  ghost predicate ListedDefined(i: Interp, chain: Expr) {
    forall vars: string -> real :: Eval(Lenient(i.(vars := vars)), chain).Some?
  }

  lemma NegatedChainTerm(py: Python, i: Interp, m: Model, vars: string -> real, chain: Expr)
    requires PowAgrees(i.pow, m) && FoldsExact(py, i.pow, chain) && Translate(py, Unary(Not, chain)).Some?
    requires chain.Compare? && Eval(Lenient(i.(vars := vars)), chain).Some?
    ensures AsTruth(Translate(py, Unary(Not, chain)).value.ValueIn(vars, m))
       <==> Eval(Lenient(i.(vars := vars)), chain) != Some(Truth(true))
  {
    var j := i.(vars := vars);
    TranslationMeaning(py, j, m, chain);
    assert Translate(py, chain).value.Sort() == BoolSort;
    SortIsSort(Translate(py, chain).value, vars, m);
  }

  /** The constraint of a negated chain contradicts itself exactly when its listed links always hold. */
  lemma NegatedChainRefutedIff(py: Python, i: Interp, m: Model, chain: Expr)
    requires PowAgrees(i.pow, m) && FoldsExact(py, i.pow, chain) && chain.Compare? && ListedDefined(i, chain)
    requires Translate(py, Unary(Not, chain)).Some?
    ensures ListedAlwaysHold(i, chain)
       <==> forall vars: string -> real :: !AsTruth(Translate(py, Unary(Not, chain)).value.ValueIn(vars, m))
  {
    forall vars: string -> real
      ensures AsTruth(Translate(py, Unary(Not, chain)).value.ValueIn(vars, m))
         <==> Eval(Lenient(i.(vars := vars)), chain) != Some(Truth(true))
    {
      NegatedChainTerm(py, i, m, vars, chain);
    }
  }

  lemma {:induction false} ConstraintIn(py: Python, hyps: seq<Hypothesis>, k: nat)
    requires k < |hyps| && Constraint(py, hyps[k]).Some?
    ensures Constraint(py, hyps[k]).value in Accepted(py, hyps)
  {
    if k < |hyps| - 1 {
      ConstraintIn(py, hyps[..|hyps| - 1], k);
    }
  }

  /** A negated chain whose listed links always hold and one of whose dropped links does not: it holds,
      and whatever the other hypotheses are, no model satisfies the constraints. */
  lemma NegatedChainUnsatisfiable(py: Python, i: Interp, m: Model, first: Expr, ops: seq<CmpOp>, rights: seq<Expr>,
                                  hyps: seq<Hypothesis>, k: nat)
    requires PowAgrees(i.pow, m) && FoldsExact(py, i.pow, Compare(first, ops, rights))
    requires SixOps(first) && forall r :: r in rights ==> SixOps(r)
    requires k < |hyps| && hyps[k] == Some(Unary(Not, Compare(first, ops, rights)))
    requires Translate(py, hyps[k].value).Some? && ListedAlwaysHold(i, Compare(first, ops, rights))
    requires Eval(i, first).Some? && !DroppedHold(i, Eval(i, first).value, ops, rights)
    ensures Holds(i, hyps[k])
    ensures !Satisfiable(m, Accepted(py, hyps))
  {
    var chain := Compare(first, ops, rights);
    var c := Translate(py, Unary(Not, chain)).value;
    assert Eval(Lenient(i.(vars := i.vars)), chain) == Some(Truth(true));
    assert i.(vars := i.vars) == i;
    NegatedChainFailsIff(py, i, m, first, ops, rights);
    NegatedChainRefutedIff(py, i, m, chain);
    assert Constraint(py, hyps[k]) == Some(c);
    ConstraintIn(py, hyps, k);
  }

  /** The false alarm: among at least two constraints, and with a solver that recognises contradictions, such a
      chain has the declaration reported, whatever else it assumes. */
  lemma NegatedChainFalseAlarm(py: Python, unsat: seq<Operand> -> bool, zpow: (real, real) -> real, i: Interp,
                               first: Expr, ops: seq<CmpOp>, rights: seq<Expr>, parse: string -> Hypothesis,
                               types: seq<string>, k: nat)
    requires CompleteSolver(unsat, zpow) && forall a, b :: i.pow(a, b).Some? ==> zpow(a, b) == i.pow(a, b).value
    requires FoldsExact(py, i.pow, Compare(first, ops, rights))
    requires SixOps(first) && forall r :: r in rights ==> SixOps(r)
    requires k < |Hypotheses(parse, types)|
    requires Hypotheses(parse, types)[k] == Some(Unary(Not, Compare(first, ops, rights)))
    requires Translate(py, Hypotheses(parse, types)[k].value).Some?
    requires ListedAlwaysHold(i, Compare(first, ops, rights))
    requires Eval(i, first).Some? && !DroppedHold(i, Eval(i, first).value, ops, rights)
    ensures Holds(i, Hypotheses(parse, types)[k])
    ensures Reported(py, parse, types, unsat) <==> |Accepted(py, Hypotheses(parse, types))| >= 2
  {
    var hyps := Hypotheses(parse, types);
    forall div: real -> real
      ensures !Satisfiable(Model(div, zpow), Accepted(py, hyps))
    {
      NegatedChainUnsatisfiable(py, i, Model(div, zpow), first, ops, rights, hyps, k);
    }
    NegatedChainUnsatisfiable(py, i, Model(x => x, zpow), first, ops, rights, hyps, k);
  }

  // ----- A false alarm on two binder types

  const NOT_IS := "not (x is y = y)"
  const SAME := "x = x"

  const X := Name("x")
  const Y := Name("y")
  const NOT_IS_TREE := Unary(Not, Compare(X, [Unlisted, Eq], [Y, Y]))
  const SAME_TREE := Compare(X, [Eq], [X])

  lemma NamedXY()
    ensures Named("x").None? && Named("y").None?
  {
    assert |"x"| == 1 && |"y"| == 1 && |"True"| == 4 && |"True_"| == 5 && |"False"| == 5 && |"False_"| == 6;
  }

  lemma SelfEqual(py: Python, id: string)
    requires Named(id).None?
    ensures
      var x, eq := Symbolic(RealVar(id)), Symbolic(Rel(Eq, RealVar(id), RealVar(id)));
      TranslateLinks(py, x, [Eq], [Name(id)]) == Some([eq])
  {
    var x, eq := Symbolic(RealVar(id)), Symbolic(Rel(Eq, RealVar(id), RealVar(id)));
    OneLink(py, x, Eq, Name(id), x, eq);
  }

  lemma NotIsTranslates(py: Python)
    ensures Translate(py, NOT_IS_TREE) == Some(Symbolic(NotT(Rel(Eq, RealVar("y"), RealVar("y")))))
    ensures Translate(py, SAME_TREE) == Some(Symbolic(Rel(Eq, RealVar("x"), RealVar("x"))))
  {
    NamedXY();
    SelfEqual(py, "x");
    SelfEqual(py, "y");
    var x, y := Symbolic(RealVar("x")), Symbolic(RealVar("y"));
    assert [Unlisted, Eq][1..] == [Eq] && [Y, Y][1..] == [Y];
    assert TranslateLinks(py, x, [Unlisted, Eq], [Y, Y]) == TranslateLinks(py, y, [Eq], [Y]);
  }

  lemma NotIsHolds(i: Interp)
    requires !i.unlisted(Num(i.vars("x")), Num(i.vars("y")))
    ensures Eval(i, NOT_IS_TREE) == Eval(i, SAME_TREE) == Some(Truth(true))
  {
    NamedXY();
    var x := Num(i.vars("x"));
    assert Eval(i, X) == Some(x) && Eval(i, Y) == Some(Num(i.vars("y")));
    assert EvalChain(i, x, [Unlisted, Eq], [Y, Y]) == Some(Truth(false));
    assert EvalChain(i, x, [Eq][1..], [X][1..]) == Some(Truth(true));
  }

  lemma BothTaken(parse: string -> Hypothesis, a: string, b: string)
    requires HasComparison(a) && HasComparison(b)
    ensures Hypotheses(parse, [a, b]) == [parse(a), parse(b)]
  {
    assert [a, b][..1] == [a] && [a][..0] == [];
    assert Hypotheses(parse, [a]) == [parse(a)];
  }

  lemma AcceptedTwo(py: Python, g: Hypothesis, h: Hypothesis)
    requires Constraint(py, g).Some? && Constraint(py, h).Some?
    ensures Accepted(py, [g, h]) == [Constraint(py, g).value, Constraint(py, h).value]
  {
    assert [g, h][..1] == [g] && [g][..0] == [];
    assert Accepted(py, [g]) == [Constraint(py, g).value];
  }

  lemma NotIsConstraints(py: Python, parse: string -> Hypothesis)
    requires parse(NOT_IS) == Some(NOT_IS_TREE) && parse(SAME) == Some(SAME_TREE)
    ensures Hypotheses(parse, [NOT_IS, SAME]) == [Some(NOT_IS_TREE), Some(SAME_TREE)]
    ensures Accepted(py, Hypotheses(parse, [NOT_IS, SAME]))
         == [Symbolic(NotT(Rel(Eq, RealVar("y"), RealVar("y")))), Symbolic(Rel(Eq, RealVar("x"), RealVar("x")))]
  {
    assert NOT_IS[12] == '=' && SAME[2] == '=';
    BothTaken(parse, NOT_IS, SAME);
    NotIsTranslates(py);
    AcceptedTwo(py, Some(NOT_IS_TREE), Some(SAME_TREE));
  }

  lemma EqTerm(vars: string -> real, m: Model, l: Term, r: Term)
    ensures TermValue(vars, m, Rel(Eq, l, r))
         == Truth(TermValue(vars, m, l).AsNumber() == TermValue(vars, m, r).AsNumber())
  {
  }

  lemma SatisfiesTwo(vars: string -> real, m: Model, a: Operand, b: Operand)
    ensures Satisfies(vars, m, [a, b]) <==> AsTruth(a.ValueIn(vars, m)) && AsTruth(b.ValueIn(vars, m))
  {
    assert [a, b][0] == a && [a, b][1] == b;
  }

  lemma NotEqualToItself(m: Model, t: Term, other: Operand)
    ensures !Satisfiable(m, [Symbolic(NotT(Rel(Eq, t, t))), other])
  {
    var c := Symbolic(NotT(Rel(Eq, t, t)));
    forall vars
      ensures !Satisfies(vars, m, [c, other])
    {
      EqTerm(vars, m, t, t);
      SatisfiesTwo(vars, m, c, other);
    }
  }

  /** Two binder types that pass the loop's filter and hold as soon as `is` fails, and whose constraints
      have no model at all, so that every complete solver reports them. */
  lemma UnlistedOperatorFalseAlarm(py: Python, i: Interp, parse: string -> Hypothesis)
    requires parse(NOT_IS) == Some(NOT_IS_TREE) && parse(SAME) == Some(SAME_TREE)
    requires !i.unlisted(Num(i.vars("x")), Num(i.vars("y")))
    ensures
      var hyps := Hypotheses(parse, [NOT_IS, SAME]);
      && |hyps| == 2 && (forall h: Hypothesis :: h in hyps ==> Holds(i, h))
      && |Accepted(py, hyps)| == 2
      && forall m :: !Satisfiable(m, Accepted(py, hyps))
  {
    NotIsConstraints(py, parse);
    NotIsHolds(i);
    forall m
      ensures !Satisfiable(m, Accepted(py, Hypotheses(parse, [NOT_IS, SAME])))
    {
      NotEqualToItself(m, RealVar("y"), Symbolic(Rel(Eq, RealVar("x"), RealVar("x"))));
    }
  }

  // ----- A false alarm from a rounded constant

  const THRICE := "3 * x = 1"
  const THIRD := "x = 1 / 3"

  const ONE := Const(IntLit(1))
  const THREE := Const(IntLit(3))
  const THRICE_TREE := Compare(Binary(Mult, THREE, X), [Eq], [ONE])
  const THIRD_TREE := Compare(X, [Eq], [Binary(Div, ONE, THREE)])

  lemma ThriceTranslates(py: Python)
    ensures Translate(py, THRICE_TREE)
         == Some(Symbolic(Rel(Eq, Arith(Mult, Lit(Num(3.0)), RealVar("x")), Lit(Num(1.0)))))
  {
    NamedXY();
    var product := Symbolic(Arith(Mult, Lit(Num(3.0)), RealVar("x")));
    assert Translate(py, Binary(Mult, THREE, X)) == Some(product);
    OneLink(py, product, Eq, ONE, PlainNum(PyInt(1)), Symbolic(Rel(Eq, product.t, Lit(Num(1.0)))));
  }

  lemma ThriceHolds(i: Interp)
    requires i.vars("x") == 1.0 / 3.0
    ensures Eval(i, THRICE_TREE) == Some(Truth(true))
  {
    NamedXY();
    assert Eval(i, Binary(Mult, THREE, X)) == Some(Num(1.0));
    assert EvalChain(i, Num(1.0), [Eq][1..], [ONE][1..]) == Some(Truth(true));
    assert EvalChain(i, Num(1.0), [Eq], [ONE]) == Some(Truth(true));
  }

  /** Of two constraints 3x = 1 and x = q the solver can satisfy both only if q is a third. */
  lemma ThriceAndThird(vars: string -> real, m: Model, q: real)
    ensures
      var thrice := Symbolic(Rel(Eq, Arith(Mult, Lit(Num(3.0)), RealVar("x")), Lit(Num(1.0))));
      var third := Symbolic(Rel(Eq, RealVar("x"), Lit(Num(q))));
      Satisfies(vars, m, [thrice, third]) <==> (vars("x") == 1.0 / 3.0 && q == 1.0 / 3.0)
  {
    var thrice := Symbolic(Rel(Eq, Arith(Mult, Lit(Num(3.0)), RealVar("x")), Lit(Num(1.0))));
    var third := Symbolic(Rel(Eq, RealVar("x"), Lit(Num(q))));
    EqTerm(vars, m, Arith(Mult, Lit(Num(3.0)), RealVar("x")), Lit(Num(1.0)));
    EqTerm(vars, m, RealVar("x"), Lit(Num(q)));
    var product := Arith(Mult, Lit(Num(3.0)), RealVar("x"));
    assert TermValue(vars, m, RealVar("x")) == Num(vars("x"));
    assert TermValue(vars, m, Lit(Num(3.0))) == Num(3.0) && TermValue(vars, m, Lit(Num(1.0))) == Num(1.0);
    assert TermValue(vars, m, product) == Num(TermArith(m, Mult, 3.0, vars("x")));
    SatisfiesTwo(vars, m, thrice, third);
  }

  lemma ThirdConstraints(py: Python, i: Interp, parse: string -> Hypothesis, q: PyNum)
    requires parse(THRICE) == Some(THRICE_TREE) && parse(THIRD) == Some(THIRD_TREE)
    requires py.arith(Div, PyInt(1), PyInt(3)) == Some(q)
    ensures
      var thrice := Symbolic(Rel(Eq, Arith(Mult, Lit(Num(3.0)), RealVar("x")), Lit(Num(1.0))));
      var third := Symbolic(Rel(Eq, RealVar("x"), Lit(Num(q.Real()))));
      && Hypotheses(parse, [THRICE, THIRD]) == [Some(THRICE_TREE), Some(THIRD_TREE)]
      && Accepted(py, Hypotheses(parse, [THRICE, THIRD])) == [thrice, third]
  {
    assert THRICE[6] == '=' && THIRD[2] == '=';
    BothTaken(parse, THRICE, THIRD);
    NamedXY();
    ThriceTranslates(py);
    assert FoldValue(py, Binary(Div, ONE, THREE)) == Some(q);
    ConstantTranslated(py, "x", Eq, Binary(Div, ONE, THREE));
    AcceptedTwo(py, Some(THRICE_TREE), Some(THIRD_TREE));
  }

  /** Two binder types without any unlisted operator that hold together at one third. Python folds the constant,
      and their constraints have a model exactly when the fold is exact. */
  lemma RoundedConstantFalseAlarm(py: Python, i: Interp, parse: string -> Hypothesis, q: PyNum)
    requires parse(THRICE) == Some(THRICE_TREE) && parse(THIRD) == Some(THIRD_TREE)
    requires py.arith(Div, PyInt(1), PyInt(3)) == Some(q) && i.vars("x") == 1.0 / 3.0
    ensures
      var hyps := Hypotheses(parse, [THRICE, THIRD]);
      && (forall h: Hypothesis :: h in hyps ==> h.Some? && SixOps(h.value) && Holds(i, h))
      && |Accepted(py, hyps)| == 2
      && forall m :: Satisfiable(m, Accepted(py, hyps)) <==> q.Real() == 1.0 / 3.0
  {
    NamedXY();
    ThirdConstraints(py, i, parse, q);
    ThriceHolds(i);
    ConstantEvaluated(i, "x", Eq, Binary(Div, ONE, THREE));
    var hyps := Hypotheses(parse, [THRICE, THIRD]);
    forall m
      ensures Satisfiable(m, Accepted(py, hyps)) <==> q.Real() == 1.0 / 3.0
    {
      forall vars
        ensures Satisfies(vars, m, Accepted(py, hyps)) <==> (vars("x") == 1.0 / 3.0 && q.Real() == 1.0 / 3.0)
      {
        ThriceAndThird(vars, m, q.Real());
      }
      if q.Real() == 1.0 / 3.0 {
        assert Satisfies(i.vars, m, Accepted(py, hyps));
      }
    }
  }

  /** Python's own third is not a third, so the two types are reported. */
  lemma PythonThirdIsReported(py: Python, unsat: seq<Operand> -> bool, zpow: (real, real) -> real,
                              i: Interp, parse: string -> Hypothesis)
    requires parse(THRICE) == Some(THRICE_TREE) && parse(THIRD) == Some(THIRD_TREE)
    requires py.arith(Div, PyInt(1), PyInt(3)) == Some(PyFloat(0.3333333333333333))
    requires CompleteSolver(unsat, zpow) && i.vars("x") == 1.0 / 3.0
    ensures Reported(py, parse, [THRICE, THIRD], unsat)
    ensures forall h: Hypothesis :: h in Hypotheses(parse, [THRICE, THIRD]) ==> Holds(i, h)
  {
    RoundedConstantFalseAlarm(py, i, parse, PyFloat(0.3333333333333333));
    assert forall div :: !Satisfiable(Model(div, zpow), Accepted(py, Hypotheses(parse, [THRICE, THIRD])));
  }
}
