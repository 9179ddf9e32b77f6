/** Which binder types the vacuity check of src/mvpc/backends/lean.py counts, and exactly when it reports. */
module VacuityConverse {
  import opened Wrappers
  import opened SmtTranslate
  import opened SmtMeaning
  import opened SmtUnlisted
  import opened VacuityCheck

  /** The text holds one of > < = ≠ ≤ ≥. */
  predicate Compares(text: string) {
    || '>' in text || '<' in text || '=' in text
    || '\U{2260}' in text || '\U{2264}' in text || '\U{2265}' in text
  }

  /** The type is looked at, parses, and translates to a truth value. */
  predicate Counts(py: Python, parse: string -> Hypothesis, text: string) {
    && Compares(text)
    && parse(text).Some?
    && Translate(py, parse(text).value).Some?
    && Translate(py, parse(text).value).value.Sort() == BoolSort
  }

  lemma FilterIsCompares(text: string)
    ensures HasComparison(text) <==> Compares(text)
  {
    if Compares(text) {
      var k :| 0 <= k < |text| && text[k] in COMPARISONS;
    }
  }

  /** The positions of the types that count. */
  function Counting(py: Python, parse: string -> Hypothesis, types: seq<string>): (r: set<int>)
    ensures forall k :: k in r <==> 0 <= k < |types| && Counts(py, parse, types[k])
  {
    set k | 0 <= k < |types| && Counts(py, parse, types[k])
  }

  lemma LastType(py: Python, parse: string -> Hypothesis, init: seq<string>, last: string)
    ensures Accepted(py, Hypotheses(parse, init + [last]))
         == Accepted(py, Hypotheses(parse, init))
            + if Counts(py, parse, last) then [Translate(py, parse(last).value).value] else []
  {
    var types := init + [last];
    assert types[..|types| - 1] == init;
    FilterIsCompares(last);
    if HasComparison(last) {
      var hyps := Hypotheses(parse, types);
      assert hyps[..|hyps| - 1] == Hypotheses(parse, init) && hyps[|hyps| - 1] == parse(last);
    }
  }

  lemma CountingStep(py: Python, parse: string -> Hypothesis, init: seq<string>, last: string)
    ensures |Counting(py, parse, init + [last])|
         == |Counting(py, parse, init)| + if Counts(py, parse, last) then 1 else 0
  {
    var types, n := init + [last], |init|;
    var before, all := Counting(py, parse, init), Counting(py, parse, types);
    forall k
      ensures k in all <==> k in before || (k == n && Counts(py, parse, last))
    {
      if 0 <= k < n {
        assert types[k] == init[k];
      }
    }
    assert all == if Counts(py, parse, last) then before + {n} else before;
  }

  lemma {:induction false} ConstraintCount(py: Python, parse: string -> Hypothesis, types: seq<string>)
    ensures |Accepted(py, Hypotheses(parse, types))| == |Counting(py, parse, types)|
    decreases |types|
  {
    if types != [] {
      var init, last := types[..|types| - 1], types[|types| - 1];
      assert types == init + [last];
      ConstraintCount(py, parse, init);
      LastType(py, parse, init, last);
      CountingStep(py, parse, init, last);
    }
  }

  /** The term of some type that counts. */
  ghost predicate TermOfSome(py: Python, parse: string -> Hypothesis, types: seq<string>, c: Operand) {
    exists text :: text in types && Counts(py, parse, text) && c == Translate(py, parse(text).value).value
  }

  lemma TermOfLast(py: Python, parse: string -> Hypothesis, init: seq<string>, last: string, c: Operand)
    ensures TermOfSome(py, parse, init + [last], c)
       <==> || TermOfSome(py, parse, init, c)
            || (Counts(py, parse, last) && c == Translate(py, parse(last).value).value)
  {
    assert forall text :: text in init + [last] <==> text in init || text == last;
  }

  lemma {:induction false} ConstraintMembers(py: Python, parse: string -> Hypothesis, types: seq<string>, c: Operand)
    ensures c in Accepted(py, Hypotheses(parse, types)) <==> TermOfSome(py, parse, types, c)
    decreases |types|
  {
    if types != [] {
      var init, last := types[..|types| - 1], types[|types| - 1];
      assert types == init + [last];
      ConstraintMembers(py, parse, init, c);
      LastType(py, parse, init, last);
      TermOfLast(py, parse, init, last, c);
    }
  }

  /** The constraints given to the solver are the terms of the types that count, one each. */
  lemma ConstraintsOf(py: Python, parse: string -> Hypothesis, types: seq<string>)
    ensures |Accepted(py, Hypotheses(parse, types))| == |Counting(py, parse, types)|
    ensures forall c :: c in Accepted(py, Hypotheses(parse, types)) <==> TermOfSome(py, parse, types, c)
  {
    ConstraintCount(py, parse, types);
    forall c
      ensures c in Accepted(py, Hypotheses(parse, types)) <==> TermOfSome(py, parse, types, c)
    {
      ConstraintMembers(py, parse, types, c);
    }
  }

  /** A type that does not count changes nothing. */
  lemma IgnoredType(py: Python, parse: string -> Hypothesis, before: seq<string>, text: string, after: seq<string>,
                    unsat: seq<Operand> -> bool)
    requires !Counts(py, parse, text)
    ensures Accepted(py, Hypotheses(parse, before + [text] + after)) == Accepted(py, Hypotheses(parse, before + after))
    ensures Reported(py, parse, before + [text] + after, unsat) <==> Reported(py, parse, before + after, unsat)
  {
    IgnoredInside(py, parse, before, text, after);
  }

  lemma {:induction false} IgnoredInside(py: Python, parse: string -> Hypothesis, before: seq<string>, text: string,
                                         after: seq<string>)
    requires !Counts(py, parse, text)
    ensures Accepted(py, Hypotheses(parse, before + [text] + after)) == Accepted(py, Hypotheses(parse, before + after))
    decreases |after|
  {
    if after == [] {
      LastType(py, parse, before, text);
      assert before + [text] + [] == before + [text] && before + [] == before;
    } else {
      var init, last := after[..|after| - 1], after[|after| - 1];
      IgnoredInside(py, parse, before, text, init);
      LastType(py, parse, before + [text] + init, last);
      LastType(py, parse, before + init, last);
      assert before + [text] + after == before + [text] + init + [last];
      assert before + after == before + init + [last];
    }
  }

  // ----- Contradictions are reported

  /** On this hypothesis translator and mathematics agree: only the six operators, exact constants, and a value
      under every assignment. */
  ghost predicate Faithful(py: Python, i: Interp, e: Expr) {
    && SixOps(e) && FoldsExact(py, i.pow, e)
    && forall vars: string -> real :: Eval(i.(vars := vars), e).Some?
  }

  /** An assignment satisfies every type that counts. */
  ghost predicate SatisfiesTypes(py: Python, i: Interp, parse: string -> Hypothesis, types: seq<string>) {
    forall text :: text in types && Counts(py, parse, text) ==> Holds(i, parse(text))
  }

  lemma TermHoldsIff(py: Python, i: Interp, m: Model, e: Expr)
    requires PowAgrees(i.pow, m) && Faithful(py, i, e) && Translate(py, e).Some?
    ensures AsTruth(Translate(py, e).value.ValueIn(i.vars, m)) <==> Eval(i, e) == Some(Truth(true))
  {
    assert i.(vars := i.vars) == i;
    SixOpsMeaning(py, i, m, e);
  }

  /** The constraints hold under an assignment exactly when the types that count do. */
  lemma SatisfiedIff(py: Python, i: Interp, m: Model, parse: string -> Hypothesis, types: seq<string>)
    requires PowAgrees(i.pow, m)
    requires forall text :: text in types && Counts(py, parse, text) ==> Faithful(py, i, parse(text).value)
    ensures Satisfies(i.vars, m, Accepted(py, Hypotheses(parse, types))) <==> SatisfiesTypes(py, i, parse, types)
  {
    var cs := Accepted(py, Hypotheses(parse, types));
    ConstraintsOf(py, parse, types);
    forall text | text in types && Counts(py, parse, text)
      ensures Translate(py, parse(text).value).value in cs
      ensures AsTruth(Translate(py, parse(text).value).value.ValueIn(i.vars, m)) <==> Holds(i, parse(text))
    {
      TermHoldsIff(py, i, m, parse(text).value);
      assert TermOfSome(py, parse, types, Translate(py, parse(text).value).value);
    }
  }

  /** With a solver that is sound and complete, and hypotheses on which translator and mathematics agree, a
      declaration is reported exactly when at least two of its binder types count and no assignment satisfies all
      that do. */
  lemma ReportedIff(py: Python, i: Interp, parse: string -> Hypothesis, types: seq<string>,
                    unsat: seq<Operand> -> bool, zpow: (real, real) -> real)
    requires SoundSolver(unsat, zpow) && CompleteSolver(unsat, zpow)
    requires forall a, b :: i.pow(a, b).Some? ==> zpow(a, b) == i.pow(a, b).value
    requires forall text :: text in types && Counts(py, parse, text) ==> Faithful(py, i, parse(text).value)
    ensures Reported(py, parse, types, unsat)
       <==> && |Counting(py, parse, types)| >= 2
            && forall vars: string -> real :: !SatisfiesTypes(py, i.(vars := vars), parse, types)
  {
    ConstraintsOf(py, parse, types);
    forall vars: string -> real, div: real -> real
      ensures Satisfies(vars, Model(div, zpow), Accepted(py, Hypotheses(parse, types)))
         <==> SatisfiesTypes(py, i.(vars := vars), parse, types)
    {
      SatisfiedAnywhere(py, i, Model(div, zpow), parse, types, vars);
    }
    var holds := (vars: string -> real) => SatisfiesTypes(py, i.(vars := vars), parse, types);
    assert forall vars: string -> real :: holds(vars) == SatisfiesTypes(py, i.(vars := vars), parse, types);
    UnsatIff(unsat, zpow, Accepted(py, Hypotheses(parse, types)), holds);
  }

  /** A sound and complete solver refutes exactly what no assignment satisfies, whatever its model. */
  lemma UnsatIff(unsat: seq<Operand> -> bool, zpow: (real, real) -> real, cs: seq<Operand>,
                 holds: (string -> real) -> bool)
    requires SoundSolver(unsat, zpow) && CompleteSolver(unsat, zpow)
    requires forall vars: string -> real, div: real -> real :: Satisfies(vars, Model(div, zpow), cs) <==> holds(vars)
    ensures unsat(cs) <==> forall vars: string -> real :: !holds(vars)
  {
    if unsat(cs) {
      forall vars: string -> real
        ensures !holds(vars)
      {
        assert !Satisfies(vars, Model(x => x, zpow), cs);
      }
    }
    if forall vars: string -> real :: !holds(vars) {
      forall div: real -> real
        ensures !Satisfiable(Model(div, zpow), cs)
      {
        forall vars: string -> real
          ensures !Satisfies(vars, Model(div, zpow), cs)
        {
          assert !holds(vars);
        }
      }
    }
  }

  lemma SatisfiedAnywhere(py: Python, i: Interp, m: Model, parse: string -> Hypothesis, types: seq<string>,
                          vars: string -> real)
    requires PowAgrees(i.pow, m)
    requires forall text :: text in types && Counts(py, parse, text) ==> Faithful(py, i, parse(text).value)
    ensures Satisfies(vars, m, Accepted(py, Hypotheses(parse, types)))
       <==> SatisfiesTypes(py, i.(vars := vars), parse, types)
  {
    forall text | text in types && Counts(py, parse, text)
      ensures Faithful(py, i.(vars := vars), parse(text).value)
    {
      FaithfulAnywhere(py, i, parse(text).value, vars);
    }
    SatisfiedIff(py, i.(vars := vars), m, parse, types);
  }

  lemma FaithfulAnywhere(py: Python, i: Interp, e: Expr, vars: string -> real)
    requires Faithful(py, i, e)
    ensures Faithful(py, i.(vars := vars), e)
  {
    forall other: string -> real
      ensures Eval(i.(vars := vars).(vars := other), e).Some?
    {
      assert i.(vars := vars).(vars := other) == i.(vars := other);
    }
  }
}
