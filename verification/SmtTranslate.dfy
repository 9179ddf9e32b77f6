/** The translator from Python expression trees to solver terms in
    src/mvpc/backends/lean.py (and its copy in src/mvpc/backends/python.py). What an
    expression means is a matter of exact reals; what Python itself computes on plain
    numbers is a parameter, and so is power. */
module SmtTranslate {
  import opened Wrappers

  datatype Sort = RealSort | BoolSort

  datatype Value = Num(n: real) | Truth(b: bool) {
    function Sort(): Sort {
      if Num? then RealSort else BoolSort
    }
    /** Compared with a number, true is 1 and false is 0. */
    function AsNumber(): real {
      if Num? then n else if b then 1.0 else 0.0
    }
  }

  // ----- Source

  datatype Junctor = AndOp | OrOp

  datatype UnaryOp = USub | UAdd | Not

  datatype ArithOp = Add | Sub | Mult | Div | Pow

  /** `Unlisted` stands for `is`, `is not`, `in` and `not in`. */
  datatype CmpOp = Eq | NotEq | Lt | LtE | Gt | GtE | Unlisted

  /** A literal as it is written: its digits denote an exact number. */
  datatype Literal = IntLit(n: int) | FloatLit(written: real) | BoolLit(b: bool) {
    function Meaning(): Value {
      match this
      case IntLit(n) => Num(n as real)
      case FloatLit(written) => Num(written)
      case BoolLit(b) => Truth(b)
    }
  }

  /** `Opaque` is any construct the translator has no case for; its meaning is left open. */
  datatype Expr =
    | Const(lit: Literal)
    | Name(id: string)
    | Unary(uop: UnaryOp, operand: Expr)
    | Binary(bop: ArithOp, left: Expr, right: Expr)
    | BoolOp(jop: Junctor, values: seq<Expr>)
    | Compare(first: Expr, ops: seq<CmpOp>, comparators: seq<Expr>)
    | Opaque(text: string, sort: Sort)

  /** What an expression is evaluated in: the variables, the partial power function, the unlisted
      comparisons and the constructs the translator does not know. */
  datatype Interp = Interp(
    vars: string -> real,
    pow: (real, real) -> Option<real>,
    unlisted: (Value, Value) -> bool,
    opaque_: string -> Option<Value>)

  function Named(id: string): Option<bool> {
    if id in {"True", "True_"} then Some(true) else if id in {"False", "False_"} then Some(false) else None
  }

  function ArithValue(pow: (real, real) -> Option<real>, op: ArithOp, a: real, b: real): Option<real> {
    match op
    case Add => Some(a + b)
    case Sub => Some(a - b)
    case Mult => Some(a * b)
    case Div => if b == 0.0 then None else Some(a / b)
    case Pow => pow(a, b)
  }

  function CompareReals(op: CmpOp, a: real, b: real): bool
    requires op != Unlisted
  {
    match op
    case Eq => a == b
    case NotEq => a != b
    case Lt => a < b
    case LtE => a <= b
    case Gt => a > b
    case GtE => a >= b
  }

  function CompareValues(op: CmpOp, a: Value, b: Value): bool
    requires op != Unlisted
  {
    CompareReals(op, a.AsNumber(), b.AsNumber())
  }

  /** The value of an expression, junctions and chains cut short as in Python; `None` where it is
      undefined (division by zero, undefined power, arithmetic on truth values, junctions of numbers). */
  function Eval(i: Interp, e: Expr): Option<Value>
    decreases e, 0
  {
    match e
    case Const(lit) => Some(lit.Meaning())
    case Name(id) => (match Named(id) case Some(b) => Some(Truth(b)) case None => Some(Num(i.vars(id))))
    case Unary(op, a) =>
      var v := Eval(i, a);
      if v.None? then None
      else if op == Not then (if v.value.Truth? then Some(Truth(!v.value.b)) else None)
      else if v.value.Num? then Some(Num(if op == USub then -v.value.n else v.value.n))
      else None
    case Binary(op, l, r) =>
      var a, b := Eval(i, l), Eval(i, r);
      if a.None? || b.None? || !a.value.Num? || !b.value.Num? then None
      else (match ArithValue(i.pow, op, a.value.n, b.value.n) case Some(x) => Some(Num(x)) case None => None)
    case BoolOp(op, vs) => EvalJunction(i, op, vs)
    case Compare(first, ops, rights) =>
      var a := Eval(i, first);
      if a.None? then None else EvalChain(i, a.value, ops, rights)
    case Opaque(text, s) =>
      var v := i.opaque_(text);
      if v.Some? && v.value.Sort() == s then v else None
  }

  function EvalJunction(i: Interp, op: Junctor, vs: seq<Expr>): Option<Value>
    decreases vs, 1
  {
    if vs == [] then Some(Truth(op == AndOp))
    else
      var v := Eval(i, vs[0]);
      if v.None? || v.value.Num? then None
      else if v.value.b != (op == AndOp) then v
      else EvalJunction(i, op, vs[1..])
  }

  function LinkHolds(i: Interp, op: CmpOp, a: Value, b: Value): bool {
    if op == Unlisted then i.unlisted(a, b) else CompareValues(op, a, b)
  }

  function EvalChain(i: Interp, curr: Value, ops: seq<CmpOp>, rights: seq<Expr>): Option<Value>
    decreases rights, 1
  {
    if ops == [] || rights == [] then Some(Truth(true))
    else
      var r := Eval(i, rights[0]);
      if r.None? then None
      else if !LinkHolds(i, ops[0], curr, r.value) then Some(Truth(false))
      else EvalChain(i, r.value, ops[1..], rights[1..])
  }

  // ----- Python's own numbers

  /** A plain number while the tree is walked. A float is given by the decimal Python writes for it, which
      is what the solver reads when the float becomes part of a term. */
  datatype PyNum = PyInt(n: int) | PyFloat(decimal: real) {
    function Real(): real {
      if PyInt? then n as real else decimal
    }
  }

  /** How Python reads a float literal, computes and compares; `None` where it raises or the result is not a
      finite real number. Nothing is assumed of it: it may round. */
  datatype Python = Python(
    read: real -> Option<real>,
    arith: (ArithOp, PyNum, PyNum) -> Option<PyNum>,
    compare: (CmpOp, PyNum, PyNum) -> bool)

  // ----- Target

  /** `Indicator` is the solver's coercion of a truth value: 1 if it holds and 0 if not. */
  datatype Term =
    | RealVar(name: string)
    | Lit(v: Value)
    | Neg(t: Term)
    | Arith(aop: ArithOp, l: Term, r: Term)
    | Indicator(t: Term)
    | NotT(t: Term)
    | Rel(rop: CmpOp, l: Term, r: Term)
    | Junction(jop: Junctor, ts: seq<Term>)

  /** The solver's own choices: what x/0 is, and a total power function. */
  datatype Model = Model(divZero: real -> real, pow: (real, real) -> real)

  function AsNum(v: Value): real {
    if v.Num? then v.n else 0.0
  }

  function AsTruth(v: Value): bool {
    v.Truth? && v.b
  }

  function TermArith(m: Model, op: ArithOp, a: real, b: real): real {
    match op
    case Add => a + b
    case Sub => a - b
    case Mult => a * b
    case Div => if b == 0.0 then m.divZero(a) else a / b
    case Pow => m.pow(a, b)
  }

  function TermValue(vars: string -> real, m: Model, t: Term): Value {
    match t
    case RealVar(name) => Num(vars(name))
    case Lit(v) => v
    case Neg(a) => Num(-AsNum(TermValue(vars, m, a)))
    case Arith(op, l, r) => Num(TermArith(m, op, AsNum(TermValue(vars, m, l)), AsNum(TermValue(vars, m, r))))
    case Indicator(a) => Num(if AsTruth(TermValue(vars, m, a)) then 1.0 else 0.0)
    case NotT(a) => Truth(!AsTruth(TermValue(vars, m, a)))
    case Rel(op, l, r) =>
      Truth(op != Unlisted && CompareValues(op, TermValue(vars, m, l), TermValue(vars, m, r)))
    case Junction(op, ts) =>
      Truth(if op == AndOp then forall k | 0 <= k < |ts| :: AsTruth(TermValue(vars, m, ts[k]))
            else exists k | 0 <= k < |ts| :: AsTruth(TermValue(vars, m, ts[k])))
  }

  // ----- Translation

  /** A translated operand: a plain Python number or truth value, or a solver term. */
  datatype Operand = PlainNum(p: PyNum) | PlainBool(b: bool) | Symbolic(t: Term) {
    function AsTerm(): Term {
      match this
      case PlainNum(p) => Lit(Num(p.Real()))
      case PlainBool(b) => Lit(Truth(b))
      case Symbolic(t) => t
    }
    function Sort(): Sort {
      match this
      case PlainNum(_) => RealSort
      case PlainBool(_) => BoolSort
      case Symbolic(t) => TermSort(t)
    }
    /** A plain value as Python compares it. */
    function AsPyNum(): PyNum
      requires !Symbolic?
    {
      if PlainNum? then p else PyInt(if b then 1 else 0)
    }
    function ValueIn(vars: string -> real, m: Model): Value {
      TermValue(vars, m, AsTerm())
    }
  }

  function TermSort(t: Term): Sort {
    match t
    case RealVar(_) => RealSort
    case Lit(v) => v.Sort()
    case Neg(_) => RealSort
    case Arith(_, _, _) => RealSort
    case Indicator(_) => RealSort
    case NotT(_) => BoolSort
    case Rel(_, _, _) => BoolSort
    case Junction(_, _) => BoolSort
  }

  function Negated(p: PyNum): PyNum {
    match p
    case PyInt(n) => PyInt(-n)
    case PyFloat(decimal) => PyFloat(-decimal)
  }

  function ApplyUnary(op: UnaryOp, a: Operand): Option<Operand> {
    match op
    case USub =>
      if a.Sort() != RealSort then None
      else if a.PlainNum? then Some(PlainNum(Negated(a.p))) else Some(Symbolic(Neg(a.AsTerm())))
    case UAdd => Some(a)
    case Not => if a.Sort() != BoolSort then None else Some(Symbolic(NotT(a.AsTerm())))
  }

  /** Two plain numbers are computed by Python; otherwise a term is built. */
  function ApplyArith(py: Python, op: ArithOp, l: Operand, r: Operand): Option<Operand> {
    if l.Sort() != RealSort || r.Sort() != RealSort then None
    else if l.PlainNum? && r.PlainNum? then
      (match py.arith(op, l.p, r.p) case Some(x) => Some(PlainNum(x)) case None => None)
    else Some(Symbolic(Arith(op, l.AsTerm(), r.AsTerm())))
  }

  function Mirror(op: CmpOp): CmpOp {
    match op
    case Lt => Gt
    case LtE => GtE
    case Gt => Lt
    case GtE => LtE
    case _ => op
  }

  /** Plain values always compare, numbers compare with numbers, truth values are equal or not, and a term of
      one sort compares with a term of the other. */
  predicate Comparable(op: CmpOp, l: Operand, r: Operand) {
    if !l.Symbolic? && !r.Symbolic? then true
    else if l.Sort() == r.Sort() then l.Sort() == RealSort || op in {Eq, NotEq}
    else l.Symbolic? && r.Symbolic?
  }

  function Coerced(t: Term): Term {
    if TermSort(t) == BoolSort then Indicator(t) else t
  }

  /** Two plain values are compared by Python. A plain value or a truth value before a term makes Python
      call the term's mirrored operator. */
  function ApplyCompare(py: Python, op: CmpOp, l: Operand, r: Operand): Option<Operand>
    requires op != Unlisted
  {
    if !Comparable(op, l, r) then None
    else if !l.Symbolic? && !r.Symbolic? then Some(PlainBool(py.compare(op, l.AsPyNum(), r.AsPyNum())))
    else if l.Sort() != r.Sort() then
      if l.Sort() == BoolSort then Some(Symbolic(Rel(Mirror(op), r.t, Coerced(l.t))))
      else Some(Symbolic(Rel(op, l.t, Coerced(r.t))))
    else if !l.Symbolic? then Some(Symbolic(Rel(Mirror(op), r.t, l.AsTerm())))
    else Some(Symbolic(Rel(op, l.t, r.AsTerm())))
  }

  function Terms(os: seq<Operand>): (ts: seq<Term>)
    ensures |ts| == |os|
    ensures forall k :: 0 <= k < |os| ==> ts[k] == os[k].AsTerm()
  {
    seq(|os|, k requires 0 <= k < |os| => os[k].AsTerm())
  }

  function Join(op: Junctor, os: seq<Operand>): Option<Operand> {
    if forall k | 0 <= k < |os| :: os[k].Sort() == BoolSort then Some(Symbolic(Junction(op, Terms(os)))) else None
  }

  function ReadLiteral(py: Python, lit: Literal): Option<Operand> {
    match lit
    case IntLit(n) => Some(PlainNum(PyInt(n)))
    case BoolLit(b) => Some(PlainBool(b))
    case FloatLit(written) =>
      var d := py.read(written);
      if d.None? then None else Some(PlainNum(PyFloat(d.value)))
  }

  /** The translation of an expression; `None` where it raises. */
  function Translate(py: Python, e: Expr): Option<Operand>
    decreases e, 0
  {
    match e
    case Const(lit) => ReadLiteral(py, lit)
    case Name(id) => (match Named(id) case Some(b) => Some(PlainBool(b)) case None => Some(Symbolic(RealVar(id))))
    case Unary(op, a) =>
      var x := Translate(py, a);
      if x.None? then None else ApplyUnary(op, x.value)
    case Binary(op, l, r) =>
      var x, y := Translate(py, l), Translate(py, r);
      if x.None? || y.None? then None else ApplyArith(py, op, x.value, y.value)
    case BoolOp(op, vs) =>
      var xs := TranslateAll(py, vs);
      if xs.None? then None else Join(op, xs.value)
    case Compare(first, ops, rights) =>
      var x := Translate(py, first);
      if x.None? then None
      else
        var rs := TranslateLinks(py, x.value, ops, rights);
        if rs.None? then None
        else if |rs.value| == 1 then Some(rs.value[0])
        else Join(AndOp, rs.value)
    case Opaque(_, _) => None
  }

  function TranslateAll(py: Python, vs: seq<Expr>): (r: Option<seq<Operand>>)
    ensures r.Some? ==> |r.value| == |vs|
    decreases vs, 1
  {
    if vs == [] then Some([])
    else
      var x, xs := Translate(py, vs[0]), TranslateAll(py, vs[1..]);
      if x.None? || xs.None? then None else Some([x.value] + xs.value)
  }

  /** The comparisons of a chain in order; an unlisted operator contributes none. */
  function TranslateLinks(py: Python, curr: Operand, ops: seq<CmpOp>, rights: seq<Expr>): Option<seq<Operand>>
    decreases rights, 1
  {
    if ops == [] || rights == [] then Some([])
    else
      var y := Translate(py, rights[0]);
      if y.None? then None
      else
        var rest := TranslateLinks(py, y.value, ops[1..], rights[1..]);
        if ops[0] == Unlisted then rest
        else
          var c := ApplyCompare(py, ops[0], curr, y.value);
          if c.None? || rest.None? then None else Some([c.value] + rest.value)
  }
}
