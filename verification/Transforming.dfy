/**
 Pushing negations to the symbols and removing comparisons of bools
 (`expr_transform` of `expr.c`).
 */
module Transforming {
  import opened Wrappers
  import opened Expressions
  import opened Joining
  import opened Numbers
  import T = Tristates

  function Dual(op: BinOp): BinOp {
    if op == AND then OR else AND
  }

  function Negated(rel: RelOp): RelOp {
    match rel
    case EQUAL => UNEQUAL
    case UNEQUAL => EQUAL
    case LEQ => GTH
    case GEQ => LTH
    case LTH => GEQ
    case GTH => LEQ
  }

  /** The termination measure: a negation weighs as much as the copies it is pushed into. */
  function Weight(e: Expr): (w: nat)
    ensures w >= 1
  {
    match e
    case Sym(_) => 1
    case Comp(_, _, _) => 2
    case Bin(_, l, r) => 1 + Weight(l) + Weight(r)
    case Not(a) => 2 * Weight(a)
  }

  /** A bool compared with `y`, `m` or `n`. */
  predicate BoolTest(e: Expr) {
    e.Comp? && (e.rel == EQUAL || e.rel == UNEQUAL) && e.lsym.Type() == Boolean && IsLetter(e.rsym)
  }

  function TransformTest(e: Expr): Expr
    requires BoolTest(e)
  {
    if e.rsym == ConstMod then Sym(if e.rel == EQUAL then ConstNo else ConstYes)
    else if (e.rsym == ConstYes) == (e.rel == EQUAL) then Sym(e.lsym)
    else Not(Sym(e.lsym))
  }

  /** De Morgan: the negation of an operation. */
  function PushNot(op: BinOp, l: Expr, r: Expr): (p: Expr)
    ensures Weight(p) == 1 + 2 * Weight(l) + 2 * Weight(r)
  {
    var nl, nr := Not(l), Not(r);
    assert Weight(nl) == 2 * Weight(l) && Weight(nr) == 2 * Weight(r);
    Bin(Dual(op), nl, nr)
  }

  /** `expr_transform`. */
  function Transform(e: Expr): (r: Expr)
    ensures Weight(r) <= Weight(e)
    decreases Weight(e)
  {
    match e
    case Sym(_) => e
    case Comp(_, _, _) => if BoolTest(e) then TransformTest(e) else e
    case Bin(op, l, r) => Bin(op, Transform(l), Transform(r))
    case Not(a) =>
      match Transform(a)
      case Not(b) => Transform(b)
      case Comp(rel, l, r) => Comp(Negated(rel), l, r)
      case Bin(op, l, r) => Transform(PushNot(op, l, r))
      case Sym(s) =>
        if s == ConstYes then Sym(ConstNo)
        else if s == ConstNo then Sym(ConstYes)
        else if s == ConstMod then Sym(ConstMod)
        else Not(Sym(s))
  }

  // ----- the normal form

  /** Negations stand only over symbols other than `y`, `m`, `n`, and no bool is compared with those. */
  predicate Normal(e: Expr) {
    match e
    case Sym(_) => true
    case Comp(rel, l, r) => l.Type() == Boolean && r in {ConstYes, ConstMod, ConstNo} ==> rel != EQUAL && rel != UNEQUAL
    case Bin(_, l, r) => Normal(l) && Normal(r)
    case Not(a) => a.Sym? && !IsLetter(a.sym)
  }

  lemma {:induction false} TransformIsNormal(e: Expr)
    ensures Normal(Transform(e))
    decreases Weight(e)
  {
    match e
    case Sym(_) =>
    case Comp(_, _, _) =>
    case Bin(_, l, r) =>
      TransformIsNormal(l);
      TransformIsNormal(r);
    case Not(a) =>
      TransformIsNormal(a);
      match Transform(a)
      case Not(b) => TransformIsNormal(b);
      case Comp(_, _, _) =>
      case Bin(op, l, r) => TransformIsNormal(PushNot(op, l, r));
      case Sym(_) =>
  }

  lemma {:induction false} NormalIsFixed(e: Expr)
    requires Normal(e)
    ensures Transform(e) == e
  {
    if e.Bin? {
      NormalIsFixed(e.left);
      NormalIsFixed(e.right);
    }
  }

  /** Transforming a second time changes nothing; the fixed points are the normal forms. */
  lemma TransformIdempotent(e: Expr)
    ensures Transform(Transform(e)) == Transform(e)
    ensures Transform(e) == e <==> Normal(e)
  {
    TransformIsNormal(e);
    NormalIsFixed(Transform(e));
    if Normal(e) { NormalIsFixed(e); }
  }

  // ----- the value

  /** No symbol of type Other takes part in an ordered comparison. */
  predicate Comparable(e: Expr) {
    match e
    case Sym(_) => true
    case Not(a) => Comparable(a)
    case Bin(_, l, r) => Comparable(l) && Comparable(r)
    case Comp(rel, l, r) => rel == EQUAL || rel == UNEQUAL || (l.Type() != Other && r.Type() != Other)
  }

  /** Swapping a relation negates the test, unless the symbols cannot be compared. */
  lemma NegatedComp(rel: RelOp, l: Symbol, r: Symbol, env: Env)
    ensures Calc(Comp(Negated(rel), l, r), env) == T.Not(Calc(Comp(rel, l, r), env))
            <==> Ordering(rel, l, r, env).Some?
  {
  }

  /** The two symbols can hold values that cannot be ordered. */
  predicate MayBeIncomparable(l: Symbol, r: Symbol) {
    (l.Type() == Other || r.Type() == Other) && MayBeNumber(l) && MayBeNumber(r)
  }

  predicate MayBeNumber(s: Symbol) {
    s.IsConst() ==> StrToLL(TextOf(s), 0).Some?
  }

  /** An assignment in which every symbol that can be a number is one. */
  ghost function NumericEnv(): Env {
    Env((s: Symbol) => UniformTri(T.NO, s), (s: Symbol) => NumericStr(s))
  }

  function NumericStr(s: Symbol): string {
    if s.IsConst() then TextOf(s) else if s.Logical() then "n" else "0"
  }

  lemma NumericEnvIsWellFormed()
    ensures WellFormed(NumericEnv())
  {
  }

  lemma NumericStrParses(s: Symbol)
    requires MayBeNumber(s)
    ensures !ParseString(NumericStr(s), s.Type()).KString?
  {
    ZeroIsNumber();
  }

  lemma ZeroIsNumber()
    ensures StrToLL("0", 0) == Some(0) && StrToLL("0", 10) == Some(0) && StrToULL("0", 16) == Some(0)
  {
    assert Digits("0", 8, 0) == Digits([], 8, 0);
    assert Digits("0", 10, 0) == Digits([], 10, 0);
    assert Digits("0", 16, 0) == Digits([], 16, 0);
  }

  /**
   Negating an ordered comparison by swapping its relation is right exactly
   when the two symbols can never take the "Cannot compare" path.
   */
  lemma NegatedCompExact(rel: RelOp, l: Symbol, r: Symbol)
    requires rel != EQUAL && rel != UNEQUAL
    ensures (forall env :: WellFormed(env) ==>
               Calc(Transform(Not(Comp(rel, l, r))), env) == Calc(Not(Comp(rel, l, r)), env))
            <==> !MayBeIncomparable(l, r)
  {
    assert Transform(Not(Comp(rel, l, r))) == Comp(Negated(rel), l, r);
    hide Transform, StrToLL, StrToULL, StrCmp;
    forall env | WellFormed(env)
      ensures Calc(Transform(Not(Comp(rel, l, r))), env) == Calc(Not(Comp(rel, l, r)), env)
              <==> Ordering(rel, l, r, env).Some?
    {
      hide WellFormed, Ordering;
      NegatedComp(rel, l, r, env);
    }
    if MayBeIncomparable(l, r) {
      NumbersAreIncomparable(rel, l, r);
    } else {
      forall env | WellFormed(env) ensures Ordering(rel, l, r, env).Some? {
        AlwaysOrdered(rel, l, r, env);
      }
    }
  }

  lemma AlwaysOrdered(rel: RelOp, l: Symbol, r: Symbol, env: Env)
    requires WellFormed(env) && !MayBeIncomparable(l, r)
    ensures Ordering(rel, l, r, env).Some?
  {
    LettersAreStrings(env);
    hide WellFormed, StrToLL, StrToULL, StrCmp;
  }

  lemma NumbersAreIncomparable(rel: RelOp, l: Symbol, r: Symbol)
    requires rel != EQUAL && rel != UNEQUAL && MayBeIncomparable(l, r)
    ensures WellFormed(NumericEnv()) && Ordering(rel, l, r, NumericEnv()).None?
  {
    NumericEnvIsWellFormed();
    NumericStrParses(l);
    NumericStrParses(r);
  }

  lemma LettersAreStrings(env: Env)
    requires WellFormed(env)
    ensures forall c: Symbol | c.IsConst() :: env.str(c) == TextOf(c)
  {
  }

  lemma BoolTestValue(e: Expr, env: Env)
    requires WellFormed(env) && BoolTest(e)
    ensures Calc(TransformTest(e), env) == Calc(e, env)
  {
    CompareWithLetter(e.rel, e.lsym, e.rsym, env);
    assert e.lsym == Config(e.lsym.name, Boolean);
  }

  lemma ComparableIsOrdered(rel: RelOp, l: Symbol, r: Symbol, env: Env)
    requires Comparable(Comp(rel, l, r))
    ensures Ordering(rel, l, r, env).Some?
  {
    hide StrToLL, StrToULL, StrCmp;
  }

  /** `expr_transform` keeps the value under every assignment. */
  lemma {:induction false} TransformKeepsValue(e: Expr, env: Env)
    requires WellFormed(env) && Comparable(e)
    ensures Calc(Transform(e), env) == Calc(e, env)
    ensures Comparable(Transform(e))
    decreases Weight(e)
  {
    hide Ordering, Holds;
    match e
    case Sym(_) =>
    case Comp(rel, l, r) =>
      if BoolTest(e) { BoolTestValue(e, env); }
    case Bin(_, l, r) =>
      TransformKeepsValue(l, env);
      TransformKeepsValue(r, env);
    case Not(a) =>
      TransformKeepsValue(a, env);
      match Transform(a)
      case Not(b) => TransformKeepsValue(b, env);
      case Comp(rel, l, r) =>
        ComparableIsOrdered(rel, l, r, env);
        NegatedComp(rel, l, r, env);
      case Bin(op, l, r) => TransformKeepsValue(PushNot(op, l, r), env);
      case Sym(_) =>
  }

  lemma {:induction false} TransformKeepsPlain(e: Expr)
    requires PlainConstants(e)
    ensures PlainConstants(Transform(e))
    decreases Weight(e)
  {
    match e
    case Sym(_) =>
    case Comp(_, _, _) =>
    case Bin(_, l, r) =>
      TransformKeepsPlain(l);
      TransformKeepsPlain(r);
    case Not(a) =>
      TransformKeepsPlain(a);
      match Transform(a)
      case Not(b) => TransformKeepsPlain(b);
      case Bin(op, l, r) => TransformKeepsPlain(PushNot(op, l, r));
      case _ =>
  }
}
