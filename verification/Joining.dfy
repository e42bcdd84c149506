/**
 Joining two operands of an AND or OR into one (`expr_join_or` and
 `expr_join_and` of `expr.c`), and when that keeps the value.
 */
module Joining {
  import opened Wrappers
  import opened Expressions
  import opened Elimination
  import opened Numbers
  import T = Tristates

  predicate IsLetter(c: Symbol) {
    c == ConstYes || c == ConstMod || c == ConstNo
  }

  predicate Simple(e: Expr) {
    e.Sym? || e.Not? || (e.Comp? && (e.rel == EQUAL || e.rel == UNEQUAL))
  }

  /** The symbol the first operand is about, if `sym1` is set at all. */
  function FirstSymbol(e: Expr): Option<Symbol> {
    match e
    case Sym(s) => Some(s)
    case Comp(_, l, _) => Some(l)
    case Not(Sym(s)) => Some(s)
    case Not(Comp(rel, l, _)) => if rel == EQUAL || rel == UNEQUAL then Some(l) else None
    case _ => None
  }

  /** The symbol the second operand is about: here a negation may only cover a symbol. */
  function SecondSymbol(e: Expr): Option<Symbol> {
    match e
    case Sym(s) => Some(s)
    case Comp(_, l, _) => Some(l)
    case Not(Sym(s)) => Some(s)
    case _ => None
  }

  /** Both operands are about the same bool or tristate symbol. */
  function CommonSymbol(e1: Expr, e2: Expr): Option<Symbol> {
    if !Simple(e1) || !Simple(e2) then None
    else match (FirstSymbol(e1), SecondSymbol(e2))
      case (Some(s1), Some(s2)) => if s1 == s2 && s1.Logical() then Some(s1) else None
      case _ => None
  }

  /** One operand is `s rel c` and the other `s rel d`. */
  predicate AreBoth(e1: Expr, e2: Expr, rel: RelOp, c: Symbol, d: Symbol) {
    e1.Comp? && e2.Comp? && e1.rel == rel && e2.rel == rel
    && ((e1.rsym == c && e2.rsym == d) || (e1.rsym == d && e2.rsym == c))
  }

  /** One operand is a plain symbol and the other `s rel c`. */
  predicate SymbolAnd(e1: Expr, e2: Expr, rel: RelOp, c: Symbol) {
    || (e1.Sym? && e2.Comp? && e2.rel == rel && e2.rsym == c)
    || (e2.Sym? && e1.Comp? && e1.rel == rel && e1.rsym == c)
  }

  /** `expr_join_or`. */
  function JoinOr(e1: Expr, e2: Expr): Option<Expr> {
    if Equal(e1, e2) then Some(e1)
    else match CommonSymbol(e1, e2)
      case None => None
      case Some(s) =>
        if s.Type() == Tri && AreBoth(e1, e2, EQUAL, ConstYes, ConstMod) then Some(Comp(UNEQUAL, s, ConstNo))
        else if s.Type() == Tri && AreBoth(e1, e2, EQUAL, ConstYes, ConstNo) then Some(Comp(UNEQUAL, s, ConstMod))
        else if s.Type() == Tri && AreBoth(e1, e2, EQUAL, ConstMod, ConstNo) then Some(Comp(UNEQUAL, s, ConstYes))
        else if s.Type() == Boolean && ((e1.Not? && e1.arg.Sym? && e2.Sym?) || (e2.Not? && e2.arg.Sym? && e1.Sym?)) then
          Some(Sym(ConstYes))
        else None
  }

  /** The rule for `s = b && s != c` with two constants b and c. */
  function JoinEqualUnequal(s: Symbol, b: Symbol, c: Symbol): Expr {
    if b != c then Comp(EQUAL, s, b) else Sym(ConstNo)
  }

  /** `expr_join_and`. */
  function JoinAnd(e1: Expr, e2: Expr): Option<Expr> {
    if Equal(e1, e2) then Some(e1)
    else match CommonSymbol(e1, e2)
      case None => None
      case Some(s) =>
        if SymbolAnd(e1, e2, EQUAL, ConstYes) then Some(Comp(EQUAL, s, ConstYes))
        else if SymbolAnd(e1, e2, UNEQUAL, ConstNo) then Some(Sym(s))
        else if SymbolAnd(e1, e2, UNEQUAL, ConstMod) then Some(Comp(EQUAL, s, ConstYes))
        else if s.Type() != Tri then None
        else if e1.Comp? && e2.Comp? && e1.rel == EQUAL && e2.rel == UNEQUAL && e1.rsym.IsConst()
          && e2.rsym.IsConst() then
          Some(JoinEqualUnequal(s, e1.rsym, e2.rsym))
        else if e1.Comp? && e2.Comp? && e1.rel == UNEQUAL && e2.rel == EQUAL && e1.rsym.IsConst()
          && e2.rsym.IsConst() then
          Some(JoinEqualUnequal(s, e2.rsym, e1.rsym))
        else if AreBoth(e1, e2, UNEQUAL, ConstYes, ConstNo) then Some(Comp(EQUAL, s, ConstMod))
        else if AreBoth(e1, e2, UNEQUAL, ConstYes, ConstMod) then Some(Comp(EQUAL, s, ConstNo))
        else if AreBoth(e1, e2, UNEQUAL, ConstMod, ConstNo) then Some(Comp(EQUAL, s, ConstYes))
        else None
  }

  function JoinOperands(op: BinOp, e1: Expr, e2: Expr): Option<Expr> {
    if op == OR then JoinOr(e1, e2) else JoinAnd(e1, e2)
  }

  // ----- when joining keeps the value

  /** The text of a constant. */
  function TextOf(c: Symbol): string
    requires c.IsConst()
  {
    match c
    case ConstYes => "y"
    case ConstMod => "m"
    case ConstNo => "n"
    case Const(t) => t
  }

  /** A tristate symbol of value t compares equal to the constant. */
  predicate Matches(c: Symbol, t: T.Tristate)
    requires c.IsConst()
  {
    match StrToLL(TextOf(c), 0)
    case Some(v) => v == t
    case None => TextOf(c) == T.Letter(t)
  }

  lemma MatchesIsEqual(s: Symbol, c: Symbol, rel: RelOp, env: Env)
    requires WellFormed(env) && s.Logical() && c.IsConst() && (rel == EQUAL || rel == UNEQUAL)
    ensures Calc(Comp(rel, s, c), env) == T.Truth(Matches(c, env.tri(s)) == (rel == EQUAL))
  {
    StrCmpEqual(env.str(s), env.str(c));
    hide StrToLL, StrToULL, StrCmp;
    assert env.str(c) == TextOf(c);
    assert LetterValue(T.Letter(env.tri(s))) == env.tri(s);
  }

  /** No tristate value is equal to both constants. */
  predicate Apart(b: Symbol, c: Symbol)
    requires b.IsConst() && c.IsConst()
  {
    !exists t: T.Tristate :: Matches(b, t) && Matches(c, t)
  }

  /** A constant that no number can be mistaken for: `y`, `m`, `n`, or a text that is not 0, 1 or 2. */
  predicate Plain(c: Symbol) {
    c.IsConst() ==>
      match c
      case Const(t) => !(StrToLL(t, 0).Some? && 0 <= StrToLL(t, 0).value <= 2) && t != "y" && t != "m" && t != "n"
      case _ => true
  }

  lemma PlainConstantsAreApart(b: Symbol, c: Symbol)
    requires b.IsConst() && c.IsConst() && Plain(b) && Plain(c) && b != c
    ensures Apart(b, c)
  {
    LetterIsNoNumber(T.YES);
    LetterIsNoNumber(T.MOD);
    LetterIsNoNumber(T.NO);
    forall t: T.Tristate ensures !(Matches(b, t) && Matches(c, t)) {
      assert t == T.NO || t == T.MOD || t == T.YES;
    }
  }

  /** An assignment in which every tristate symbol has the value t. */
  ghost function UniformEnv(t: T.Tristate): Env {
    Env((s: Symbol) => UniformTri(t, s), (s: Symbol) => UniformStr(t, s))
  }

  lemma UniformEnvIsWellFormed(t: T.Tristate)
    ensures WellFormed(UniformEnv(t))
  {
  }

  function UniformTri(t: T.Tristate, s: Symbol): T.Tristate {
    match s
    case ConstYes => T.YES
    case ConstMod => T.MOD
    case Config(_, Tri) => t
    case _ => T.NO
  }

  function UniformStr(t: T.Tristate, s: Symbol): string {
    if s.IsConst() then TextOf(s) else T.Letter(UniformTri(t, s))
  }

  /**
   The rule `s = b && s != c` -> `s = b` is right exactly when no tristate
   value equals both constants.
   */
  lemma JoinEqualUnequalExact(s: Symbol, b: Symbol, c: Symbol)
    requires s.Type() == Tri && b.IsConst() && c.IsConst() && b != c
    ensures (forall env :: WellFormed(env) ==>
               Calc(JoinEqualUnequal(s, b, c), env) == Calc(Bin(AND, Comp(EQUAL, s, b), Comp(UNEQUAL, s, c)), env))
            <==> Apart(b, c)
  {
    forall env | WellFormed(env)
      ensures Calc(JoinEqualUnequal(s, b, c), env) == Calc(Bin(AND, Comp(EQUAL, s, b), Comp(UNEQUAL, s, c)), env)
              <==> !(Matches(b, env.tri(s)) && Matches(c, env.tri(s)))
    {
      JoinEqualUnequalAt(s, b, c, env);
    }
    if !Apart(b, c) {
      var t: T.Tristate :| Matches(b, t) && Matches(c, t);
      UniformEnvIsWellFormed(t);
      assert UniformEnv(t).tri(s) == t;
    }
  }

  lemma JoinEqualUnequalAt(s: Symbol, b: Symbol, c: Symbol, env: Env)
    requires WellFormed(env) && s.Logical() && b.IsConst() && c.IsConst() && b != c
    ensures Calc(JoinEqualUnequal(s, b, c), env) == Calc(Bin(AND, Comp(EQUAL, s, b), Comp(UNEQUAL, s, c)), env)
            <==> !(Matches(b, env.tri(s)) && Matches(c, env.tri(s)))
  {
    MatchesIsEqual(s, b, EQUAL, env);
    MatchesIsEqual(s, c, UNEQUAL, env);
  }

  /** The text "1" and the constant `m` are both equal to a tristate that is `m`. */
  lemma NumbersAreNotApart()
    ensures !Apart(ConstMod, Const("1"))
  {
    LetterIsNoNumber(T.MOD);
    assert Digits("1", 10, 0) == Digits([], 10, 1);
    assert Matches(ConstMod, T.MOD) && Matches(Const("1"), T.MOD);
  }

  /** The constants of the `=` and `!=` comparisons of an expression are plain. */
  predicate PlainConstants(e: Expr) {
    match e
    case Sym(_) => true
    case Not(a) => PlainConstants(a)
    case Bin(_, l, r) => PlainConstants(l) && PlainConstants(r)
    case Comp(_, _, r) => Plain(r)
  }

  /** The value of `s && s rel c`, whichever operand comes first. */
  lemma SymbolAndValue(e1: Expr, e2: Expr, rel: RelOp, c: Symbol, env: Env)
    requires WellFormed(env) && CommonSymbol(e1, e2).Some? && SymbolAnd(e1, e2, rel, c)
    requires IsLetter(c) && (rel == EQUAL || rel == UNEQUAL)
    ensures var t := env.tri(CommonSymbol(e1, e2).value);
            T.And(Calc(e1, env), Calc(e2, env)) == T.And(t, T.Truth((t == env.tri(c)) == (rel == EQUAL)))
  {
    hide Ordering;
    CompareWithLetter(rel, CommonSymbol(e1, e2).value, c, env);
  }

  /** The values of `s rel c` and `s rel d`, whichever comes first. */
  lemma BothValue(op: BinOp, e1: Expr, e2: Expr, rel: RelOp, c: Symbol, d: Symbol, env: Env)
    requires WellFormed(env) && CommonSymbol(e1, e2).Some? && AreBoth(e1, e2, rel, c, d)
    requires IsLetter(c) && IsLetter(d) && (rel == EQUAL || rel == UNEQUAL)
    ensures var t := env.tri(CommonSymbol(e1, e2).value);
            Combine(op, Calc(e1, env), Calc(e2, env))
            == Combine(op, T.Truth((t == env.tri(c)) == (rel == EQUAL)), T.Truth((t == env.tri(d)) == (rel == EQUAL)))
  {
    hide Ordering;
    CompareWithLetter(rel, CommonSymbol(e1, e2).value, c, env);
    CompareWithLetter(rel, CommonSymbol(e1, e2).value, d, env);
  }

  lemma JoinOrKeepsValue(e1: Expr, e2: Expr, env: Env)
    requires WellFormed(env) && JoinOr(e1, e2).Some?
    ensures Calc(JoinOr(e1, e2).value, env) == T.Or(Calc(e1, env), Calc(e2, env))
  {
    if Equal(e1, e2) {
      EqualIsSound(e1, e2, env);
    } else {
      hide Equal, Ordering;
      var s := CommonSymbol(e1, e2).value;
      LetterComparisons(s, env);
      if AreBoth(e1, e2, EQUAL, ConstYes, ConstMod) {
        BothValue(OR, e1, e2, EQUAL, ConstYes, ConstMod, env);
      } else if AreBoth(e1, e2, EQUAL, ConstYes, ConstNo) {
        BothValue(OR, e1, e2, EQUAL, ConstYes, ConstNo, env);
      } else if AreBoth(e1, e2, EQUAL, ConstMod, ConstNo) {
        BothValue(OR, e1, e2, EQUAL, ConstMod, ConstNo, env);
      }
    }
  }

  lemma JoinAndKeepsValue(e1: Expr, e2: Expr, env: Env)
    requires WellFormed(env) && JoinAnd(e1, e2).Some?
    requires PlainConstants(e1) && PlainConstants(e2)
    ensures Calc(JoinAnd(e1, e2).value, env) == T.And(Calc(e1, env), Calc(e2, env))
  {
    if Equal(e1, e2) {
      EqualIsSound(e1, e2, env);
    } else {
      hide Equal, Ordering, Plain, Matches, WellFormed;
      var s := CommonSymbol(e1, e2).value;
      LetterComparisons(s, env);
      if SymbolAnd(e1, e2, EQUAL, ConstYes) {
        SymbolAndValue(e1, e2, EQUAL, ConstYes, env);
      } else if SymbolAnd(e1, e2, UNEQUAL, ConstNo) {
        SymbolAndValue(e1, e2, UNEQUAL, ConstNo, env);
      } else if SymbolAnd(e1, e2, UNEQUAL, ConstMod) {
        SymbolAndValue(e1, e2, UNEQUAL, ConstMod, env);
      } else if e1.Comp? && e2.Comp? && e1.rel == EQUAL && e2.rel == UNEQUAL && e1.rsym.IsConst() && e2.rsym.IsConst() {
        EqualUnequalValue(s, e1.rsym, e2.rsym, env);
      } else if e1.Comp? && e2.Comp? && e1.rel == UNEQUAL && e2.rel == EQUAL && e1.rsym.IsConst() && e2.rsym.IsConst() {
        EqualUnequalValue(s, e2.rsym, e1.rsym, env);
      } else if AreBoth(e1, e2, UNEQUAL, ConstYes, ConstNo) {
        BothValue(AND, e1, e2, UNEQUAL, ConstYes, ConstNo, env);
      } else if AreBoth(e1, e2, UNEQUAL, ConstYes, ConstMod) {
        BothValue(AND, e1, e2, UNEQUAL, ConstYes, ConstMod, env);
      } else {
        BothValue(AND, e1, e2, UNEQUAL, ConstMod, ConstNo, env);
      }
    }
  }

  lemma EqualUnequalValue(s: Symbol, b: Symbol, c: Symbol, env: Env)
    requires WellFormed(env) && s.Logical() && b.IsConst() && c.IsConst() && Plain(b) && Plain(c)
    ensures Calc(JoinEqualUnequal(s, b, c), env) == T.And(Calc(Comp(EQUAL, s, b), env), Calc(Comp(UNEQUAL, s, c), env))
  {
    if b != c {
      PlainConstantsAreApart(b, c);
      JoinEqualUnequalAt(s, b, c, env);
    } else {
      MatchesIsEqual(s, b, EQUAL, env);
      MatchesIsEqual(s, b, UNEQUAL, env);
    }
  }

  /** Joining two operands keeps the value of the pair. */
  lemma JoinKeepsValue(op: BinOp, e1: Expr, e2: Expr, env: Env)
    requires WellFormed(env) && JoinOperands(op, e1, e2).Some?
    requires PlainConstants(e1) && PlainConstants(e2)
    ensures Calc(JoinOperands(op, e1, e2).value, env) == Combine(op, Calc(e1, env), Calc(e2, env))
  {
    if op == OR { JoinOrKeepsValue(e1, e2, env); } else { JoinAndKeepsValue(e1, e2, env); }
  }

  lemma LetterComparisons(s: Symbol, env: Env)
    requires WellFormed(env) && s.Logical()
    ensures forall rel, c | (rel == EQUAL || rel == UNEQUAL) && IsLetter(c) ::
              Calc(Comp(rel, s, c), env) == T.Truth((env.tri(s) == env.tri(c)) == (rel == EQUAL))
    ensures s.Type() == Boolean ==> env.tri(s) != T.MOD
  {
    forall rel, c | (rel == EQUAL || rel == UNEQUAL) && IsLetter(c)
      ensures Calc(Comp(rel, s, c), env) == T.Truth((env.tri(s) == env.tri(c)) == (rel == EQUAL))
    {
      CompareWithLetter(rel, s, c, env);
    }
    assert s == Config(s.name, s.declared);
  }

  lemma JoinKeepsPlain(op: BinOp, e1: Expr, e2: Expr)
    requires JoinOperands(op, e1, e2).Some? && PlainConstants(e1) && PlainConstants(e2)
    ensures PlainConstants(JoinOperands(op, e1, e2).value)
  {
    hide Equal, StrToLL;
  }

  /** The joined operand is no larger than the first one and is not an `op` itself. */
  lemma JoinIsSmall(op: BinOp, e1: Expr, e2: Expr)
    requires JoinOperands(op, e1, e2).Some? && !IsOp(e1, op)
    ensures Size(JoinOperands(op, e1, e2).value) <= Size(e1)
    ensures !IsOp(JoinOperands(op, e1, e2).value, op)
  {
  }
}
