/**
 The expressions `menu_finalize` builds: `rewrite_m` of `menu.c`,
 `expr_trans_bool`, `expr_trans_compare`, `expr_contains_symbol` and
 `expr_depends_symbol` of `expr.c`, and the test that moves an entry into the
 submenu of the symbol before it.
 */
module Submenus {
  import opened Wrappers
  import opened Expressions
  import opened Elimination
  import opened Joining
  import opened Operands
  import opened Duplicates
  import opened Transforming
  import opened Numbers
  import T = Tristates

  // ----- rewrite_m

  /** `rewrite_m`: `m` becomes `m && MODULES`. */
  function RewriteM(e: Expr, modules: Symbol): Expr {
    match e
    case Sym(s) => if s == ConstMod then Bin(AND, e, Sym(modules)) else e
    case Not(a) => Not(RewriteM(a, modules))
    case Bin(op, l, r) => Bin(op, RewriteM(l, modules), RewriteM(r, modules))
    case Comp(_, _, _) => e
  }

  /** The assignment in which the constant `m` counts as `n` when modules are off. */
  ghost function WithModules(env: Env, modules: Symbol): Env {
    Env((s: Symbol) => WithModulesTri(env, modules, s), env.str)
  }

  function WithModulesTri(env: Env, modules: Symbol, s: Symbol): T.Tristate {
    if s == ConstMod then T.And(T.MOD, env.tri(modules)) else env.tri(s)
  }

  /** Rewriting makes `m` mean what it is worth without modules, and nothing else changes. */
  lemma {:induction false} RewriteMValue(e: Expr, modules: Symbol, env: Env)
    requires WellFormed(env)
    ensures Calc(RewriteM(e, modules), env) == Calc(e, WithModules(env, modules))
  {
    match e
    case Sym(_) =>
    case Not(a) => RewriteMValue(a, modules, env);
    case Bin(_, l, r) =>
      RewriteMValue(l, modules, env);
      RewriteMValue(r, modules, env);
    case Comp(_, _, _) =>
  }

  // ----- expr_trans_bool

  /** `expr_trans_bool`. */
  function TransBool(e: Expr): Expr {
    match e
    case Sym(_) => e
    case Not(a) => Not(TransBool(a))
    case Bin(op, l, r) => Bin(op, TransBool(l), TransBool(r))
    case Comp(rel, l, r) => if rel == UNEQUAL && l.Type() == Tri && r == ConstNo then Sym(l) else e
  }

  /** No tristate is tested against `n`. */
  predicate NoTests(e: Expr) {
    match e
    case Sym(_) => true
    case Not(a) => NoTests(a)
    case Bin(_, l, r) => NoTests(l) && NoTests(r)
    case Comp(rel, l, r) => rel != UNEQUAL || l.Type() != Tri || r != ConstNo
  }

  /** The tests, and nothing else, are rewritten. */
  lemma {:induction false} TransBoolRemovesTests(e: Expr)
    ensures NoTests(TransBool(e)) && (TransBool(e) == e <==> NoTests(e))
  {
    match e
    case Sym(_) =>
    case Not(a) => TransBoolRemovesTests(a);
    case Bin(_, l, r) =>
      TransBoolRemovesTests(l);
      TransBoolRemovesTests(r);
    case Comp(_, _, _) =>
  }

  /** In normal form the rewritten condition is `n` exactly when the original is, and never larger. */
  lemma {:induction false} TransBoolKeepsNo(e: Expr, env: Env)
    requires WellFormed(env) && Normal(e)
    ensures Calc(TransBool(e), env) == T.NO <==> Calc(e, env) == T.NO
    ensures Calc(TransBool(e), env) <= Calc(e, env)
  {
    match e
    case Sym(_) =>
    case Not(_) =>
    case Bin(_, l, r) =>
      TransBoolKeepsNo(l, env);
      TransBoolKeepsNo(r, env);
    case Comp(rel, l, r) =>
      if rel == UNEQUAL && l.Type() == Tri && r == ConstNo { CompareWithLetter(rel, l, r, env); }
  }

  /** The test of a bool or tristate against `n` is worth what the symbol is worth. */
  lemma TransBoolOfTest(s: Symbol, env: Env)
    requires WellFormed(env) && s.Config? && s.Logical()
    ensures Calc(TransBool(Comp(UNEQUAL, s, ConstNo)), env) == env.tri(s)
  {
    CompareWithLetter(UNEQUAL, s, ConstNo, env);
    assert s == Config(s.name, s.declared);
  }

  // ----- expr_trans_compare

  /** `expr_trans_compare` for a type that is EQUAL or UNEQUAL. */
  function TransCompare(e: Expr, equal: bool, sym: Symbol): Expr
    requires IsLetter(sym)
  {
    match e
    case Bin(op, l, r) =>
      var l', r' := TransCompare(l, true, sym), TransCompare(r, true, sym);
      var both := if sym == ConstYes then Bin(op, l', r') else if sym == ConstNo then Bin(Dual(op), l', r') else e;
      if equal then both else Not(both)
    case Not(a) => TransCompare(a, !equal, sym)
    case Comp(_, _, _) =>
      if sym == ConstMod then Sym(if equal then ConstNo else ConstYes)
      else if (sym == ConstYes) == equal then e
      else Not(e)
    case Sym(s) => Comp(if equal then EQUAL else UNEQUAL, s, sym)
  }

  /** A NULL expression becomes the symbol itself. */
  function TransCompareOpt(e: Option<Expr>, equal: bool, sym: Symbol): Expr
    requires IsLetter(sym)
  {
    if e.Some? then TransCompare(e.value, equal, sym) else if equal then Sym(sym) else Not(Sym(sym))
  }

  /** Comparing the symbol with `n` says whether its tristate is `n`. */
  ghost predicate ShowsNo(s: Symbol, env: Env) {
    s.Logical() || IsLetter(s) || (env.tri(s) == T.NO <==> env.str(s) == "n")
  }

  /** This holds of every symbol used as a condition. */
  ghost predicate ConditionsShowNo(e: Expr, env: Env) {
    match e
    case Sym(s) => ShowsNo(s, env)
    case Not(a) => ConditionsShowNo(a, env)
    case Bin(_, l, r) => ConditionsShowNo(l, env) && ConditionsShowNo(r, env)
    case Comp(_, _, _) => true
  }

  /** No negated part of the expression is `m`. */
  predicate NegatedNeverMod(e: Expr, env: Env) {
    match e
    case Sym(_) => true
    case Not(a) => NegatedNeverMod(a, env) && Calc(a, env) != T.MOD
    case Bin(_, l, r) => NegatedNeverMod(l, env) && NegatedNeverMod(r, env)
    case Comp(_, _, _) => true
  }

  /** The comparison with `n` is a test of the original expression against `n`. */
  ghost predicate IsTestForNo(e: Expr, env: Env) {
    && Calc(TransCompare(e, false, ConstNo), env) == T.Truth(Calc(e, env) != T.NO)
    && Calc(TransCompare(e, true, ConstNo), env) == T.Truth(Calc(e, env) == T.NO)
  }

  lemma {:induction false} TransCompareIsTest(e: Expr, env: Env)
    requires WellFormed(env) && ConditionsShowNo(e, env) && NegatedNeverMod(e, env)
    ensures IsTestForNo(e, env)
  {
    match e
    case Sym(s) => ConditionTestExact(s, env);
    case Not(a) => TransCompareIsTest(a, env);
    case Bin(_, l, r) =>
      TransCompareIsTest(l, env);
      TransCompareIsTest(r, env);
    case Comp(_, _, _) =>
  }

  /** Every symbol used as a condition says by its string whether its tristate is `y`. */
  ghost predicate ConditionsShowYes(e: Expr, env: Env) {
    match e
    case Sym(s) => s.Logical() || IsLetter(s) || (env.tri(s) == T.YES <==> env.str(s) == "y")
    case Not(a) => ConditionsShowYes(a, env)
    case Bin(_, l, r) => ConditionsShowYes(l, env) && ConditionsShowYes(r, env)
    case Comp(_, _, _) => true
  }

  /** The comparison with `y` is a test of the original expression against `y`. */
  lemma {:induction false} TransCompareYes(e: Expr, env: Env)
    requires WellFormed(env) && ConditionsShowYes(e, env) && NegatedNeverMod(e, env)
    ensures Calc(TransCompare(e, false, ConstYes), env) == T.Truth(Calc(e, env) != T.YES)
    ensures Calc(TransCompare(e, true, ConstYes), env) == T.Truth(Calc(e, env) == T.YES)
  {
    match e
    case Sym(s) => SymbolShowsYes(s, env);
    case Not(a) => TransCompareYes(a, env);
    case Bin(_, l, r) =>
      TransCompareYes(l, env);
      TransCompareYes(r, env);
    case Comp(_, _, _) =>
  }

  lemma SymbolShowsYes(s: Symbol, env: Env)
    requires WellFormed(env) && ConditionsShowYes(Sym(s), env)
    ensures forall rel :: rel == EQUAL || rel == UNEQUAL ==>
              Calc(Comp(rel, s, ConstYes), env) == T.Truth((env.tri(s) == T.YES) == (rel == EQUAL))
  {
    if s.Logical() {
      CompareWithLetter(EQUAL, s, ConstYes, env);
      CompareWithLetter(UNEQUAL, s, ConstYes, env);
    } else {
      if IsLetter(s) {
        LetterIsNoNumber(env.tri(s));
        assert env.str(s) == T.Letter(env.tri(s));
      }
      LetterIsNoNumber(T.YES);
      assert env.str(ConstYes) == T.Letter(T.YES);
      StrCmpEqual(env.str(s), env.str(ConstYes));
    }
  }

  /** A comparison is never `m`, and its test against `m` says so. */
  lemma TransCompareMod(e: Expr, equal: bool, env: Env)
    requires WellFormed(env) && e.Comp?
    ensures Calc(TransCompare(e, equal, ConstMod), env) == T.Truth((Calc(e, env) == T.MOD) == equal)
  {
    hide Ordering;
  }

  /** For a symbol used as a condition the test is right exactly when its string says so. */
  lemma ConditionTestExact(s: Symbol, env: Env)
    requires WellFormed(env)
    ensures IsTestForNo(Sym(s), env) <==> ShowsNo(s, env)
  {
    if s.Logical() {
      CompareWithLetter(EQUAL, s, ConstNo, env);
      CompareWithLetter(UNEQUAL, s, ConstNo, env);
    } else {
      if IsLetter(s) {
        LetterIsNoNumber(env.tri(s));
        assert env.str(s) == T.Letter(env.tri(s));
      }
      LetterIsNoNumber(T.NO);
      assert env.str(ConstNo) == T.Letter(T.NO);
      StrCmpEqual(env.str(s), env.str(ConstNo));
    }
  }

  /** For a negation the test is right exactly when the negated expression is not `m`. */
  lemma NegationTestExact(a: Expr, env: Env)
    requires WellFormed(env) && IsTestForNo(a, env)
    ensures IsTestForNo(Not(a), env) <==> Calc(a, env) != T.MOD
  {
  }

  /** A tristate that is `m`: its negation is `m` as well, but the test says `n`. */
  lemma NegationTestFails()
    ensures var a, env := Config("A", Tri), UniformEnv(T.MOD);
            && WellFormed(env) && IsTestForNo(Sym(a), env) && !IsTestForNo(Not(Sym(a)), env)
            && Calc(Not(Sym(a)), env) == T.MOD && Calc(TransCompare(Not(Sym(a)), false, ConstNo), env) == T.NO
  {
    var a, env := Config("A", Tri), UniformEnv(T.MOD);
    UniformEnvIsWellFormed(T.MOD);
    ConditionTestExact(a, env);
    NegationTestExact(Sym(a), env);
    hide UniformEnv, IsTestForNo, TransCompare;
    assert Calc(Sym(a), env) == T.MOD by { assert UniformTri(T.MOD, a) == T.MOD; }
  }

  // ----- expr_contains_symbol, expr_depends_symbol

  /** `expr_contains_symbol`. */
  predicate Contains(e: Expr, s: Symbol) {
    match e
    case Sym(s') => s' == s
    case Not(a) => Contains(a, s)
    case Bin(_, l, r) => Contains(l, s) || Contains(r, s)
    case Comp(_, l, r) => l == s || r == s
  }

  lemma {:induction false} ContainsIsOccurrence(e: Expr, s: Symbol)
    ensures Contains(e, s) <==> s in SymbolsOf(e)
  {
    match e
    case Not(a) => ContainsIsOccurrence(a, s);
    case Bin(_, l, r) =>
      ContainsIsOccurrence(l, s);
      ContainsIsOccurrence(r, s);
    case _ =>
  }

  /** `expr_depends_symbol`. */
  predicate Depends(e: Expr, s: Symbol) {
    match e
    case Sym(s') => s' == s
    case Bin(op, l, r) => op == AND && (Depends(l, s) || Depends(r, s))
    case Comp(rel, l, r) =>
      l == s && ((rel == EQUAL && (r == ConstYes || r == ConstMod)) || (rel == UNEQUAL && r == ConstNo))
    case Not(_) => false
  }

  /** An expression that depends on a symbol is `n` whenever the symbol is. */
  lemma {:induction false} DependsMeansImplies(e: Expr, s: Symbol, env: Env)
    requires WellFormed(env) && s.Logical() && Depends(e, s) && env.tri(s) == T.NO
    ensures Calc(e, env) == T.NO
  {
    match e
    case Sym(_) =>
    case Bin(_, l, r) => DependsMeansImplies(if Depends(l, s) then l else r, s, env);
    case Comp(rel, _, r) => CompareWithLetter(rel, s, r, env);
  }

  /** Among the operands of an AND one is enough. */
  lemma {:induction false} DependsOnOperand(e: Expr, s: Symbol)
    ensures Depends(e, s) <==> exists x :: x in OperandList(AND, e) && !IsOp(x, AND) && Depends(x, s)
  {
    if IsOp(e, AND) {
      DependsOnOperand(e.left, s);
      DependsOnOperand(e.right, s);
    } else {
      assert OperandList(AND, e) == [e];
    }
  }

  /** A comparison with a letter depends on its symbol exactly if it is `n` whenever the symbol is. */
  lemma ComparisonDepends(rel: RelOp, s: Symbol, c: Symbol)
    requires s.Config? && s.Logical() && IsLetter(c) && (rel == EQUAL || rel == UNEQUAL)
    ensures Depends(Comp(rel, s, c), s)
            <==> forall env :: WellFormed(env) && env.tri(s) == T.NO ==> Calc(Comp(rel, s, c), env) == T.NO
  {
    forall env | WellFormed(env) && env.tri(s) == T.NO
      ensures Calc(Comp(rel, s, c), env) == T.Truth((c == ConstNo) == (rel == EQUAL))
    {
      CompareWithLetter(rel, s, c, env);
    }
    UniformEnvIsWellFormed(T.NO);
    assert UniformEnv(T.NO).tri(s) == T.NO;
    hide WellFormed, Calc, UniformEnv;
  }

  // ----- the submenu test of menu_finalize

  /** The dependency `e` as a test that is `y` or `n`, simplified. */
  function SimpleTest(e: Option<Expr>): Expr {
    Dups(Transform(TransCompareOpt(e, false, ConstNo)))
  }

  /** The dependency is a superset of the parent's: nothing is left of the parent's test. */
  predicate Superset(dep: Expr, base: Option<Expr>) {
    EliminateEq(SimpleTest(Some(dep)), SimpleTest(base)).1 == Sym(ConstYes)
  }

  /** An entry with the dependency `dep` goes into the submenu of `sym`, whose prompt depends on `base`. */
  predicate Absorbs(sym: Symbol, base: Option<Expr>, dep: Option<Expr>) {
    dep.Some? && Contains(dep.value, sym) && (Depends(dep.value, sym) || Superset(dep.value, base))
  }

  lemma {:induction false} TransCompareKeepsShape(e: Expr, equal: bool)
    requires PlainConstants(e) && Comparable(e)
    ensures PlainConstants(TransCompare(e, equal, ConstNo)) && Comparable(TransCompare(e, equal, ConstNo))
  {
    match e
    case Sym(_) =>
    case Not(a) => TransCompareKeepsShape(a, !equal);
    case Bin(_, l, r) =>
      TransCompareKeepsShape(l, true);
      TransCompareKeepsShape(r, true);
    case Comp(_, _, _) =>
  }

  // ----- when the submenu test is right

  /** The symbols that take part in comparisons. */
  function Compared(e: Expr): set<Symbol> {
    match e
    case Sym(_) => {}
    case Not(a) => Compared(a)
    case Bin(_, l, r) => Compared(l) + Compared(r)
    case Comp(_, l, r) => {l, r}
  }

  function ComparedOpt(e: Option<Expr>): set<Symbol> {
    if e.Some? then Compared(e.value) else {}
  }

  /** A symbol that is `n` without being a bool or tristate, and occurs in no comparison. */
  predicate OnlyCondition(s: Symbol, env: Env, compared: set<Symbol>) {
    s.Config? && !s.Logical() && env.tri(s) == T.NO && s !in compared
  }

  /** Every symbol used as a condition shows whether it is `n`, or nothing else looks at how it is shown. */
  ghost predicate Conditions(e: Expr, env: Env, compared: set<Symbol>) {
    match e
    case Sym(s) => ShowsNo(s, env) || OnlyCondition(s, env, compared)
    case Not(a) => Conditions(a, env, compared)
    case Bin(_, l, r) => Conditions(l, env, compared) && Conditions(r, env, compared)
    case Comp(_, _, _) => true
  }

  /** What the caller guarantees about a dependency, beside the other one. */
  ghost predicate Sound(e: Option<Expr>, env: Env, compared: set<Symbol>) {
    e.Some? ==>
      && PlainConstants(e.value) && Comparable(e.value) && NegatedNeverMod(e.value, env)
      && Conditions(e.value, env, compared) && Compared(e.value) <= compared
  }

  /** The assignment in which those symbols show an `n`. */
  function Showing(env: Env, compared: set<Symbol>): Env {
    Env(env.tri, (s: Symbol) => if OnlyCondition(s, env, compared) then "n" else env.str(s))
  }

  lemma ShowingIsWellFormed(env: Env, compared: set<Symbol>)
    requires WellFormed(env)
    ensures WellFormed(Showing(env, compared))
  {
  }

  lemma {:induction false} ShowingKeepsValue(e: Expr, env: Env, compared: set<Symbol>)
    requires Compared(e) <= compared
    ensures Calc(e, Showing(env, compared)) == Calc(e, env)
  {
    match e
    case Sym(_) =>
    case Not(a) => ShowingKeepsValue(a, env, compared);
    case Bin(_, l, r) =>
      ShowingKeepsValue(l, env, compared);
      ShowingKeepsValue(r, env, compared);
    case Comp(_, l, r) => assert l in compared && r in compared;
  }

  /** There the test is right. */
  lemma {:induction false} ShowingShowsNo(e: Expr, env: Env, compared: set<Symbol>)
    requires Conditions(e, env, compared) && NegatedNeverMod(e, env) && Compared(e) <= compared
    ensures ConditionsShowNo(e, Showing(env, compared)) && NegatedNeverMod(e, Showing(env, compared))
  {
    match e
    case Sym(_) =>
    case Not(a) =>
      ShowingShowsNo(a, env, compared);
      ShowingKeepsValue(a, env, compared);
    case Bin(_, l, r) =>
      ShowingShowsNo(l, env, compared);
      ShowingShowsNo(r, env, compared);
    case Comp(_, _, _) =>
  }

  lemma SimpleTestValue(e: Option<Expr>, env: Env, compared: set<Symbol>)
    requires WellFormed(env) && Sound(e, env, compared)
    ensures Calc(SimpleTest(e), Showing(env, compared)) == T.Truth(CalcOpt(e, env) != T.NO)
  {
    var c, env' := TransCompareOpt(e, false, ConstNo), Showing(env, compared);
    ShowingIsWellFormed(env, compared);
    hide WellFormed, Showing;
    if e.Some? {
      ShowingShowsNo(e.value, env, compared);
      ShowingKeepsValue(e.value, env, compared);
      TransCompareIsTest(e.value, env');
      TransCompareKeepsShape(e.value, false);
    } else {
      assert ConstsFixed(env') by { ShowingIsWellFormed(env, compared); }
    }
    TransformKeepsValue(c, env');
    TransformKeepsPlain(c);
    DupsKeepsValue(Transform(c), env');
  }

  /** An entry taken in as a superset is visible only if the parent's prompt is. */
  lemma SupersetIsVisibleWithParent(dep: Expr, base: Option<Expr>, env: Env)
    requires WellFormed(env) && Superset(dep, base)
    requires var compared := Compared(dep) + ComparedOpt(base);
             Sound(Some(dep), env, compared) && Sound(base, env, compared)
    ensures Calc(dep, env) != T.NO ==> CalcOpt(base, env) != T.NO
  {
    var compared := Compared(dep) + ComparedOpt(base);
    SimpleTestValue(Some(dep), env, compared);
    SimpleTestValue(base, env, compared);
    ShowingIsWellFormed(env, compared);
    UsedUpMeansImplied(SimpleTest(Some(dep)), SimpleTest(base), Showing(env, compared));
  }

  /** A submenu entry can be visible only when its symbol is set or the symbol's prompt is visible. */
  lemma AbsorbedIsDependent(sym: Symbol, base: Option<Expr>, dep: Option<Expr>, env: Env)
    requires WellFormed(env) && sym.Logical() && Absorbs(sym, base, dep)
    requires var compared := ComparedOpt(dep) + ComparedOpt(base);
             Sound(dep, env, compared) && Sound(base, env, compared)
    ensures CalcOpt(dep, env) != T.NO ==> env.tri(sym) != T.NO || CalcOpt(base, env) != T.NO
  {
    if Depends(dep.value, sym) {
      if env.tri(sym) == T.NO { DependsMeansImplies(dep.value, sym, env); }
    } else {
      SupersetIsVisibleWithParent(dep.value, base, env);
    }
  }

  // ----- a condition that nothing defines

  /** Every bool and tristate is `n`, and a symbol without a definition shows its name. */
  ghost function UndefinedEnv(): Env {
    Env((s: Symbol) => UniformTri(T.NO, s), (s: Symbol) => UndefinedStr(s))
  }

  function UndefinedStr(s: Symbol): string {
    if s.IsConst() then TextOf(s) else if s.Logical() then "n" else s.name
  }

  lemma UndefinedEnvIsWellFormed()
    ensures WellFormed(UndefinedEnv())
  {
  }

  /**
   FOO is not defined, so it is `n`, but `FOO != n` is `y`.  The entry with
   `A != y && FOO != n` is taken in below A, whose prompt depends on FOO, and
   is visible while A is `n` and its prompt is not visible.
   */
  lemma UndefinedIsVisibleAlone()
    ensures var a, foo, env := Config("A", Tri), Config("FOO", Unknown), UndefinedEnv();
            var dep, base := Bin(AND, Comp(UNEQUAL, a, ConstYes), Comp(UNEQUAL, foo, ConstNo)), Sym(foo);
            && Absorbs(a, Some(base), Some(dep)) && Superset(dep, Some(base)) && WellFormed(env)
            && !IsTestForNo(base, env)
            && Calc(dep, env) == T.YES && Calc(base, env) == T.NO && env.tri(a) == T.NO
  {
    var a, foo, env := Config("A", Tri), Config("FOO", Unknown), UndefinedEnv();
    var notYes, test := Comp(UNEQUAL, a, ConstYes), Comp(UNEQUAL, foo, ConstNo);
    hide Superset, WellFormed;
    UndefinedEnvIsWellFormed();
    UndefinedTests(notYes, test, a, foo);
    CompareWithLetter(UNEQUAL, a, ConstYes, env);
    ConditionTestExact(foo, env);
    assert env.tri(foo) == T.NO && env.str(foo) == "FOO";
    assert Calc(test, env) == T.YES by {
      LetterIsNoNumber(T.NO);
      assert env.str(ConstNo) == T.Letter(T.NO);
      StrCmpEqual(env.str(foo), env.str(ConstNo));
    }
  }

  /** The dependency of the entry becomes itself. */
  lemma UndefinedDep(notYes: Expr, test: Expr, a: Symbol, foo: Symbol)
    requires a == Config("A", Tri) && foo == Config("FOO", Unknown)
    requires notYes == Comp(UNEQUAL, a, ConstYes) && test == Comp(UNEQUAL, foo, ConstNo)
    ensures SimpleTest(Some(Bin(AND, notYes, test))) == Bin(AND, notYes, test)
  {
    var dep := Bin(AND, notYes, test);
    var t := Not(Bin(OR, Not(notYes), Not(test)));
    UndefinedCompared(notYes, test);
    UndefinedTransforms(notYes, test);
    hide Transform, TransCompare, Dups;
    NothingToJoin(notYes, test);
  }

  lemma UndefinedCompared(l: Expr, r: Expr)
    requires l.Comp? && r.Comp?
    ensures TransCompare(Bin(AND, l, r), false, ConstNo) == Not(Bin(OR, Not(l), Not(r)))
  {
  }

  /** Two negations of two comparisons. */
  lemma UndefinedTransforms(l: Expr, r: Expr)
    requires l.Comp? && r.Comp? && l.rel == UNEQUAL && r.rel == UNEQUAL
    requires l.lsym.Type() != Boolean && r.lsym.Type() != Boolean
    ensures Transform(Not(Bin(OR, Not(l), Not(r)))) == Bin(AND, l, r)
  {
    var nl, nr := Comp(EQUAL, l.lsym, l.rsym), Comp(EQUAL, r.lsym, r.rsym);
    NegatedTest(l);
    NegatedTest(r);
    NegatedTest(nl);
    NegatedTest(nr);
    hide BoolTest;
    assert Transform(Bin(OR, Not(l), Not(r))) == Bin(OR, nl, nr);
    assert Transform(PushNot(OR, nl, nr)) == Bin(AND, l, r);
  }

  lemma NegatedTest(e: Expr)
    requires e.Comp? && e.lsym.Type() != Boolean
    ensures Transform(Not(e)) == Comp(Negated(e.rel), e.lsym, e.rsym)
  {
  }

  lemma UndefinedBase(foo: Symbol)
    requires foo.Type() != Boolean
    ensures SimpleTest(Some(Sym(foo))) == Comp(UNEQUAL, foo, ConstNo)
  {
  }

  /** The parent's test is among those of the entry. */
  lemma UndefinedTests(notYes: Expr, test: Expr, a: Symbol, foo: Symbol)
    requires a == Config("A", Tri) && foo == Config("FOO", Unknown)
    requires notYes == Comp(UNEQUAL, a, ConstYes) && test == Comp(UNEQUAL, foo, ConstNo)
    ensures Superset(Bin(AND, notYes, test), Some(Sym(foo)))
  {
    var dep := Bin(AND, notYes, test);
    UndefinedDep(notYes, test, a, foo);
    UndefinedBase(foo);
    OneUsedUp(notYes, test);
    hide SimpleTest;
  }

  /** The second test is used up. */
  lemma OneUsedUp(l: Expr, r: Expr)
    requires l.Comp? && r.Comp? && l != r
    ensures EliminateEq(Bin(AND, l, r), r).1 == Sym(ConstYes)
  {
    assert EliminateLeaves(AND, l, r) == (l, r);
    assert EliminateLeaves(AND, r, r) == (Sym(ConstYes), Sym(ConstYes));
    assert EliminateLeaves(AND, Bin(AND, l, r), r) == (Bin(AND, l, Sym(ConstYes)), Sym(ConstYes));
    hide EliminateLeaves;
  }
}
