/**
 What is calculated on the way to a symbol, and the values of a program whose
 `modules_val` changes in between (`sym_clear_all_valid` and `sym_calc_value`
 of `symbol.c`, `conf_read` of `confdata.c`).
 */
module Eras {
  import opened Wrappers
  import opened Expressions
  import opened SymbolValues
  import opened ModulesSwitch
  import T = Tristates

  // ----- what is calculated on the way

  /** The calculation of x calculates y. */
  ghost predicate Reaches(c: Setup, a: Assignment, rank: Ranking, x: Symbol, y: Symbol)
    decreases rank(x)
  {
    || y == x
    || (Calculated(x)
        && exists r :: r in Consulted(c, x, EnvOf(a)) && rank(r) < rank(x) && Reaches(c, a, rank, r, y))
  }

  lemma ConsultedIsLower(c: Setup, rank: Ranking, s: Symbol, env: Env)
    requires Acyclic(c.table, rank)
    ensures forall r :: r in Consulted(c, s, env) ==> rank(r) < rank(s)
  {
    ConsultedIsRead(c, s, env);
  }

  /** What is reached has been calculated from what is reached. */
  lemma {:induction false} ReachedIsClosed(c: Setup, a: Assignment, rank: Ranking, x: Symbol, y: Symbol, r: Symbol)
    requires Acyclic(c.table, rank) && Reaches(c, a, rank, x, y) && Calculated(y) && r in Consulted(c, y, EnvOf(a))
    ensures Reaches(c, a, rank, x, r)
    decreases rank(x)
  {
    hide Consulted, EnvOf;
    if y == x {
      ConsultedIsLower(c, rank, x, EnvOf(a));
      assert Reaches(c, a, rank, r, r);
    } else {
      var z :| z in Consulted(c, x, EnvOf(a)) && rank(z) < rank(x) && Reaches(c, a, rank, z, y);
      ReachedIsClosed(c, a, rank, z, y, r);
    }
  }

  /** It is the least such set with x. */
  lemma {:induction false} ReachedIsLeast(c: Setup, a: Assignment, rank: Ranking, known: Symbol -> bool, x: Symbol,
      y: Symbol)
    requires Closed(c, a, known) && known(x) && Reaches(c, a, rank, x, y)
    ensures known(y)
    decreases rank(x)
  {
    hide Consulted, EnvOf;
    if y != x {
      var z :| z in Consulted(c, x, EnvOf(a)) && rank(z) < rank(x) && Reaches(c, a, rank, z, y);
      ReachedIsLeast(c, a, rank, known, z, y);
    }
  }

  /** The symbols that are reached, as a function. */
  ghost function ReachedFrom(c: Setup, a: Assignment, rank: Ranking, x: Symbol): Symbol -> bool {
    (y: Symbol) => Reaches(c, a, rank, x, y)
  }

  lemma ReachedFromIsClosed(c: Setup, a: Assignment, rank: Ranking, x: Symbol)
    requires Acyclic(c.table, rank)
    ensures Closed(c, a, ReachedFrom(c, a, rank, x))
  {
    hide Consulted, Calculated, EnvOf, Reaches;
    var known := ReachedFrom(c, a, rank, x);
    forall y, r | known(y) && Calculated(y) && r in Consulted(c, y, EnvOf(a)) ensures known(r) {
      ReachedIsClosed(c, a, rank, x, y, r);
    }
  }

  // ----- different setups for the same symbols

  /** The two setups say the same about s. */
  predicate SameAt(c: Setup, c': Setup, s: Symbol) {
    c'.table == c.table && c'.user == c.user && c'.modules(s) == c.modules(s)
  }

  lemma SameAtSameLimits(c: Setup, c': Setup, s: Symbol, a: Assignment)
    requires SameAt(c, c', s)
    ensures SameLimits(c, a, c', a, s)
  {
    hide Def, BestPrompt, CalcOpt, Calc, EnvOf;
  }

  lemma SameAtSameState(c: Setup, c': Setup, s: Symbol, a: Assignment)
    requires SameAt(c, c', s)
    ensures SameState(c, a, c', a, s)
  {
    SameAtSameLimits(c, c', s, a);
    hide Visible, DirDep, RevDep, Implied, FirstDefault, Def, CalcOpt, Calc, EnvOf;
  }

  lemma SameAtSameConsulted(c: Setup, c': Setup, s: Symbol, env: Env)
    requires SameAt(c, c', s)
    ensures Consulted(c, s, env) == Consulted(c', s, env)
  {
    hide Calc, CalcOpt, BestPrompt, FirstDefault, DefaultsConsulted, ValueConsulted, OptSymbols, PromptsSymbols;
  }

  /** Setups that agree on what has been calculated from each other give it the same values. */
  lemma {:induction false} ClosedKeeps(c: Setup, a: Assignment, c': Setup, b: Assignment, rank: Ranking,
      known: Symbol -> bool, s: Symbol)
    requires Acyclic(c.table, rank) && Solves(c, a) && Solves(c', b) && Closed(c, a, known) && known(s)
    requires forall x :: known(x) ==> SameAt(c, c', x)
    ensures a(s) == b(s)
    decreases rank(s)
  {
    assert a(s) == Compute(c, s, a) && b(s) == Compute(c', s, b);
    hide Compute, Consulted, EnvOf, Solves, Acyclic;
    if Calculated(s) {
      ConsultedIsLower(c, rank, s, EnvOf(a));
      forall r | r in Consulted(c, s, EnvOf(a)) ensures a(r) == b(r) {
        ClosedKeeps(c, a, c', b, rank, known, r);
      }
      ConsultedSuffices(c, s, a, b);
      SameAtSameState(c, c', s, b);
    } else {
      FixedValues(c, s, a, c', b);
    }
  }

  lemma FixedValues(c: Setup, s: Symbol, a: Assignment, c': Setup, b: Assignment)
    requires !Calculated(s)
    ensures Compute(c, s, a) == Compute(c', s, b)
  {
  }

  // ----- modules_val changes after modules_sym has been calculated

  /** The known symbols keep their `modules_val`, and all others have a new one. */
  function Split(known: Symbol -> bool, before: Symbol -> Tristate, after: Tristate): Symbol -> Tristate {
    (s: Symbol) => if known(s) then before(s) else after
  }

  /** What was calculated on the way to m keeps the old `modules_val`; the rest follows m. */
  ghost function Mixed(c: Setup, rank: Ranking, m: Symbol): Setup {
    var a := Solution(c, rank);
    c.(modules := Split(ReachedFrom(c, a, rank, m), c.modules, a(m).tri))
  }

  lemma MixedAt(c: Setup, rank: Ranking, m: Symbol, s: Symbol)
    ensures Reaches(c, Solution(c, rank), rank, m, s) ==> SameAt(c, Mixed(c, rank, m), s)
    ensures !Reaches(c, Solution(c, rank), rank, m, s) ==>
      SameAt(With(c, Solution(c, rank)(m).tri), Mixed(c, rank, m), s)
  {
    hide Solution, Reaches;
  }

  lemma MixedTable(c: Setup, rank: Ranking, m: Symbol)
    ensures Mixed(c, rank, m).table == c.table
  {
  }

  /** On the way to m nothing has changed. */
  lemma MixedKeeps(c: Setup, rank: Ranking, m: Symbol, s: Symbol)
    requires Acyclic(c.table, rank) && Reaches(c, Solution(c, rank), rank, m, s)
    ensures Solution(Mixed(c, rank, m), rank)(s) == Solution(c, rank)(s)
  {
    hide Solution, Acyclic, Reaches, Closed, Solves;
    SolutionSolves(c, rank);
    SolutionSolves(Mixed(c, rank, m), rank);
    ReachedFromIsClosed(c, Solution(c, rank), rank, m);
    ClosedKeeps(c, Solution(c, rank), Mixed(c, rank, m), Solution(Mixed(c, rank, m), rank), rank,
      ReachedFrom(c, Solution(c, rank), rank, m), s);
  }

  /** One `modules_val` before, and another one if m is worth something else. */
  function SideOn(c: Setup, m: Symbol, after: Tristate): Setup {
    if c.modules(m) != T.NO then c else With(c, after)
  }

  /**
   What was calculated on the way to m, under the old `modules_val`, is right
   under the new one as well: it is on the same side, or no tristate among it
   is worth `m`, or limited to it, with modules.
   */
  ghost predicate Survives(c: Setup, rank: Ranking, m: Symbol) {
    var a := Solution(c, rank);
    var on := SideOn(c, m, a(m).tri);
    SameSide(c.modules(m), a(m).tri)
    || forall s :: Reaches(c, a, rank, m, s) ==> !ShowsMod(on, s, Solution(on, rank))
  }

  /** The setup behind the values of a program that has calculated `modules_sym`. */
  ghost function After(c: Setup, rank: Ranking, modulesSym: Option<Symbol>): Setup {
    match modulesSym
    case None => c
    case Some(m) => if Survives(c, rank, m) then With(c, Solution(c, rank)(m).tri) else Mixed(c, rank, m)
  }

  /** Only the sides on which symbols are calculated matter. */
  lemma SidesSuffice(c: Setup, c': Setup, rank: Ranking)
    requires Acyclic(c.table, rank) && c'.table == c.table && c'.user == c.user
    requires forall s :: SameSide(c.modules(s), c'.modules(s))
    ensures forall s :: Solution(c, rank)(s) == Solution(c', rank)(s)
  {
    var a := Solution(c, rank);
    SolutionSolves(c, rank);
    SolutionSolves(c', rank);
    hide Compute, Solution, Acyclic;
    forall s ensures a(s) == Compute(c', s, a) {
      SameSideSameState(c, c'.modules(s), s, a);
      SameAtSameState(With(c, c'.modules(s)), c', s, a);
    }
    SolutionIsUnique(c', rank, a, Solution(c', rank));
  }

  /** On the other side, what survives is known not to show `m`. */
  lemma SurvivorsAreKnown(c: Setup, rank: Ranking, m: Symbol, s: Symbol)
    requires Acyclic(c.table, rank) && c.modules == Always(c.modules(m)) && Survives(c, rank, m)
    requires !SameSide(c.modules(m), Solution(c, rank)(m).tri)
    requires Reaches(c, Solution(c, rank), rank, m, s)
    ensures Unmoved(SideOn(c, m, Solution(c, rank)(m).tri), rank, s)
  {
    hide Solution, Acyclic, Reaches, ShowsMod, Closed, Unmoved;
    var a := Solution(c, rank);
    var on := SideOn(c, m, a(m).tri);
    var known := ReachedFrom(c, a, rank, m);
    ReachedFromIsClosed(c, a, rank, m);
    assert c == With(c, c.modules(m));
    assert known(s) && forall x :: known(x) ==> !ShowsMod(on, x, Solution(on, rank));
    KnownUnmoved(on, rank, known, s);
  }

  /** On the way to m, values that survive are those with the new `modules_val`. */
  lemma SurvivorsStay(c: Setup, rank: Ranking, m: Symbol, s: Symbol)
    requires Acyclic(c.table, rank) && c.modules == Always(c.modules(m)) && Survives(c, rank, m)
    requires Reaches(c, Solution(c, rank), rank, m, s)
    ensures Solution(With(c, Solution(c, rank)(m).tri), rank)(s) == Solution(c, rank)(s)
  {
    hide Solution, Acyclic, Reaches, Survives, SameState, Calculated;
    var m1 := Solution(c, rank)(m).tri;
    if SameSide(c.modules(m), m1) {
      SidesSuffice(c, With(c, m1), rank);
    } else {
      SurvivorsAreKnown(c, rank, m, s);
      assert c == With(c, c.modules(m));
    }
  }

  /** The values afterwards are the mixed ones, whether or not the old ones survive. */
  lemma AfterIsMixed(c: Setup, rank: Ranking, m: Symbol)
    requires Acyclic(c.table, rank) && c.modules == Always(c.modules(m))
    ensures forall s :: Solution(After(c, rank, Some(m)), rank)(s) == Solution(Mixed(c, rank, m), rank)(s)
  {
    hide Solution, Acyclic, Reaches, Survives, Compute;
    if Survives(c, rank, m) {
      var b, mixed := Solution(With(c, Solution(c, rank)(m).tri), rank), Mixed(c, rank, m);
      forall s ensures b(s) == Compute(mixed, s, b) {
        SurvivorsSolveMixed(c, rank, m, s, b);
      }
      SolutionSolves(mixed, rank);
      SolutionIsUnique(mixed, rank, b, Solution(mixed, rank));
    }
  }

  lemma SurvivorsSolveMixed(c: Setup, rank: Ranking, m: Symbol, s: Symbol, b: Assignment)
    requires Acyclic(c.table, rank) && c.modules == Always(c.modules(m)) && Survives(c, rank, m)
    requires b == Solution(With(c, Solution(c, rank)(m).tri), rank)
    ensures b(s) == Compute(Mixed(c, rank, m), s, b)
  {
    var on, mixed := With(c, Solution(c, rank)(m).tri), Mixed(c, rank, m);
    SolutionSolves(on, rank);
    assert b(s) == Compute(on, s, b);
    hide Solution, Acyclic, Reaches, Survives, Compute, Solves;
    if Reaches(c, Solution(c, rank), rank, m, s) {
      SurvivorSolves(c, rank, m, s, b);
      SameAtSameState(c, mixed, s, b);
    } else {
      SameAtSameState(on, mixed, s, b);
    }
  }

  lemma SurvivorSolves(c: Setup, rank: Ranking, m: Symbol, s: Symbol, b: Assignment)
    requires Acyclic(c.table, rank) && c.modules == Always(c.modules(m)) && Survives(c, rank, m)
    requires b == Solution(With(c, Solution(c, rank)(m).tri), rank) && Reaches(c, Solution(c, rank), rank, m, s)
    ensures b(s) == Compute(c, s, b)
  {
    var a := Solution(c, rank);
    SolutionSolves(c, rank);
    assert a(s) == Compute(c, s, a);
    SurvivorsStay(c, rank, m, s);
    hide Solution, Acyclic, Survives, Compute, Consulted, EnvOf, Reaches;
    if Calculated(s) {
      forall r | r in Consulted(c, s, EnvOf(a)) ensures a(r) == b(r) {
        ReachedIsClosed(c, a, rank, m, s, r);
        SurvivorsStay(c, rank, m, r);
      }
      ConsultedSuffices(c, s, a, b);
    } else {
      FixedValues(c, s, a, c, b);
    }
  }

  /** A value is the same with and without modules exactly if it is not a tristate's `m`. */
  lemma ValueSwitch(on: Setup, s: Symbol, a: Assignment)
    requires on.modules(s) != T.NO
    ensures Compute(on, s, a) == Compute(With(on, T.NO), s, a) <==> !(s.Type() == Tri && Compute(on, s, a).tri == T.MOD)
  {
    SwitchLimits(on, s, a);
    hide Visible, DirDep, RevDep, Implied, DefaultTri, UserApplies, FirstDefault, EnvOf;
  }

  /** Without modules no bool and no tristate is `m`, so its string is read without a look at `modules_sym`. */
  lemma NoModWithoutModules(c: Setup, a: Assignment, s: Symbol)
    requires Solves(c, a) && s.Logical() && c.modules(s) == T.NO
    ensures a(s).tri != T.MOD
  {
    assert a(s) == Compute(c, s, a);
    hide Visible, DirDep, RevDep, Implied, DefaultTri, UserApplies, FirstDefault, EnvOf, Solves;
  }
}
