/**
 Two runs in which a VALID symbol keeps a value that it should not have any
 more (`sym_set_tristate_value` of `symbol.c`).
 */
module SymbolRuns {
  import opened Wrappers
  import opened Expressions
  import opened SymbolValues
  import opened ModulesSwitch
  import opened Eras
  import opened SymbolMarks
  import opened MarksAfter
  import opened SymbolCache
  import T = Tristates

  // ----- switching modules on

  /** The new value is accepted: S is visible, is `n` and nothing selects it. */
  lemma StaleBefore(syms: Symbols)
    requires syms.Valid() && syms.State(StaleS()).valid
    requires syms.PlainSetup() == StaleSetup(T.NO, T.NO)
    ensures syms.State(StaleS()).curr.tri == T.NO && syms.modulesVal == T.NO
    ensures WithinRange(syms.State(StaleS()), StaleS(), T.YES, T.NO)
  {
    hide Symbols.Valid, Solves, LimitsAre, Acyclic, StaleSetup, Symbols.PlainSetup, WithinRange;
    StaleUser();
    syms.LimitsOf(StaleS());
    syms.SolvedNow();
    StaleEquations(T.NO, T.NO, syms.sol);
    StaleWithin(syms.State(StaleS()), syms.sol);
    OneModules(syms, T.NO);
  }

  lemma OneModules(syms: Symbols, v: Tristate)
    requires syms.PlainSetup().modules == Always(v)
    ensures syms.modulesVal == v
  {
    assert Always(syms.modulesVal)(ConstNo) == Always(v)(ConstNo);
  }

  lemma StaleWithin(st: SymbolState, a: Assignment)
    requires Solves(StaleSetup(T.NO, T.NO), a) && LimitsAre(st, StaleSetup(T.NO, T.NO), StaleS(), EnvOf(a))
    ensures WithinRange(st, StaleS(), T.YES, T.NO)
  {
    StaleEquations(T.NO, T.NO, a);
    hide Solves, StaleSetup, EnvOf, Visible, RevDep, Implied, DirDep;
  }

  /** T is on the way to MODULES, and would be `m` with modules. */
  lemma StaleDoesNotSurvive(rank: Ranking)
    requires StaleRanks(rank)
    ensures var c := StaleSetup(T.YES, T.NO);
            && !Survives(c, rank, StaleModules()) && OnTheWay(c, rank, Some(StaleModules()))(StaleT())
            && Solution(c, rank)(StaleModules()).tri == T.YES && Solution(c, rank)(StaleT()).tri == T.YES
            && Solution(StaleSetup(T.YES, T.YES), rank)(StaleT()).tri == T.MOD
  {
    var c := StaleSetup(T.YES, T.NO);
    hide Solution, ShowsMod, Consulted, Acyclic, EnvOf;
    StaleValues(T.YES, rank);
    StaleUser();
    assert Reaches(c, Solution(c, rank), rank, StaleT(), StaleT());
    assert Reaches(c, Solution(c, rank), rank, StaleModules(), StaleT());
    assert SideOn(c, StaleModules(), T.YES) == StaleSetup(T.YES, T.YES);
  }

  lemma StaleUser()
    ensures WithUser(StaleSetup(T.NO, T.NO), StaleS(), T.YES) == StaleSetup(T.YES, T.NO)
    ensures With(StaleSetup(T.YES, T.NO), T.YES) == StaleSetup(T.YES, T.YES)
    ensures StaleSetup(T.NO, T.NO).modules == Always(T.NO)
  {
    assert StaleSetup(T.NO, T.NO).user[StaleS() := Value(T.YES, "")] == StaleSetup(T.YES, T.NO).user;
  }

  lemma StaleIsValid(syms: Symbols)
    requires syms.OnTheWayDone(StaleSetup(T.YES, T.NO)) && syms.modulesSym == Some(StaleModules())
    requires OnTheWay(StaleSetup(T.YES, T.NO), syms.rank, Some(StaleModules()))(StaleT())
    ensures syms.State(StaleT()).valid
    ensures syms.State(StaleT()).curr == Solution(StaleSetup(T.YES, T.NO), syms.rank)(StaleT())
    ensures syms.modulesVal == Solution(StaleSetup(T.YES, T.NO), syms.rank)(StaleModules()).tri
  {
    hide Solution, OnTheWay, StaleSetup, Symbols.Started, RightMarks;
    RightMark(syms.Marked(), StaleSetup(T.YES, T.NO), Solution(StaleSetup(T.YES, T.NO), syms.rank), StaleT());
  }

  /**
   A run in which a value does not survive: setting S switches modules on, and
   T stays VALID with a value that it does not have with modules.
   */
  method StaleExample(syms: Symbols) returns (ok: bool)
    requires syms.Valid() && syms.State(StaleS()).valid && syms.modulesSym == Some(StaleModules())
    requires syms.PlainSetup() == StaleSetup(T.NO, T.NO) && StaleRanks(syms.rank)
    modifies syms
    ensures ok && syms.modulesVal == T.YES && syms.Consistent() && !syms.Current()
    ensures syms.State(StaleT()).valid && syms.State(StaleT()).curr.tri == T.YES
    ensures Solution(StaleSetup(T.YES, T.YES), syms.rank)(StaleT()).tri == T.MOD
  {
    hide Symbols.Valid, Symbols.Consistent, Symbols.Current, Symbols.OnTheWayDone, WithinRange, Solution, StaleRanks,
      Def, Survives, OnTheWay, After;
    StaleBefore(syms);
    StaleUser();
    hide StaleSetup, WithUser;
    ok := syms.SetTristateValue(StaleS(), T.YES);
    StaleDoesNotSurvive(syms.rank);
    StaleIsValid(syms);
  }

  // ----- setting the value that is shown already

  function LimitedSymbol(): Symbol {
    Symbol.Config("L", Tri)
  }

  /** A tristate that is visible up to `m` and has the default `y`. */
  function LimitedSetup(user: UserValues): Setup {
    Setup(map[LimitedSymbol() := Definition([Some(Sym(ConstMod))], [Default(Sym(ConstYes), None)], None, None, None)],
      user, Always(T.YES))
  }

  lemma LimitedEquations(user: UserValues, a: Assignment)
    requires Solves(LimitedSetup(user), a)
    ensures var s, c, env := LimitedSymbol(), LimitedSetup(user), EnvOf(a);
            && Visible(c, s, env) == T.MOD && RevDep(c, s, env) == T.NO && Implied(c, s, env) == T.NO
            && a(s).tri == (if s in user then T.And(user[s].tri, T.MOD) else T.YES)
  {
    var s, c, env := LimitedSymbol(), LimitedSetup(user), EnvOf(a);
    var d := Def(c.table, s);
    assert a(s) == Compute(c, s, a) && a(ConstMod) == Compute(c, ConstMod, a) && a(ConstYes) == Compute(c, ConstYes, a);
    assert BestPrompt(d.prompts[..0], env) == T.NO;
    assert FirstDefault(d.defaults, env) == Some(d.defaults[0]);
  }

  /** Without a value from the user the symbol shows `y`, but the user's `y` does not fit. */
  lemma LimitedDoesNotFit(st: SymbolState, a: Assignment)
    requires Solves(LimitedSetup(map[]), a) && LimitsAre(st, LimitedSetup(map[]), LimitedSymbol(), EnvOf(a))
    ensures a(LimitedSymbol()).tri == T.YES && !Fits(st, LimitedSymbol(), T.YES, T.YES)
  {
    LimitedEquations(map[], a);
    hide Solves, EnvOf, LimitedSetup, Visible, RevDep, Implied, DirDep;
  }

  /** Its value is accepted as the old one, stays VALID, and is not what a recalculation gives. */
  method LimitedExample(syms: Symbols) returns (ok: bool)
    requires syms.Valid() && syms.State(LimitedSymbol()).valid && syms.PlainSetup() == LimitedSetup(map[])
    modifies syms
    ensures ok && !syms.Current() && syms.State(LimitedSymbol()).valid && syms.State(LimitedSymbol()).curr.tri == T.YES
    ensures Solution(syms.PlainSetup(), syms.rank)(LimitedSymbol()).tri == T.MOD
  {
    hide Symbols.Valid, Symbols.Current, Symbols.Consistent, Solves, Acyclic, LimitsAre, Fits, WithinRange, Solution;
    LimitedBefore(syms);
    syms.SolvedNow();
    ok := syms.SetTristateValue(LimitedSymbol(), T.YES);
    SolutionSolves(syms.PlainSetup(), syms.rank);
    LimitedEquations(syms.user, Solution(syms.PlainSetup(), syms.rank));
  }

  lemma LimitedBefore(syms: Symbols)
    requires syms.Valid() && syms.State(LimitedSymbol()).valid && syms.PlainSetup() == LimitedSetup(map[])
    ensures syms.State(LimitedSymbol()).curr.tri == T.YES
    ensures !Fits(syms.State(LimitedSymbol()), LimitedSymbol(), T.YES, T.YES)
  {
    hide Symbols.Valid, Symbols.PlainSetup, Solves, LimitsAre, Acyclic, LimitedSetup, Fits;
    syms.LimitsOf(LimitedSymbol());
    syms.SolvedNow();
    LimitedDoesNotFit(syms.State(LimitedSymbol()), syms.sol);
  }
}
