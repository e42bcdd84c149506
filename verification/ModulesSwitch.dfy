/**
 What `modules_val` means for the values of symbols (`symbol.c`), and which
 values survive when it changes.
 */
module ModulesSwitch {
  import opened Wrappers
  import opened Expressions
  import opened SymbolValues
  import T = Tristates

  // ----- what a calculation really looks at

  /** The conditions that `sym_get_default_prop` evaluates. */
  function DefaultsConsulted(ds: seq<Default>, env: Env): set<Symbol> {
    if ds == [] then {}
    else OptSymbols(ds[0].cond) + if CalcOpt(ds[0].cond, env) != T.NO then {} else DefaultsConsulted(ds[1..], env)
  }

  /** The symbols in the value of a default. */
  function ValueConsulted(s: Symbol, d: Option<Default>): set<Symbol> {
    if d == None then {}
    else if s.Logical() then SymbolsOf(d.value.expr)
    else if d.value.expr.Sym? then {d.value.expr.sym}
    else {}
  }

  /** The symbols that `sym_calc_visibility` evaluates for s: those of an `imply` only if it can take effect. */
  function LimitsConsulted(c: Setup, s: Symbol, env: Env): set<Symbol> {
    var d := Def(c.table, s);
    PromptsSymbols(d.prompts) + OptSymbols(d.dirDep) + OptSymbols(d.revDep)
    + if DirDep(c, s, env) != T.NO then OptSymbols(d.implied) else {}
  }

  /** The symbols that the default of s is evaluated from, unless the user's value applies. */
  function DefaultConsulted(c: Setup, s: Symbol, env: Env): set<Symbol> {
    var ds := Def(c.table, s).defaults;
    if UserApplies(c, s, env) then {} else DefaultsConsulted(ds, env) + ValueConsulted(s, FirstDefault(ds, env))
  }

  /** The symbols that `sym_calc_value` evaluates for s. */
  function Consulted(c: Setup, s: Symbol, env: Env): set<Symbol> {
    LimitsConsulted(c, s, env) + DefaultConsulted(c, s, env)
  }

  lemma {:induction false} DefaultsConsultedAgree(ds: seq<Default>, a: Assignment, b: Assignment)
    requires Agree(a, b, DefaultsConsulted(ds, EnvOf(a)))
    ensures FirstDefault(ds, EnvOf(a)) == FirstDefault(ds, EnvOf(b))
    ensures var d := FirstDefault(ds, EnvOf(a)); d.Some? ==> OptSymbols(d.value.cond) <= DefaultsConsulted(ds, EnvOf(a))
  {
    if ds != [] {
      AgreeOnOpt(ds[0].cond, a, b);
      if CalcOpt(ds[0].cond, EnvOf(a)) == T.NO {
        DefaultsConsultedAgree(ds[1..], a, b);
      }
    }
  }

  lemma {:induction false} DefaultsConsultedRead(ds: seq<Default>, env: Env)
    ensures DefaultsConsulted(ds, env) <= DefaultsSymbols(ds)
    ensures var d := FirstDefault(ds, env); d.Some? ==> SymbolsOf(d.value.expr) <= DefaultsSymbols(ds)
  {
    if ds != [] {
      DefaultsConsultedRead(ds[1..], env);
    }
  }

  lemma ConsultedIsRead(c: Setup, s: Symbol, env: Env)
    ensures Consulted(c, s, env) <= Reads(Def(c.table, s))
  {
    DefaultsConsultedRead(Def(c.table, s).defaults, env);
  }

  /** Value, limits and SYMBOL_WRITE of a symbol are the same in both setups and assignments. */
  predicate SameState(c: Setup, a: Assignment, c': Setup, b: Assignment, s: Symbol) {
    && SameLimits(c, a, c', b, s)
    && Compute(c, s, a) == Compute(c', s, b)
    && (Writes(c, s, EnvOf(a)) <==> Writes(c', s, EnvOf(b)))
  }

  predicate SameLimits(c: Setup, a: Assignment, c': Setup, b: Assignment, s: Symbol) {
    && Visible(c, s, EnvOf(a)) == Visible(c', s, EnvOf(b)) && DirDep(c, s, EnvOf(a)) == DirDep(c', s, EnvOf(b))
    && RevDep(c, s, EnvOf(a)) == RevDep(c', s, EnvOf(b)) && Implied(c, s, EnvOf(a)) == Implied(c', s, EnvOf(b))
  }

  lemma LimitsAgree(c: Setup, s: Symbol, a: Assignment, b: Assignment)
    requires Agree(a, b, Consulted(c, s, EnvOf(a)))
    ensures SameLimits(c, a, c, b, s)
  {
    var d := Def(c.table, s);
    AgreeOnPrompts(d.prompts, a, b);
    AgreeOnOpt(d.dirDep, a, b);
    AgreeOnOpt(d.revDep, a, b);
    if DirDep(c, s, EnvOf(a)) != T.NO {
      AgreeOnOpt(d.implied, a, b);
    }
  }

  /** Nothing else matters: two assignments that agree there give the symbol the same state. */
  lemma ConsultedSuffices(c: Setup, s: Symbol, a: Assignment, b: Assignment)
    requires Calculated(s) && Agree(a, b, Consulted(c, s, EnvOf(a)))
    ensures SameState(c, a, c, b, s)
  {
    hide Def, EnvOf, Calc, RoundBool, Consulted;
    LimitsAgree(c, s, a, b);
    if !UserApplies(c, s, EnvOf(a)) {
      DefaultAgrees(c, s, a, b);
    }
    hide Visible, DirDep, RevDep, Implied, FirstDefault, DefaultTri, Consulted, EnvOf;
  }

  /** The default, where it is looked at. */
  lemma DefaultAgrees(c: Setup, s: Symbol, a: Assignment, b: Assignment)
    requires Agree(a, b, Consulted(c, s, EnvOf(a))) && !UserApplies(c, s, EnvOf(a))
    ensures var d := FirstDefault(Def(c.table, s).defaults, EnvOf(a));
            && d == FirstDefault(Def(c.table, s).defaults, EnvOf(b))
            && (s.Logical() ==> DefaultTri(c, s, EnvOf(a)) == DefaultTri(c, s, EnvOf(b)))
            && (!s.Logical() && DefaultSymbol(d).Some? ==> a(DefaultSymbol(d).value) == b(DefaultSymbol(d).value))
  {
    var ds := Def(c.table, s).defaults;
    assert DefaultsConsulted(ds, EnvOf(a)) + ValueConsulted(s, FirstDefault(ds, EnvOf(a))) <= Consulted(c, s, EnvOf(a));
    hide Consulted, UserApplies;
    DefaultsConsultedAgree(ds, a, b);
    var d := FirstDefault(ds, EnvOf(a));
    if d.Some? {
      AgreeOnOpt(d.value.cond, a, b);
      if s.Logical() {
        AgreeOnExpr(d.value.expr, a, b);
      }
    }
    hide FirstDefault, DefaultsConsulted, EnvOf, Calc, CalcOpt;
  }

  lemma {:induction false} SameDefaultsConsulted(ds: seq<Default>, a: Assignment, b: Assignment)
    requires Agree(a, b, DefaultsConsulted(ds, EnvOf(a)))
    ensures DefaultsConsulted(ds, EnvOf(a)) == DefaultsConsulted(ds, EnvOf(b))
  {
    if ds != [] {
      AgreeOnOpt(ds[0].cond, a, b);
      if CalcOpt(ds[0].cond, EnvOf(a)) == T.NO {
        SameDefaultsConsulted(ds[1..], a, b);
      }
    }
  }

  /** Then the same symbols are consulted. */
  lemma SameConsulted(c: Setup, s: Symbol, a: Assignment, b: Assignment)
    requires Agree(a, b, Consulted(c, s, EnvOf(a)))
    ensures Consulted(c, s, EnvOf(a)) == Consulted(c, s, EnvOf(b))
  {
    hide Visible, DirDep, RevDep, Implied, FirstDefault, DefaultTri, DefaultsConsulted, ValueConsulted, EnvOf, Def,
      PromptsSymbols, OptSymbols;
    LimitsAgree(c, s, a, b);
    if !UserApplies(c, s, EnvOf(a)) {
      DefaultAgrees(c, s, a, b);
      SameDefaultsConsulted(Def(c.table, s).defaults, a, b);
    }
  }

  // ----- the two sides of the switch

  /** Only whether `modules_val` is `n` matters. */
  predicate SameSide(m: Tristate, m': Tristate) {
    (m == T.NO) == (m' == T.NO)
  }

  function With(c: Setup, m: Tristate): Setup {
    c.(modules := Always(m))
  }

  /** Every symbol is calculated with modules. */
  ghost predicate AllOn(c: Setup) {
    forall s :: c.modules(s) != T.NO
  }

  lemma SameSideLimits(c: Setup, m: Tristate, s: Symbol, a: Assignment)
    requires SameSide(c.modules(s), m)
    ensures SameLimits(c, a, With(c, m), a, s)
  {
    hide Def, BestPrompt, CalcOpt, Calc, EnvOf;
  }

  lemma SameSideSameState(c: Setup, m: Tristate, s: Symbol, a: Assignment)
    requires SameSide(c.modules(s), m)
    ensures SameState(c, a, With(c, m), a, s)
  {
    SameSideLimits(c, m, s, a);
    hide Visible, DirDep, RevDep, Implied, FirstDefault, Def, CalcOpt, Calc, EnvOf;
  }

  lemma SameSideConsulted(c: Setup, m: Tristate, s: Symbol, env: Env)
    requires SameSide(c.modules(s), m)
    ensures Consulted(c, s, env) == Consulted(With(c, m), s, env)
  {
  }

  /** With modules, the tristate is worth `m` or limited to it. */
  predicate ShowsMod(c: Setup, s: Symbol, a: Assignment) {
    && s.Type() == Tri
    && (Visible(c, s, EnvOf(a)) == T.MOD || DirDep(c, s, EnvOf(a)) == T.MOD || RevDep(c, s, EnvOf(a)) == T.MOD
        || Implied(c, s, EnvOf(a)) == T.MOD || Compute(c, s, a).tri == T.MOD)
  }

  lemma SwitchLimits(on: Setup, s: Symbol, a: Assignment)
    requires on.modules(s) != T.NO
    ensures var off, env := With(on, T.NO), EnvOf(a);
            && DefaultTri(on, s, env) == DefaultTri(off, s, env)
            && (UserApplies(on, s, env) <==> UserApplies(off, s, env))
            && (DirDep(on, s, env) != T.NO <==> DirDep(off, s, env) != T.NO)
            && (s.Type() != Tri ==> SameLimits(on, a, off, a, s))
            && (s.Type() == Tri ==>
                  && Visible(off, s, env) != T.MOD && DirDep(off, s, env) != T.MOD
                  && RevDep(off, s, env) != T.MOD && Implied(off, s, env) != T.MOD)
            && (s.Type() == Tri ==>
                  && (Visible(on, s, env) != T.MOD ==> Visible(on, s, env) == Visible(off, s, env))
                  && (DirDep(on, s, env) != T.MOD ==> DirDep(on, s, env) == DirDep(off, s, env))
                  && (RevDep(on, s, env) != T.MOD ==> RevDep(on, s, env) == RevDep(off, s, env))
                  && (Implied(on, s, env) != T.MOD ==> Implied(on, s, env) == Implied(off, s, env)))
  {
    hide Calc, CalcOpt, EnvOf, BestPrompt, FirstDefault, Def;
  }

  /** The calculation looks at the same symbols on both sides. */
  lemma SwitchConsulted(on: Setup, s: Symbol, env: Env)
    requires on.modules(s) != T.NO
    ensures Consulted(on, s, env) == Consulted(With(on, T.NO), s, env)
  {
    hide Calc, CalcOpt, BestPrompt, FirstDefault, DefaultsConsulted, ValueConsulted, OptSymbols, PromptsSymbols;
  }

  /** A symbol without `m` has the same state on both sides, and without modules there is no `m`. */
  lemma SwitchOne(on: Setup, s: Symbol, a: Assignment)
    requires on.modules(s) != T.NO
    ensures !ShowsMod(With(on, T.NO), s, a)
    ensures SameState(on, a, With(on, T.NO), a, s) <==> !ShowsMod(on, s, a)
    ensures Consulted(on, s, EnvOf(a)) == Consulted(With(on, T.NO), s, EnvOf(a))
  {
    hide Visible, DirDep, RevDep, Implied, DefaultTri, UserApplies, FirstDefault, Consulted, EnvOf;
    SwitchLimits(on, s, a);
    SwitchConsulted(on, s, EnvOf(a));
  }

  /** What is known has been calculated from what is known. */
  ghost predicate Closed(c: Setup, a: Assignment, known: Symbol -> bool) {
    forall s :: known(s) && Calculated(s) ==> forall r :: r in Consulted(c, s, EnvOf(a)) ==> known(r)
  }

  /** The known symbols have the same state with and without modules. */
  ghost predicate Unmoved(on: Setup, rank: Ranking, s: Symbol) {
    var off := With(on, T.NO);
    && Solution(on, rank)(s) == Solution(off, rank)(s)
    && (Calculated(s) ==> SameState(on, Solution(on, rank), off, Solution(off, rank), s))
  }

  lemma {:induction false} KnownUnmoved(on: Setup, rank: Ranking, known: Symbol -> bool, s: Symbol)
    requires Acyclic(on.table, rank) && AllOn(on) && known(s)
    requires Closed(on, Solution(on, rank), known) || Closed(With(on, T.NO), Solution(With(on, T.NO), rank), known)
    requires forall x :: known(x) ==> !ShowsMod(on, x, Solution(on, rank))
    ensures Unmoved(on, rank, s)
    decreases rank(s)
  {
    var off := With(on, T.NO);
    var a, b := Solution(on, rank), Solution(off, rank);
    SolutionSolves(on, rank);
    SolutionSolves(off, rank);
    assert a(s) == Compute(on, s, a) && b(s) == Compute(off, s, b);
    hide Solution, Compute, SameState, Consulted, ShowsMod;
    if Calculated(s) {
      if Closed(on, a, known) {
        AllAgree(on, rank, known, s, Consulted(on, s, EnvOf(a)), a);
        UnmovedByLower(on, s, a, b);
      } else {
        SameConsultedOff(on, s, b);
        AllAgree(on, rank, known, s, Consulted(off, s, EnvOf(b)), b);
        UnmovedByLowerOff(on, s, a, b);
      }
    } else {
      FixedOnBoth(on, s, a, b);
    }
  }

  lemma SameConsultedOff(on: Setup, s: Symbol, b: Assignment)
    requires on.modules(s) != T.NO
    ensures Consulted(With(on, T.NO), s, EnvOf(b)) == Consulted(on, s, EnvOf(b))
  {
    SwitchOne(on, s, b);
  }

  /** What the calculation looks at is the same on both sides. */
  lemma UnmovedByLower(on: Setup, s: Symbol, a: Assignment, b: Assignment)
    requires on.modules(s) != T.NO && Calculated(s) && !ShowsMod(on, s, a)
    requires Agree(a, b, Consulted(on, s, EnvOf(a)))
    ensures SameState(on, a, With(on, T.NO), b, s)
  {
    hide Compute, Visible, DirDep, RevDep, Implied, Writes, Consulted, EnvOf, ShowsMod;
    SwitchOne(on, s, a);
    ConsultedSuffices(With(on, T.NO), s, a, b);
  }

  lemma UnmovedByLowerOff(on: Setup, s: Symbol, a: Assignment, b: Assignment)
    requires on.modules(s) != T.NO && Calculated(s) && !ShowsMod(on, s, a)
    requires Agree(b, a, Consulted(With(on, T.NO), s, EnvOf(b)))
    ensures SameState(on, a, With(on, T.NO), b, s)
  {
    hide Compute, Visible, DirDep, RevDep, Implied, Writes, Consulted, EnvOf, ShowsMod;
    SwitchOne(on, s, a);
    ConsultedSuffices(With(on, T.NO), s, b, a);
  }

  lemma FixedOnBoth(on: Setup, s: Symbol, a: Assignment, b: Assignment)
    requires !Calculated(s)
    ensures Compute(on, s, a) == Compute(With(on, T.NO), s, b)
  {
  }

  lemma AllAgree(on: Setup, rank: Ranking, known: Symbol -> bool, s: Symbol, ss: set<Symbol>, x: Assignment)
    requires Acyclic(on.table, rank) && AllOn(on)
    requires ss == Consulted(on, s, EnvOf(x)) && forall r :: r in ss ==> known(r)
    requires Closed(on, Solution(on, rank), known) || Closed(With(on, T.NO), Solution(With(on, T.NO), rank), known)
    requires forall x :: known(x) ==> !ShowsMod(on, x, Solution(on, rank))
    ensures Agree(Solution(on, rank), Solution(With(on, T.NO), rank), ss)
    ensures Agree(Solution(With(on, T.NO), rank), Solution(on, rank), ss)
    decreases rank(s), 0
  {
    ConsultedIsRead(on, s, EnvOf(x));
    hide Solution, Closed, ShowsMod, Consulted;
    forall r | r in ss ensures Solution(on, rank)(r) == Solution(With(on, T.NO), rank)(r) {
      KnownUnmoved(on, rank, known, r);
    }
  }

  /**
   When modules are switched on or off, what has been calculated before is
   still right exactly if no tristate among it is worth `m`, or limited to it,
   with modules on.
   */
  lemma SwitchExact(on: Setup, rank: Ranking, known: Symbol -> bool)
    requires Acyclic(on.table, rank) && AllOn(on)
    requires Closed(on, Solution(on, rank), known) || Closed(With(on, T.NO), Solution(With(on, T.NO), rank), known)
    ensures (forall s :: known(s) ==> Unmoved(on, rank, s))
            <==> (forall s :: known(s) ==> !ShowsMod(on, s, Solution(on, rank)))
  {
    var off := With(on, T.NO);
    var a, b := Solution(on, rank), Solution(off, rank);
    hide Solution, Closed, ShowsMod, SameState;
    if forall s :: known(s) ==> !ShowsMod(on, s, a) {
      forall s | known(s) ensures Unmoved(on, rank, s) {
        KnownUnmoved(on, rank, known, s);
      }
    }
    if forall s :: known(s) ==> Unmoved(on, rank, s) {
      forall s | known(s) ensures !ShowsMod(on, s, a) {
        UnmovedShowsNone(on, rank, s);
      }
    }
  }

  lemma UnmovedShowsNone(on: Setup, rank: Ranking, s: Symbol)
    requires AllOn(on) && Unmoved(on, rank, s)
    ensures !ShowsMod(on, s, Solution(on, rank))
  {
    SwitchOne(on, s, Solution(With(on, T.NO), rank));
    hide Solution, Compute, Visible, DirDep, RevDep, Implied, Writes, Consulted;
  }

  // ----- a table where a value does not survive

  function StaleS(): Symbol {
    Symbol.Config("S", Boolean)
  }

  function StaleT(): Symbol {
    Symbol.Config("T", Tri)
  }

  function StaleModules(): Symbol {
    Symbol.Config("MODULES", Boolean)
  }

  /** A bool and a tristate with prompts; modules are switched on by both; the user's values are s and `m`. */
  function StaleSetup(s: Tristate, modules: Tristate): Setup {
    var cond := Bin(AND, Sym(StaleS()), Sym(StaleT()));
    Setup(map[StaleS() := Definition([None], [], None, None, None),
              StaleT() := Definition([None], [], None, None, None),
              StaleModules() := Definition([], [Default(Sym(ConstYes), Some(cond))], None, None, None)],
          map[StaleS() := Value(s, ""), StaleT() := Value(T.MOD, "")], Always(modules))
  }

  ghost predicate StaleRanks(rank: Ranking) {
    && rank(StaleS()) < rank(StaleModules()) && rank(StaleT()) < rank(StaleModules())
    && rank(ConstYes) < rank(StaleModules())
  }

  lemma StaleAcyclic(s: Tristate, modules: Tristate, rank: Ranking)
    requires StaleRanks(rank)
    ensures Acyclic(StaleSetup(s, modules).table, rank)
  {
    var t := StaleSetup(s, modules).table;
    PromptedReads();
    var d := t[StaleModules()].defaults[0];
    DefaultReads(d);
    assert SymbolsOf(d.expr) + OptSymbols(d.cond) == {ConstYes, StaleS(), StaleT()};
    hide Reads;
    AcyclicIf(t, rank);
  }

  /** Only the symbols with properties matter. */
  lemma AcyclicIf(t: Table, rank: Ranking)
    requires forall s, r :: s in t && r in Reads(t[s]) ==> rank(r) < rank(s)
    ensures Acyclic(t, rank)
  {
    PromptedReads();
    hide Reads;
  }

  /** A symbol with nothing but an unconditional prompt reads nothing, and so does one without properties. */
  lemma PromptedReads()
    ensures Reads(Definition([None], [], None, None, None)) == {} && Reads(Definition([], [], None, None, None)) == {}
  {
    var ps: seq<Option<Expr>> := [None];
    assert PromptsSymbols(ps) == {} by { assert ps[..0] == []; }
  }

  /** One default, with or without an unconditional prompt. */
  lemma DefaultReads(d: Default)
    ensures Reads(Definition([], [d], None, None, None)) == SymbolsOf(d.expr) + OptSymbols(d.cond)
    ensures Reads(Definition([None], [d], None, None, None)) == SymbolsOf(d.expr) + OptSymbols(d.cond)
  {
    var ps: seq<Option<Expr>> := [None];
    assert PromptsSymbols(ps) == {} by { assert ps[..0] == []; }
    var ds := [d];
    assert DefaultsSymbols(ds) == SymbolsOf(d.expr) + OptSymbols(d.cond) by { assert ds[1..] == []; }
    hide SymbolsOf, OptSymbols;
  }

  lemma StaleEquations(s: Tristate, modules: Tristate, a: Assignment)
    requires s != T.MOD && Solves(StaleSetup(s, modules), a)
    ensures a(StaleS()).tri == s && a(StaleT()).tri == (if modules == T.NO then T.YES else T.MOD)
    ensures a(StaleModules()).tri == s
    ensures var c, env := StaleSetup(s, modules), EnvOf(a);
            && Visible(c, StaleS(), env) == T.YES && RevDep(c, StaleS(), env) == T.NO
            && Implied(c, StaleS(), env) == T.NO
    ensures StaleT() in Consulted(StaleSetup(s, modules), StaleModules(), EnvOf(a))
  {
    var c, env := StaleSetup(s, modules), EnvOf(a);
    assert a(StaleS()) == Compute(c, StaleS(), a) && a(StaleT()) == Compute(c, StaleT(), a);
    assert a(StaleModules()) == Compute(c, StaleModules(), a) && a(ConstYes) == Compute(c, ConstYes, a);
    var ps := Def(c.table, StaleT()).prompts;
    assert BestPrompt(ps, env) == T.YES by { assert ps[..0] == []; }
    var d := Def(c.table, StaleModules()).defaults[0];
    assert FirstDefault([d], env) == if s == T.NO then None else Some(d);
  }

  /**
   With S set, MODULES is `y`, and T is `y` when it is calculated on the way to
   MODULES, before modules are on; afterwards it would be `m`.
   */
  lemma StaleValues(s: Tristate, rank: Ranking)
    requires s != T.MOD && StaleRanks(rank)
    ensures var off, on := StaleSetup(s, T.NO), StaleSetup(s, T.YES);
            && Acyclic(off.table, rank)
            && Solution(off, rank)(StaleModules()).tri == s
            && Solution(off, rank)(StaleT()).tri == T.YES && Solution(on, rank)(StaleT()).tri == T.MOD
            && StaleT() in Consulted(off, StaleModules(), EnvOf(Solution(off, rank)))
            && ShowsMod(on, StaleT(), Solution(on, rank))
  {
    var off, on := StaleSetup(s, T.NO), StaleSetup(s, T.YES);
    StaleAcyclic(s, T.NO, rank);
    SolutionSolves(off, rank);
    SolutionSolves(on, rank);
    StaleEquations(s, T.NO, Solution(off, rank));
    StaleEquations(s, T.YES, Solution(on, rank));
    hide Solution;
  }
}
