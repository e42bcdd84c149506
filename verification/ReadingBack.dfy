/**
 A minimal configuration that is read by a program that has just been started
 (`conf_read` of `confdata.c`): `modules_val` is still `n` when `modules_sym` is
 calculated, with everything on the way, and follows only then.
 */
module ReadingBack {
  import opened Wrappers
  import opened Expressions
  import opened SymbolValues
  import opened ModulesSwitch
  import opened Eras
  import opened MarksAfter
  import opened MinimalConfig
  import T = Tristates

  /** The start of the program, with the user values that have been read. */
  function Start(table: Table, user: UserValues): Setup {
    Setup(table, user, Always(T.NO))
  }

  /** What the symbols are worth after the values have been read. */
  ghost function ReadValues(table: Table, user: UserValues, rank: Ranking, modulesSym: Option<Symbol>): Assignment {
    Solution(After(Start(table, user), rank, modulesSym), rank)
  }

  /** A configuration in which `modules_val` has followed `modules_sym`. */
  ghost predicate Saved(c: Setup, a: Assignment, v: Tristate, rank: Ranking, modulesSym: Option<Symbol>) {
    && Acyclic(c.table, rank) && Solves(c, a) && c.modules == Always(v)
    && match modulesSym
       case None => v == T.NO
       case Some(m) => a(m).tri == v
  }

  /** No tristate on the way to m is worth `m`. */
  ghost predicate NoModOnTheWay(c: Setup, a: Assignment, rank: Ranking, m: Symbol) {
    forall s :: Reaches(c, a, rank, m, s) && s.Type() == Tri ==> a(s).tri != T.MOD
  }

  // ----- what is on the way

  /** Calculations that agree on what is on the way to x go the same way. */
  lemma {:induction false} SameWay(c: Setup, a: Assignment, c': Setup, b: Assignment, rank: Ranking, x: Symbol,
      y: Symbol)
    requires Acyclic(c.table, rank) && SameWayAt(c, a, c', b, rank, x)
    ensures Reaches(c, a, rank, x, y) <==> Reaches(c', b, rank, x, y)
    decreases rank(x)
  {
    if y != x && Calculated(x) {
      var r := Consulted(c, x, EnvOf(a));
      ConsultedIsLower(c, rank, x, EnvOf(a));
      SelfReached(c, a, rank, x);
      assert WayAgrees(c, a, c', b, x);
      hide Consulted, Acyclic, EnvOf, WayAgrees;
      forall z | z in r ensures Reaches(c, a, rank, z, y) <==> Reaches(c', b, rank, z, y) {
        SameWayBelow(c, a, c', b, rank, x, z);
        SameWay(c, a, c', b, rank, z, y);
      }
    }
  }

  lemma SelfReached(c: Setup, a: Assignment, rank: Ranking, x: Symbol)
    ensures Reaches(c, a, rank, x, x)
  {
  }

  /** The calculation of s evaluates the same symbols. */
  ghost predicate WayAgrees(c: Setup, a: Assignment, c': Setup, b: Assignment, s: Symbol) {
    Calculated(s) ==> Consulted(c, s, EnvOf(a)) == Consulted(c', s, EnvOf(b))
  }

  ghost predicate SameWayAt(c: Setup, a: Assignment, c': Setup, b: Assignment, rank: Ranking, x: Symbol) {
    forall s :: Reaches(c, a, rank, x, s) ==> WayAgrees(c, a, c', b, s)
  }

  lemma SameWayBelow(c: Setup, a: Assignment, c': Setup, b: Assignment, rank: Ranking, x: Symbol, z: Symbol)
    requires SameWayAt(c, a, c', b, rank, x) && Calculated(x) && z in Consulted(c, x, EnvOf(a)) && rank(z) < rank(x)
    ensures SameWayAt(c, a, c', b, rank, z)
  {
    hide Consulted, EnvOf, WayAgrees;
    forall s | Reaches(c, a, rank, z, s) ensures WayAgrees(c, a, c', b, s) {
      assert Reaches(c, a, rank, x, s);
    }
  }

  /** Modules do not matter for the way, and neither do values that are the same. */
  lemma SwitchKeepsWay(on: Setup, a: Assignment, b: Assignment, s: Symbol)
    requires on.modules(s) != T.NO && (Calculated(s) ==> Agree(a, b, Consulted(on, s, EnvOf(a))))
    ensures WayAgrees(on, a, With(on, T.NO), b, s)
  {
    hide Consulted, EnvOf;
    if Calculated(s) {
      SameConsulted(on, s, a, b);
      SwitchOne(on, s, b);
    }
  }

  // ----- reading when the modules are on

  /** Without `m` on the way, everything on the way has its value already without modules. */
  lemma {:induction false} OffAgrees(on: Setup, a: Assignment, rank: Ranking, m: Symbol, s: Symbol)
    requires Acyclic(on.table, rank) && Solves(on, a) && AllOn(on) && NoModOnTheWay(on, a, rank, m)
    requires Reaches(on, a, rank, m, s)
    ensures Solution(With(on, T.NO), rank)(s) == a(s)
    ensures a(s) == Compute(With(on, T.NO), s, a)
    decreases rank(s)
  {
    var off := With(on, T.NO);
    var b := Solution(off, rank);
    SolvesAt(off, rank, s);
    assert a(s) == Compute(on, s, a);
    hide Solution, Acyclic, Compute, Consulted, EnvOf, Solves, AllOn;
    assert on.modules(s) != T.NO by { AllOnAt(on, s); }
    ValueSwitch(on, s, a);
    assert s.Type() == Tri ==> a(s).tri != T.MOD;
    if Calculated(s) {
      ConsultedIsLower(on, rank, s, EnvOf(a));
      forall r | r in Consulted(on, s, EnvOf(a)) ensures a(r) == b(r) {
        ReachedIsClosed(on, a, rank, m, s, r);
        OffAgrees(on, a, rank, m, r);
      }
      SwitchOne(on, s, a);
      ConsultedSuffices(off, s, a, b);
    } else {
      FixedValues(off, s, a, off, b);
    }
  }

  lemma AllOnAt(on: Setup, s: Symbol)
    requires AllOn(on)
    ensures on.modules(s) != T.NO
  {
  }

  /** Then the way is the same without modules. */
  lemma OffSameWay(on: Setup, a: Assignment, rank: Ranking, m: Symbol)
    requires Acyclic(on.table, rank) && Solves(on, a) && AllOn(on) && NoModOnTheWay(on, a, rank, m)
    ensures SameWayAt(on, a, With(on, T.NO), Solution(With(on, T.NO), rank), rank, m)
  {
    var b := Solution(With(on, T.NO), rank);
    hide Solution, Acyclic, Consulted, EnvOf, Solves, AllOn, Reaches, NoModOnTheWay, WayAgrees;
    forall s | Reaches(on, a, rank, m, s) ensures WayAgrees(on, a, With(on, T.NO), b, s) {
      if Calculated(s) {
        forall r | r in Consulted(on, s, EnvOf(a)) ensures a(r) == b(r) {
          ReachedIsClosed(on, a, rank, m, s, r);
          OffAgrees(on, a, rank, m, r);
        }
      }
      AllOnAt(on, s);
      SwitchKeepsWay(on, a, b, s);
    }
  }

  /** Such values satisfy the equations of the program that has just been started. */
  lemma OffSolvesMixed(on: Setup, a: Assignment, rank: Ranking, m: Symbol, s: Symbol)
    requires Acyclic(on.table, rank) && Solves(on, a) && AllOn(on) && NoModOnTheWay(on, a, rank, m)
    requires on == With(on, a(m).tri)
    ensures a(s) == Compute(Mixed(With(on, T.NO), rank, m), s, a)
  {
    assert a(s) == Compute(on, s, a);
    hide Solution, Acyclic, Reaches, Compute, SameWayAt, NoModOnTheWay, AllOn, Solves, Mixed, SameAt, Writes;
    var off := With(on, T.NO);
    OffSameWay(on, a, rank, m);
    SameWay(on, a, off, Solution(off, rank), rank, m, s);
    SelfReached(on, a, rank, m);
    OffAgrees(on, a, rank, m, m);
    MixedAt(off, rank, m, s);
    if Reaches(on, a, rank, m, s) {
      OffAgrees(on, a, rank, m, s);
      SameAtSameState(off, Mixed(off, rank, m), s, a);
    } else {
      SameAtSameState(on, Mixed(off, rank, m), s, a);
    }
  }

  /** Values without `m` on the way to `modules_sym` come back from the start of the program. */
  lemma ComesBack(on: Setup, a: Assignment, v: Tristate, rank: Ranking, m: Symbol)
    requires Saved(on, a, v, rank, Some(m)) && v != T.NO && NoModOnTheWay(on, a, rank, m)
    ensures forall s :: Solution(After(With(on, T.NO), rank, Some(m)), rank)(s) == a(s)
  {
    hide Solution, Acyclic, Compute, NoModOnTheWay, After, Mixed;
    var off := With(on, T.NO);
    var mixed := Mixed(off, rank, m);
    assert on == With(on, a(m).tri);
    forall s ensures a(s) == Compute(mixed, s, a) {
      OffSolvesMixed(on, a, rank, m, s);
    }
    MixedTable(off, rank, m);
    SolutionSolves(mixed, rank);
    SolutionIsUnique(mixed, rank, a, Solution(mixed, rank));
    AfterIsMixed(off, rank, m);
  }

  /** If the values come back, everything on the way to `modules_sym` has its value without modules. */
  lemma CameBack(off: Setup, a: Assignment, rank: Ranking, m: Symbol, s: Symbol)
    requires Acyclic(off.table, rank) && off.modules == Always(T.NO)
    requires forall x :: Solution(After(off, rank, Some(m)), rank)(x) == a(x)
    ensures Reaches(off, Solution(off, rank), rank, m, s) ==> Solution(off, rank)(s) == a(s) == Compute(off, s, a)
    ensures !Reaches(off, Solution(off, rank), rank, m, s) ==> a(s) == Compute(With(off, a(m).tri), s, a)
  {
    var mixed := Mixed(off, rank, m);
    var b := Solution(mixed, rank);
    SelfReached(off, Solution(off, rank), rank, m);
    hide Solution, Acyclic, Reaches, Compute, After, Reads;
    AfterIsMixed(off, rank, m);
    MixedKeeps(off, rank, m, m);
    SolvesAt(mixed, rank, s);
    ComputeReads(mixed, s, b, a);
    if Reaches(off, Solution(off, rank), rank, m, s) {
      MixedKeeps(off, rank, m, s);
      SameAtSameState(off, mixed, s, a);
    } else {
      SameAtSameState(With(off, a(m).tri), mixed, s, a);
    }
  }

  // ----- minimal configurations

  /** A value that is the same without modules is not pinned. */
  lemma OffNotPinned(c: Setup, a: Assignment, menus: set<Symbol>, s: Symbol)
    requires Solves(c, a) && Complete(c, menus) && c.modules(s) != T.NO
    requires a(s) == Compute(With(Reread(c, a, menus), T.NO), s, a)
    ensures !Pinned(c, s, a) && (s.Type() == Tri ==> a(s).tri != T.MOD)
  {
    var on := Reread(c, a, menus);
    assert a(s) == Compute(c, s, a);
    hide Compute, Complete, Pinned, Solves, MinimalUser;
    ValueSwitch(on, s, a);
    OneSymbolKept(c, s, a, menus);
    if s.Type() == Tri {
      OffIsNoMod(With(on, T.NO), s, a);
    }
    if Pinned(c, s, a) && s.Logical() {
      PinnedIsMod(c, s, a);
    }
  }

  lemma OffIsNoMod(off: Setup, s: Symbol, a: Assignment)
    requires off.modules(s) == T.NO && s.Type() == Tri
    ensures Compute(off, s, a).tri != T.MOD
  {
    hide Visible, DirDep, RevDep, Implied, DefaultTri, UserApplies, EnvOf;
  }

  /** With modules, values that come back are not pinned, and there is no `m` on the way. */
  lemma CameBackWithModules(c: Setup, a: Assignment, v: Tristate, rank: Ranking, m: Symbol, menus: set<Symbol>)
    requires Saved(c, a, v, rank, Some(m)) && v != T.NO && Complete(c, menus)
    requires var off := With(Reread(c, a, menus), T.NO);
             forall s :: Solution(After(off, rank, Some(m)), rank)(s) == a(s)
    ensures (forall s :: !Pinned(c, s, a)) && NoModOnTheWay(Reread(c, a, menus), a, rank, m)
  {
    var on := Reread(c, a, menus);
    var off := With(on, T.NO);
    var b := Solution(off, rank);
    hide Solution, Acyclic, Reaches, Compute, After, Pinned, Complete, Solves, MinimalUser;
    forall s ensures !Pinned(c, s, a) && (Reaches(off, b, rank, m, s) && s.Type() == Tri ==> a(s).tri != T.MOD) {
      CameBack(off, a, rank, m, s);
      if Reaches(off, b, rank, m, s) {
        OffNotPinned(c, a, menus, s);
      } else {
        assert With(off, v) == on;
        OneSymbolKept(c, s, a, menus);
      }
    }
    CameBackSameWay(on, a, rank, m);
    forall s | Reaches(on, a, rank, m, s) && s.Type() == Tri ensures a(s).tri != T.MOD {
      SameWay(off, b, on, a, rank, m, s);
    }
  }

  lemma CameBackSameWay(on: Setup, a: Assignment, rank: Ranking, m: Symbol)
    requires Acyclic(on.table, rank) && AllOn(on)
    requires forall s :: Solution(After(With(on, T.NO), rank, Some(m)), rank)(s) == a(s)
    ensures SameWayAt(With(on, T.NO), Solution(With(on, T.NO), rank), on, a, rank, m)
  {
    var off := With(on, T.NO);
    var b := Solution(off, rank);
    hide Solution, Acyclic, Reaches, Consulted, EnvOf, After, Compute, AllOn;
    forall s | Reaches(off, b, rank, m, s) ensures WayAgrees(off, b, on, a, s) {
      if Calculated(s) {
        forall r | r in Consulted(off, s, EnvOf(b)) ensures b(r) == a(r) {
          ReachedIsClosed(off, b, rank, m, s, r);
          CameBack(off, a, rank, m, r);
        }
        SameConsulted(off, s, b, a);
        AllOnAt(on, s);
        SwitchOne(on, s, a);
      }
    }
  }

  /** Without modules nothing changes while the values are read. */
  lemma ReadWithoutModules(off: Setup, a: Assignment, rank: Ranking, modulesSym: Option<Symbol>)
    requires Acyclic(off.table, rank) && off.modules == Always(T.NO)
    requires modulesSym.Some? ==> a(modulesSym.value).tri == T.NO
    ensures (forall s :: Solution(After(off, rank, modulesSym), rank)(s) == a(s))
            <==> (forall s :: Solution(off, rank)(s) == a(s))
  {
    if modulesSym.Some? {
      var m := modulesSym.value;
      hide Solution, Acyclic, After;
      AfterValue(off, rank, m);
      if Solution(off, rank)(m).tri == T.NO {
        SettledAfter(off, rank, modulesSym);
      }
    }
  }

  /**
   Writing a minimal configuration, and reading it in a program that has just
   been started, gives every value back exactly when no symbol is pinned and,
   with modules, no tristate is `m` that `modules_sym` is calculated from.
   */
  lemma MinimalConfigExact(c: Setup, a: Assignment, v: Tristate, rank: Ranking, modulesSym: Option<Symbol>,
      menus: set<Symbol>)
    requires Saved(c, a, v, rank, modulesSym) && Complete(c, menus)
    ensures (forall s :: ReadValues(c.table, MinimalUser(c, a, menus), rank, modulesSym)(s) == a(s))
            <==> (&& (forall s :: !Pinned(c, s, a))
                  && (v != T.NO ==> NoModOnTheWay(Reread(c, a, menus), a, rank, modulesSym.value)))
  {
    hide Solution, Acyclic, After, Pinned, Complete, Solves, MinimalUser, NoModOnTheWay, Compute, AllOn;
    var on := Reread(c, a, menus);
    var off := With(on, T.NO);
    assert off == Start(c.table, MinimalUser(c, a, menus));
    SameModulesExact(c, rank, a, menus);
    if v == T.NO {
      ReadWithoutModules(off, a, rank, modulesSym);
    } else {
      var m := modulesSym.value;
      if (forall s :: !Pinned(c, s, a)) && NoModOnTheWay(on, a, rank, m) {
        ComesBack(on, a, v, rank, m);
      }
      if forall s :: Solution(After(off, rank, modulesSym), rank)(s) == a(s) {
        CameBackWithModules(c, a, v, rank, m, menus);
      }
    }
  }

  /** Without a tristate that is worth `m`, and without selected strings, every value comes back. */
  lemma MinimalConfigIdentity(c: Setup, a: Assignment, v: Tristate, rank: Ranking, modulesSym: Option<Symbol>,
      menus: set<Symbol>)
    requires Saved(c, a, v, rank, modulesSym) && Complete(c, menus)
    requires forall s: Symbol :: s.Type() == Tri ==> a(s).tri != T.MOD
    requires forall s: Symbol :: Textual(s) ==> Def(c.table, s).revDep == None
    ensures forall s :: ReadValues(c.table, MinimalUser(c, a, menus), rank, modulesSym)(s) == a(s)
  {
    hide Solution, Acyclic, After, Complete, MinimalUser, Pinned, Compute, Reaches;
    forall s ensures !Pinned(c, s, a) {
      assert a(s) == Compute(c, s, a);
      NotPinned(c, s, a);
    }
    MinimalConfigExact(c, a, v, rank, modulesSym, menus);
  }

  lemma NotPinned(c: Setup, s: Symbol, a: Assignment)
    requires s.Type() == Tri ==> Compute(c, s, a).tri != T.MOD
    requires Textual(s) ==> Def(c.table, s).revDep == None
    ensures !Pinned(c, s, a)
  {
    hide Compute;
    if Pinned(c, s, a) && s.Logical() { PinnedIsMod(c, s, a); }
  }

  // ----- a table where modules are lost

  function LostModules(): Symbol {
    Symbol.Config("MODULES", Boolean)
  }

  function LostT(): Symbol {
    Symbol.Config("T", Tri)
  }

  /** Modules are on by default unless T is set; T is `m`, and so the user has switched modules on. */
  function LostSetup(user: UserValues, v: Tristate): Setup {
    Setup(map[LostT() := Definition([None], [], None, None, None),
              LostModules() := Definition([None], [Default(Sym(ConstYes), Some(Not(Sym(LostT()))))], None, None, None)],
          user, Always(v))
  }

  function LostUser(): UserValues {
    map[LostT() := Value(T.MOD, ""), LostModules() := Value(T.YES, "")]
  }

  ghost predicate LostRanks(rank: Ranking) {
    rank(LostT()) < rank(LostModules()) && rank(ConstYes) < rank(LostModules())
  }

  lemma LostAcyclic(user: UserValues, v: Tristate, rank: Ranking)
    requires LostRanks(rank)
    ensures Acyclic(LostSetup(user, v).table, rank)
  {
    var t := LostSetup(user, v).table;
    PromptedReads();
    var d := t[LostModules()].defaults[0];
    DefaultReads(d);
    assert SymbolsOf(d.expr) + OptSymbols(d.cond) == {ConstYes, LostT()};
    hide Reads;
    AcyclicIf(t, rank);
  }

  /** The values, with the user's value of MODULES or without it. */
  lemma LostEquations(user: UserValues, v: Tristate, a: Assignment)
    requires Solves(LostSetup(user, v), a) && LostT() in user && user[LostT()].tri == T.MOD
    requires LostModules() in user ==> user[LostModules()].tri == T.YES
    ensures a(LostT()).tri == if v == T.NO then T.YES else T.MOD
    ensures a(LostModules()).tri == if LostModules() in user || v != T.NO then T.YES else T.NO
    ensures forall s :: s in {LostT(), LostModules()} ==> LostLimits(LostSetup(user, v), s, a)
    ensures DefaultTri(LostSetup(user, v), LostT(), EnvOf(a)) == T.NO
    ensures v != T.NO ==> DefaultTri(LostSetup(user, v), LostModules(), EnvOf(a)) == T.MOD
  {
    var c, env := LostSetup(user, v), EnvOf(a);
    assert a(LostT()) == Compute(c, LostT(), a) && a(LostModules()) == Compute(c, LostModules(), a);
    assert a(ConstYes) == Compute(c, ConstYes, a);
    var ps := Def(c.table, LostT()).prompts;
    assert BestPrompt(ps, env) == T.YES by { assert ps[..0] == []; }
    var d := Def(c.table, LostModules()).defaults[0];
    assert FirstDefault([d], env) == if v == T.NO then None else Some(d);
  }

  /** Always visible, and nothing selects the symbol. */
  predicate LostLimits(c: Setup, s: Symbol, a: Assignment) {
    Visible(c, s, EnvOf(a)) == T.YES && RevDep(c, s, EnvOf(a)) == T.NO && Implied(c, s, EnvOf(a)) == T.NO
  }

  /** MODULES has its default value, so only T is written. */
  lemma LostLines(a: Assignment)
    requires Solves(LostSetup(LostUser(), T.YES), a)
    ensures MinimalUser(LostSetup(LostUser(), T.YES), a, {LostT(), LostModules()}) == map[LostT() := Value(T.MOD, "")]
  {
    hide Solves, Printed, EnvOf, LostSetup;
    LostPrinted(a);
    var t := LostT();
    assert ReadBack(t, StringValue(t, a(t))) == Some(Value(T.MOD, ""));
    var user := MinimalUser(LostSetup(LostUser(), T.YES), a, {t, LostModules()});
    assert user.Keys == {t};
  }

  lemma LostPrinted(a: Assignment)
    requires Solves(LostSetup(LostUser(), T.YES), a)
    ensures Printed(LostSetup(LostUser(), T.YES), LostT(), a)
    ensures !Printed(LostSetup(LostUser(), T.YES), LostModules(), a)
    ensures a(LostT()).tri == T.MOD
  {
    hide Solves, Visible, RevDep, Implied, DefaultTri, StringDefault, EnvOf, Writes;
    var c := LostSetup(LostUser(), T.YES);
    LostEquations(LostUser(), T.YES, a);
    DefaultValueIsTri(c, LostT(), a);
    DefaultValueIsTri(c, LostModules(), a);
    WritesIfVisible(c, LostT(), a);
    assert LostLimits(c, LostT(), a) && LostLimits(c, LostModules(), a);
    assert StringDefault(c, LostT(), a) == "n" && StringDefault(c, LostModules(), a) == "y";
  }

  lemma LostNotPinned(a: Assignment)
    requires Solves(LostSetup(LostUser(), T.YES), a)
    ensures forall s :: !Pinned(LostSetup(LostUser(), T.YES), s, a)
  {
    LostEquations(LostUser(), T.YES, a);
    hide Solves, Visible, RevDep, Implied, DefaultTri, EnvOf;
  }

  /**
   T is `m` and MODULES is `y`, and no symbol is pinned; but in a program that
   has just been started T is `y`, and so MODULES stays `n`.
   */
  lemma LostExample(rank: Ranking)
    requires LostRanks(rank)
    ensures var c, menus := LostSetup(LostUser(), T.YES), {LostT(), LostModules()};
            var a := Solution(c, rank);
            var b := ReadValues(c.table, MinimalUser(c, a, menus), rank, Some(LostModules()));
            && Saved(c, a, T.YES, rank, Some(LostModules())) && Complete(c, menus) && (forall s :: !Pinned(c, s, a))
            && a(LostT()).tri == T.MOD && a(LostModules()).tri == T.YES
            && b(LostT()).tri == T.YES && b(LostModules()).tri == T.NO
  {
    var c, menus := LostSetup(LostUser(), T.YES), {LostT(), LostModules()};
    var a := Solution(c, rank);
    var user: UserValues := map[LostT() := Value(T.MOD, "")];
    var off := LostSetup(user, T.NO);
    hide Solution, Pinned, MinimalUser, Acyclic, Solves, After, LostLimits;
    LostAcyclic(LostUser(), T.YES, rank);
    SolutionSolves(c, rank);
    SolutionSolves(off, rank);
    LostEquations(LostUser(), T.YES, a);
    LostEquations(user, T.NO, Solution(off, rank));
    LostLines(a);
    LostNotPinned(a);
    LostIsComplete(menus);
    assert off == Start(c.table, user);
    SettledAfter(off, rank, Some(LostModules()));
  }

  lemma LostIsComplete(menus: set<Symbol>)
    requires menus == {LostT(), LostModules()}
    ensures Complete(LostSetup(LostUser(), T.YES), menus)
  {
  }
}
