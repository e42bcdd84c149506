/**
 The cached evaluation of symbols (`symbol.c`): `sym_calc_value` with its
 SYMBOL_VALID marks, for a table without choices, ranges and SYMBOL_AUTO.
 */
module SymbolCache {
  import opened Wrappers
  import opened Expressions
  import opened SymbolValues
  import opened ModulesSwitch
  import opened Eras
  import opened SymbolMarks
  import opened MarksAfter
  import T = Tristates

  class Symbols {
    const table: Table
    const modulesSym: Option<Symbol>
    var user: UserValues
    var modulesVal: Tristate
    var states: States

    /** A proof that the table has no cycle. */
    ghost const rank: Ranking
    /** The values of the plain definition, for the current user values. */
    ghost var sol: Assignment
    /** The symbols whose SYMBOL_WRITE flag has been cleared since they were calculated. */
    ghost var cleared: set<Symbol>
    /** For every symbol the `modules_val` under which it has been calculated, or is going to be. */
    ghost var era: Symbol -> Tristate
    /** What is going to be calculated at most. */
    ghost var scope: Symbol -> bool

    // ----- specification

    function State(s: Symbol): SymbolState
      reads this
    {
      StateOf(states, s)
    }

    ghost function Marked(): Marks
      reads this
    {
      Marks(states, cleared)
    }

    /** What the values of the symbols are calculated from, each under its own `modules_val`. */
    ghost function CurrentSetup(): Setup
      reads this
    {
      Setup(table, user, era)
    }

    /** What they would be calculated from if nothing had been calculated before. */
    ghost function PlainSetup(): Setup
      reads this
    {
      Setup(table, user, Always(modulesVal))
    }

    /**
     `modules_val` is what `modules_sym` was worth when it was calculated last.
     Without such a symbol `modules_sym` is the constant `n`.
     */
    ghost predicate Linked()
      reads this
    {
      match modulesSym
      case None => modulesVal == T.NO
      case Some(m) => m.Logical() && State(m).curr.tri == modulesVal
    }

    /** As long as `modules_sym` is not being calculated itself. */
    ghost predicate LinkedBelow(limit: nat)
      reads this
    {
      modulesSym.Some? && rank(modulesSym.value) < limit ==> Linked()
    }

    /** Nothing leads out of the scope, and nothing outside has been calculated. */
    ghost predicate Steady()
      reads this
    {
      Closed(CurrentSetup(), sol, scope) && SteadyMarks(Marked(), scope, era, modulesVal)
    }

    /** No cycle, and below the limit the right `modules_val` and nothing wrong. */
    ghost predicate Ready(limit: nat)
      reads this
    {
      && SettledBelow(CurrentSetup(), modulesSym, modulesVal, rank, sol, limit) && LinkedBelow(limit)
      && AllRight(Marked(), CurrentSetup(), sol, rank, limit) && Steady()
    }

    /** The symbols are below the limit and in the scope. */
    ghost predicate AllBelow(ss: set<Symbol>, limit: nat)
      reads this
    {
      forall s :: s in ss ==> rank(s) < limit && scope(s)
    }

    /** Every VALID symbol has been calculated from VALID symbols to what the plain definition gives. */
    ghost predicate RightUnder(c: Setup, a: Assignment)
      reads this
    {
      RightMarks(Marked(), c, a)
    }

    /**
     Every VALID symbol holds the value and the limits that it has in its own
     era, and `modules_val` is what `modules_sym` is worth.
     */
    ghost predicate Consistent()
      reads this
    {
      && IsSettled(CurrentSetup(), modulesSym, modulesVal, rank, sol) && Linked()
      && RightUnder(CurrentSetup(), sol)
      && (forall s :: AlwaysValid(s) ==> State(s).valid)
      && SteadyMarks(Marked(), scope, era, modulesVal) && scope == Everything()
    }

    /** There is only one era: every VALID symbol holds the value and the limits of the plain definition. */
    ghost predicate Valid()
      reads this
    {
      Consistent() && era == Always(modulesVal)
    }

    /** The VALID symbols are right for the present `modules_val`, whenever they have been calculated. */
    ghost predicate Current()
      reads this
    {
      RightUnder(PlainSetup(), Solution(PlainSetup(), rank))
    }

    /** What every state has, whether or not the VALID symbols are right: no cycle, and the constants. */
    ghost predicate Started()
      reads this
    {
      && Acyclic(table, rank) && Linked()
      && (forall s :: AlwaysValid(s) ==> State(s).valid && State(s).curr == FixedValue(s))
    }

    /** A calculation changes the marks and nothing else. */
    twostate predicate OnlyMarks()
      reads this
    {
      && user == old(user) && modulesVal == old(modulesVal)
      && sol == old(sol) && era == old(era) && scope == old(scope)
    }

    // ----- expr_calc_value

    method CalcExpr(e: Expr, ghost limit: nat) returns (r: Tristate)
      requires Ready(limit)
      requires AllBelow(SymbolsOf(e), limit)
      modifies this
      ensures OnlyMarks() && Ready(limit) && Keeps(rank, limit, old(Marked()), Marked())
      ensures r == Calc(e, EnvOf(sol)) && AllValid(Marked(), SymbolsOf(e))
      decreases limit, 1, e
    {
      hide Ready, Keeps, AllValid;
      ghost var m0 := Marked();
      match e {
        case Sym(s) =>
          CalcSettled(s, limit);
          OneValid(Marked(), s);
          r := State(s).curr.tri;
        case Not(a) =>
          r := CalcExpr(a, limit);
          r := T.Not(r);
        case Bin(op, left, right) =>
          var v1 := CalcExpr(left, limit);
          ghost var m1 := Marked();
          var v2 := CalcExpr(right, limit);
          KeepsTrans(rank, limit, m0, m1, Marked());
          StayValid(rank, limit, m1, Marked(), SymbolsOf(left));
          BothValid(Marked(), SymbolsOf(left), SymbolsOf(right));
          r := Combine(op, v1, v2);
        case Comp(rel, left, right) =>
          r := CalcComp(rel, left, right, limit);
      }
    }

    method CalcComp(rel: RelOp, left: Symbol, right: Symbol, ghost limit: nat) returns (r: Tristate)
      requires Ready(limit) && AllBelow({left, right}, limit)
      modifies this
      ensures OnlyMarks() && Ready(limit) && Keeps(rank, limit, old(Marked()), Marked())
      ensures r == Calc(Comp(rel, left, right), EnvOf(sol)) && AllValid(Marked(), {left, right})
      decreases limit, 0
    {
      hide Ready, Keeps, AllValid, Calc;
      CalcSettled(left, limit);
      ghost var m1 := Marked();
      CalcSettled(right, limit);
      KeepsTrans(rank, limit, old(Marked()), m1, Marked());
      StaysRight(left, limit, m1);
      TwoValid(Marked(), left, right);
      var pair := PairOf(left, State(left).curr, State(right).curr);
      r := Calc(Comp(rel, left, right), EnvOf(pair));
      AgreeOnExpr(Comp(rel, left, right), pair, sol);
    }

    lemma StaysRight(s: Symbol, limit: nat, m: Marks)
      requires Ready(limit) && rank(s) < limit && StateOf(m.states, s).valid && Keeps(rank, limit, m, Marked())
      ensures State(s).curr == sol(s) && State(s).valid
    {
    }

    method CalcOptExpr(e: Option<Expr>, ghost limit: nat) returns (r: Tristate)
      requires Ready(limit)
      requires AllBelow(OptSymbols(e), limit)
      modifies this
      ensures OnlyMarks() && Ready(limit) && Keeps(rank, limit, old(Marked()), Marked())
      ensures r == CalcOpt(e, EnvOf(sol)) && AllValid(Marked(), OptSymbols(e))
      decreases limit, 2
    {
      hide Ready, Calc, Keeps;
      if e.Some? {
        r := CalcExpr(e.value, limit);
      } else {
        KeepsRefl(rank, limit, Marked());
        r := T.YES;
      }
    }

    // ----- sym_calc_visibility, sym_get_default_prop

    /** The loop over the prompts. */
    method CalcPrompts(ps: seq<Option<Expr>>, ghost limit: nat) returns (tri: Tristate)
      requires Ready(limit)
      requires AllBelow(PromptsSymbols(ps), limit)
      modifies this
      ensures OnlyMarks() && Ready(limit) && Keeps(rank, limit, old(Marked()), Marked())
      ensures tri == BestPrompt(ps, EnvOf(sol)) && AllValid(Marked(), PromptsSymbols(ps))
      decreases limit, 3
    {
      hide Ready, CalcOpt, Keeps, AllValid, OptSymbols;
      KeepsRefl(rank, limit, Marked());
      NoneValid(Marked());
      tri := T.NO;
      for i := 0 to |ps|
        invariant OnlyMarks() && Ready(limit) && Keeps(rank, limit, old(Marked()), Marked())
        invariant tri == BestPrompt(ps[..i], EnvOf(sol)) && AllValid(Marked(), PromptsSymbols(ps[..i]))
      {
        PromptSymbolsAt(ps, i);
        ghost var m := Marked();
        var v := CalcOptExpr(ps[i], limit);
        KeepsTrans(rank, limit, old(Marked()), m, Marked());
        StayValid(rank, limit, m, Marked(), PromptsSymbols(ps[..i]));
        BothValid(Marked(), PromptsSymbols(ps[..i]), OptSymbols(ps[i]));
        tri := T.Or(tri, v);
        assert ps[..i + 1][..i] == ps[..i];
      }
      assert ps[..|ps|] == ps;
    }

    method GetDefaultProp(ds: seq<Default>, ghost limit: nat) returns (d: Option<Default>, cond: Tristate)
      requires Ready(limit)
      requires AllBelow(DefaultsConsulted(ds, EnvOf(sol)), limit)
      modifies this
      ensures OnlyMarks() && Ready(limit) && Keeps(rank, limit, old(Marked()), Marked())
      ensures d == FirstDefault(ds, EnvOf(sol))
      ensures d.Some? ==> cond == CalcOpt(d.value.cond, EnvOf(sol))
      ensures AllValid(Marked(), DefaultsConsulted(ds, EnvOf(sol)))
      decreases limit, 3
    {
      hide Ready, CalcOpt, Keeps, AllValid, OptSymbols;
      KeepsRefl(rank, limit, Marked());
      NoneValid(Marked());
      var i := 0;
      ghost var seen := {};
      while i < |ds|
        invariant 0 <= i <= |ds|
        invariant OnlyMarks() && Ready(limit) && Keeps(rank, limit, old(Marked()), Marked())
        invariant FirstDefault(ds, EnvOf(sol)) == FirstDefault(ds[i..], EnvOf(sol))
        invariant DefaultsConsulted(ds, EnvOf(sol)) == seen + DefaultsConsulted(ds[i..], EnvOf(sol))
                  && AllValid(Marked(), seen)
      {
        ghost var m := Marked();
        cond := CalcOptExpr(ds[i].cond, limit);
        KeepsTrans(rank, limit, old(Marked()), m, Marked());
        StayValid(rank, limit, m, Marked(), seen);
        BothValid(Marked(), seen, OptSymbols(ds[i].cond));
        seen := seen + OptSymbols(ds[i].cond);
        if cond != T.NO {
          assert DefaultsConsulted(ds, EnvOf(sol)) == seen;
          return Some(ds[i]), cond;
        }
        i := i + 1;
      }
      return None, T.NO;
    }

    /** The tristates `sym_calc_visibility` calculates. */
    method CalcLimits(s: Symbol) returns (visible: Tristate, dirDep: Tristate, revDep: Tristate, implied: Tristate)
      requires Ready(rank(s)) && era(s) == modulesVal
      requires AllBelow(LimitsConsulted(CurrentSetup(), s, EnvOf(sol)), rank(s))
      modifies this
      ensures OnlyMarks() && Ready(rank(s)) && Keeps(rank, rank(s), old(Marked()), Marked())
      ensures visible == Visible(CurrentSetup(), s, EnvOf(sol))
      ensures dirDep == DirDep(CurrentSetup(), s, EnvOf(sol))
      ensures revDep == RevDep(CurrentSetup(), s, EnvOf(sol))
      ensures implied == Implied(CurrentSetup(), s, EnvOf(sol))
      ensures AllValid(Marked(), LimitsConsulted(CurrentSetup(), s, EnvOf(sol)))
      decreases rank(s), 4
    {
      hide Ready, CalcOpt, Calc, BestPrompt, Def, EnvOf, Keeps, AllValid, PromptsSymbols;
      var def := Def(table, s);
      visible := CalcPrompts(def.prompts, rank(s));
      ghost var seen := PromptsSymbols(def.prompts);
      if visible == T.MOD && (s.Type() != Tri || modulesVal == T.NO) {
        visible := T.YES;
      }
      ghost var m1 := Marked();
      dirDep := CalcOptExpr(def.dirDep, rank(s));
      dirDep := RoundBool(dirDep, s, modulesVal);
      assert dirDep == DirDep(CurrentSetup(), s, EnvOf(sol));
      KeepsTrans(rank, rank(s), old(Marked()), m1, Marked());
      seen := MoreValid(rank(s), m1, seen, OptSymbols(def.dirDep));
      ghost var m2 := Marked();
      revDep := CalcSelect(def.revDep, rank(s));
      revDep := RoundBool(revDep, s, modulesVal);
      KeepsTrans(rank, rank(s), old(Marked()), m2, Marked());
      seen := MoreValid(rank(s), m2, seen, OptSymbols(def.revDep));
      ghost var m3 := Marked();
      var e := if dirDep != T.NO then def.implied else None;
      implied := CalcSelect(e, rank(s));
      implied := RoundBool(implied, s, modulesVal);
      KeepsTrans(rank, rank(s), old(Marked()), m3, Marked());
      seen := MoreValid(rank(s), m3, seen, OptSymbols(e));
    }

    /** A reverse or implied dependency, `n` if there is none. */
    method CalcSelect(e: Option<Expr>, ghost limit: nat) returns (tri: Tristate)
      requires Ready(limit)
      requires AllBelow(OptSymbols(e), limit)
      modifies this
      ensures OnlyMarks() && Ready(limit) && Keeps(rank, limit, old(Marked()), Marked())
      ensures tri == (if e.Some? then Calc(e.value, EnvOf(sol)) else T.NO) && AllValid(Marked(), OptSymbols(e))
      decreases limit, 2
    {
      hide Ready, Calc, Keeps;
      KeepsRefl(rank, limit, Marked());
      tri := T.NO;
      if e.Some? {
        tri := CalcExpr(e.value, limit);
      }
    }

    /** What was valid is still valid, together with what has been calculated since. */
    lemma MoreValid(limit: nat, m: Marks, ss: set<Symbol>, ss': set<Symbol>) returns (all: set<Symbol>)
      requires Keeps(rank, limit, m, Marked()) && AllValid(m, ss) && AllValid(Marked(), ss')
      ensures all == ss + ss' && AllValid(Marked(), all)
    {
      StayValid(rank, limit, m, Marked(), ss);
      all := ss + ss';
    }

    method CalcVisibility(s: Symbol)
      requires Ready(rank(s)) && era(s) == modulesVal && scope(s)
      requires AllBelow(LimitsConsulted(CurrentSetup(), s, EnvOf(sol)), rank(s))
      modifies this
      ensures OnlyMarks() && Ready(rank(s)) && KeepsBut(rank, s, old(Marked()), Marked())
      ensures LimitsAre(State(s), CurrentSetup(), s, EnvOf(sol))
      ensures State(s).valid == old(State(s)).valid && State(s).curr == old(State(s)).curr
      ensures State(s).write == old(State(s)).write && (s in cleared <==> s in old(cleared))
      ensures AllValid(Marked(), LimitsConsulted(CurrentSetup(), s, EnvOf(sol)))
      decreases rank(s), 5
    {
      hide EnvOf, Visible, DirDep, RevDep, Implied, Keeps, KeepsBut, AllValid, LimitsConsulted, Ready;
      var tri, dir, rev, imp := CalcLimits(s);
      ghost var m := Marked();
      KeepsGivesBut(rank, s, old(Marked()), m);
      label Before:
      states := states[s := State(s).(visible := tri, dirDep := dir, revDep := rev, implied := imp)];
      WriteReady@Before(s);
      KeepsButTrans(rank, s, old(Marked()), m, Marked());
      StayValidBut(rank, s, m, Marked(), LimitsConsulted(CurrentSetup(), s, EnvOf(sol)));
    }

    /** Writing to a symbol leaves what is below it ready. */
    twostate lemma WriteReady(s: Symbol)
      requires old(Ready(rank(s))) && OnlyMarks() && old(scope)(s)
      requires states == old(states)[s := State(s)] && (cleared == old(cleared) || cleared == old(cleared) - {s})
      requires old(State(s)).valid ==> State(s).valid
      ensures Ready(rank(s)) && KeepsBut(rank, s, old(Marked()), Marked())
    {
      hide SettledBelow, AllRight, Closed, SteadyMarks, KeepsBut;
      WriteSymbol(rank, s, old(Marked()), Marked(), State(s), CurrentSetup(), sol);
      WriteSteady(s, old(Marked()), Marked(), State(s), scope, era, modulesVal);
    }

    /** What the calculation of a symbol of the scope evaluates is below it and in the scope. */
    lemma ConsultedBelow(s: Symbol)
      requires Ready(rank(s)) && scope(s) && Calculated(s)
      ensures AllBelow(LimitsConsulted(CurrentSetup(), s, EnvOf(sol)), rank(s))
      ensures AllBelow(DefaultConsulted(CurrentSetup(), s, EnvOf(sol)), rank(s))
    {
      hide Solves, AllRight, SteadyMarks, LimitsConsulted, DefaultConsulted, Acyclic, LinkedBelow, EnvOf;
      ConsultedIsLower(CurrentSetup(), rank, s, EnvOf(sol));
    }

    // ----- sym_calc_value

    /** What the calculation of a symbol starts from: its limits, and its flag set if it is visible. */
    ghost predicate LimitsKnown(s: Symbol)
      reads this
    {
      && LimitsAre(State(s), CurrentSetup(), s, EnvOf(sol))
      && (State(s).write <==> State(s).visible != T.NO)
    }

    /** What the active default of s is evaluated from. */
    ghost function DefaultInputs(s: Symbol): set<Symbol>
      reads this
    {
      var ds := Def(table, s).defaults;
      DefaultsConsulted(ds, EnvOf(sol)) + ValueConsulted(s, FirstDefault(ds, EnvOf(sol)))
    }

    /** The tristate of the active default, `n` if there is none. */
    method CalcDefault(s: Symbol) returns (tri: Tristate)
      requires Ready(rank(s)) && s.Logical() && AllBelow(DefaultInputs(s), rank(s))
      modifies this
      ensures OnlyMarks() && Ready(rank(s)) && Keeps(rank, rank(s), old(Marked()), Marked())
      ensures tri == DefaultTri(CurrentSetup(), s, EnvOf(sol)) && AllValid(Marked(), DefaultInputs(s))
      decreases rank(s), 4
    {
      hide Ready, CalcOpt, Calc, Def, EnvOf, FirstDefault, Keeps, AllValid, DefaultsConsulted;
      tri := T.NO;
      var d, cond := GetDefaultProp(Def(table, s).defaults, rank(s));
      ghost var m, seen := Marked(), DefaultsConsulted(Def(table, s).defaults, EnvOf(sol));
      if d.Some? {
        var v := CalcExpr(d.value.expr, rank(s));
        KeepsTrans(rank, rank(s), old(Marked()), m, Marked());
        seen := MoreValid(rank(s), m, seen, SymbolsOf(d.value.expr));
        tri := T.And(v, cond);
      }
      assert seen == DefaultInputs(s);
    }

    /** The symbol that the active default of a string, hex or int names. */
    method CalcDefaultString(s: Symbol) returns (ds: Option<Symbol>)
      requires Ready(rank(s)) && !s.Logical() && AllBelow(DefaultInputs(s), rank(s))
      modifies this
      ensures OnlyMarks() && Ready(rank(s)) && Keeps(rank, rank(s), old(Marked()), Marked())
      ensures ds == DefaultSymbol(FirstDefault(Def(table, s).defaults, EnvOf(sol)))
      ensures (ds.Some? ==> State(ds.value).curr == sol(ds.value)) && AllValid(Marked(), DefaultInputs(s))
      decreases rank(s), 4
    {
      hide Ready, CalcOpt, Calc, Def, EnvOf, FirstDefault, Keeps, AllValid, DefaultsConsulted;
      var d, cond := GetDefaultProp(Def(table, s).defaults, rank(s));
      ds := DefaultSymbol(d);
      ghost var m, seen := Marked(), DefaultsConsulted(Def(table, s).defaults, EnvOf(sol));
      if ds.Some? {
        CalcSettled(ds.value, rank(s));
        KeepsTrans(rank, rank(s), old(Marked()), m, Marked());
        OneValid(Marked(), ds.value);
        seen := MoreValid(rank(s), m, seen, {ds.value});
      }
      assert seen == DefaultInputs(s);
    }

    /** The bool and tristate case of `sym_calc_value`. */
    method CalcTristate(s: Symbol) returns (newval: Value, write: bool)
      requires Ready(rank(s)) && LimitsKnown(s) && s.Logical() && era(s) == modulesVal
      requires AllBelow(DefaultConsulted(CurrentSetup(), s, EnvOf(sol)), rank(s))
      modifies this
      ensures OnlyMarks() && Ready(rank(s)) && Keeps(rank, rank(s), old(Marked()), Marked())
      ensures newval == Compute(CurrentSetup(), s, sol)
      ensures write <==> Writes(CurrentSetup(), s, EnvOf(sol))
      ensures AllValid(Marked(), DefaultConsulted(CurrentSetup(), s, EnvOf(sol)))
      decreases rank(s), 5
    {
      hide Ready, EnvOf, Visible, DirDep, RevDep, Implied, FirstDefault, Keeps, AllValid, DefaultsConsulted, DefaultTri,
        ValueConsulted;
      KeepsRefl(rank, rank(s), Marked());
      ghost var st, c := State(s), CurrentSetup();
      var tri := T.NO;
      write := State(s).write;
      NoneValid(Marked());
      if State(s).visible != T.NO && s in user {
        tri := T.And(user[s].tri, State(s).visible);
      } else {
        if State(s).revDep != T.NO {
          write := true;
        }
        tri := CalcDefault(s);
        KeepsGivesBut(rank, s, old(Marked()), Marked());
        if tri != T.NO {
          write := true;
        }
        if State(s).implied != T.NO {
          write := true;
          tri := T.Or(tri, State(s).implied);
        }
      }
      assert State(s) == st && CurrentSetup() == c;
      tri := T.Or(tri, State(s).revDep);
      if tri == T.MOD && (EffectiveType(s, modulesVal) == Boolean || State(s).implied == T.YES) {
        tri := T.YES;
      }
      newval := Value(tri, "n");
    }

    /** The string, hex and int case of `sym_calc_value`. */
    method CalcString(s: Symbol) returns (newval: Value, write: bool)
      requires Ready(rank(s)) && LimitsKnown(s) && Textual(s) && era(s) == modulesVal
      requires AllBelow(DefaultConsulted(CurrentSetup(), s, EnvOf(sol)), rank(s))
      modifies this
      ensures OnlyMarks() && Ready(rank(s)) && Keeps(rank, rank(s), old(Marked()), Marked())
      ensures newval == Compute(CurrentSetup(), s, sol)
      ensures write <==> Writes(CurrentSetup(), s, EnvOf(sol))
      ensures AllValid(Marked(), DefaultConsulted(CurrentSetup(), s, EnvOf(sol)))
      decreases rank(s), 5
    {
      hide Ready, CalcOpt, Calc, Def, EnvOf, Visible, DirDep, RevDep, Implied, FirstDefault, Keeps, AllValid,
        DefaultsConsulted;
      KeepsRefl(rank, rank(s), Marked());
      NoneValid(Marked());
      write := State(s).write;
      newval := Value(T.NO, "");
      if State(s).visible != T.NO && s in user {
        newval := Value(T.NO, user[s].val);
      } else {
        var ds := CalcDefaultString(s);
        if ds.Some? {
          write := true;
          newval := Value(T.NO, State(ds.value).curr.val);
        }
      }
    }

    /** The body of `sym_calc_value` for a symbol that has just been marked valid. */
    method CalcCurr(s: Symbol)
      requires Ready(rank(s)) && Calculated(s) && State(s).valid && !State(s).write && s !in cleared
      requires era(s) == modulesVal && scope(s)
      modifies this
      ensures OnlyMarks() && Ready(rank(s)) && KeepsBut(rank, s, old(Marked()), Marked())
      ensures State(s).valid && IsRight(State(s), s in cleared, CurrentSetup(), s, sol)
      ensures Supported(Marked(), CurrentSetup(), sol, s)
      decreases rank(s), 7
    {
      hide Ready, KeepsBut, Compute, Writes, Visible, DirDep, RevDep, Implied, EnvOf, AllValid, LimitsConsulted,
        DefaultConsulted;
      SolvedAt(s);
      ghost var c, m1 := CurrentSetup(), Marked();
      ConsultedBelow(s);
      CalcVisibility(s);
      ghost var m2, limits := Marked(), LimitsConsulted(c, s, EnvOf(sol));
      label Seen:
      states := states[s := State(s).(write := State(s).visible != T.NO, curr := BareValue(s))];
      WriteReady@Seen(s);
      KeepsButTrans(rank, s, m1, m2, Marked());
      StayValidBut(rank, s, m2, Marked(), limits);
      CalcRest(s, m1, limits);
    }

    /** The part of `sym_calc_value` behind the visibility. */
    method CalcRest(s: Symbol, ghost m1: Marks, ghost limits: set<Symbol>)
      requires Ready(rank(s)) && LimitsKnown(s) && Calculated(s) && State(s).valid && s !in cleared
      requires era(s) == modulesVal && scope(s) && sol(s) == Compute(CurrentSetup(), s, sol)
      requires AllBelow(DefaultConsulted(CurrentSetup(), s, EnvOf(sol)), rank(s))
      requires KeepsBut(rank, s, m1, Marked())
      requires limits == LimitsConsulted(CurrentSetup(), s, EnvOf(sol)) && AllValid(Marked(), limits)
      modifies this
      ensures OnlyMarks() && Ready(rank(s)) && KeepsBut(rank, s, m1, Marked())
      ensures State(s).valid && IsRight(State(s), s in cleared, CurrentSetup(), s, sol)
      ensures Supported(Marked(), CurrentSetup(), sol, s)
      decreases rank(s), 6
    {
      hide Ready, Keeps, KeepsBut, Compute, Writes, Visible, DirDep, RevDep, Implied, EnvOf, AllValid, LimitsConsulted,
        DefaultConsulted;
      ghost var m3 := Marked();
      var newval, write;
      if s.Logical() {
        newval, write := CalcTristate(s);
      } else {
        newval, write := CalcString(s);
      }
      ghost var m4 := Marked();
      ghost var all := MoreValid(rank(s), m3, limits, DefaultConsulted(CurrentSetup(), s, EnvOf(sol)));
      KeepsGivesBut(rank, s, m3, m4);
      KeepsButTrans(rank, s, m1, m3, m4);
      label Known:
      states := states[s := State(s).(curr := newval, write := write)];
      WriteReady@Known(s);
      KeepsButTrans(rank, s, m1, m4, Marked());
      StayValidBut(rank, s, m4, Marked(), all);
    }

    /** What `sym_calc_value` may be called for: only `modules_sym` itself may have another value than `modules_val`. */
    ghost predicate ReadyFor(s: Symbol, limit: nat)
      reads this
    {
      && Ready(rank(s)) && LinkedBelow(limit)
      && AllRight(Marked(), CurrentSetup(), sol, rank, limit) && rank(s) < limit && scope(s)
    }

    /** `modules_val` follows `modules_sym`; nothing else but marks has changed. */
    twostate predicate Follows(s: Symbol)
      reads this
    {
      && user == old(user) && sol == old(sol) && era == old(era) && scope == old(scope)
      && modulesVal == if modulesSym == Some(s) then sol(s).tri else old(modulesVal)
    }

    /** `sym_calc_value`. */
    method CalcValue(s: Symbol, ghost limit: nat)
      requires ReadyFor(s, limit)
      modifies this
      ensures Follows(s) && LinkedBelow(limit) && Keeps(rank, limit, old(Marked()), Marked())
      ensures AllRight(Marked(), CurrentSetup(), sol, rank, limit)
      ensures SteadyMarks(Marked(), scope, era, old(modulesVal))
      ensures State(s).valid && State(s).curr == sol(s)
      decreases rank(s), 10
    {
      hide AllRight, Keeps, Compute, EnvOf, SteadyMarks, Ready;
      SolvedAt(s);
      RightAt(s, limit);
      SteadyFor(s);
      KeepsRefl(rank, limit, Marked());
      if !State(s).valid {
        CalcAnew(s, limit);
      }
    }

    /** A symbol without a type that can be calculated. */
    method MarkFixed(s: Symbol)
      requires Ready(rank(s)) && !Calculated(s) && sol(s) == Compute(CurrentSetup(), s, sol) && scope(s)
      modifies this
      ensures OnlyMarks() && Ready(rank(s)) && KeepsBut(rank, s, old(Marked()), Marked())
      ensures State(s).valid && IsRight(State(s), s in cleared, CurrentSetup(), s, sol)
      decreases rank(s), 7
    {
      hide Ready, KeepsBut, IsRight, Compute, FixedValue;
      states := states[s := State(s).(valid := true, curr := FixedValue(s))];
      WriteReady(s);
      FixedIsRight(s);
    }

    /** Any other symbol is marked VALID before it is calculated. */
    method MarkAndCalc(s: Symbol)
      requires Ready(rank(s)) && Calculated(s) && era(s) == modulesVal && scope(s)
      modifies this
      ensures OnlyMarks() && Ready(rank(s)) && KeepsBut(rank, s, old(Marked()), Marked())
      ensures State(s).valid && IsRight(State(s), s in cleared, CurrentSetup(), s, sol)
      ensures Supported(Marked(), CurrentSetup(), sol, s)
      decreases rank(s), 8
    {
      hide Ready, KeepsBut, IsRight, Supported, Calculated;
      states := states[s := State(s).(valid := true, write := false)];
      cleared := cleared - {s};
      WriteReady(s);
      ghost var m := Marked();
      CalcCurr(s);
      KeepsButTrans(rank, s, old(Marked()), m, Marked());
    }

    /** The part of `sym_calc_value` behind the test for SYMBOL_VALID. */
    method CalcAnew(s: Symbol, ghost limit: nat)
      requires ReadyFor(s, limit) && !State(s).valid && sol(s) == Compute(CurrentSetup(), s, sol)
      modifies this
      ensures Follows(s) && LinkedBelow(limit) && Keeps(rank, limit, old(Marked()), Marked())
      ensures AllRight(Marked(), CurrentSetup(), sol, rank, limit)
      ensures SteadyMarks(Marked(), scope, era, old(modulesVal))
      ensures State(s).valid && State(s).curr == sol(s)
      decreases rank(s), 9
    {
      hide Ready, AllRight, Keeps, KeepsBut, IsRight, EnvOf, Supported, Compute, SteadyMarks, Calculated;
      ghost var m := Marked();
      if !Calculated(s) {
        MarkFixed(s);
        CalcDone(s, limit, m);
        return;
      }
      PendingEra(s);
      var oldval := State(s).curr;
      MarkAndCalc(s);
      CalcDone(s, limit, m);
      if modulesSym == Some(s) && oldval != State(s).curr {
        modulesVal := State(s).curr.tri;
      }
    }

    /** `sym_calc_value` where `modules_val` is settled. */
    method CalcSettled(s: Symbol, ghost limit: nat)
      requires Ready(limit) && AllBelow({s}, limit)
      modifies this
      ensures OnlyMarks() && Ready(limit) && Keeps(rank, limit, old(Marked()), Marked())
      ensures State(s).valid && State(s).curr == sol(s)
      decreases rank(s), 11
    {
      ReadyLower(s, limit);
      hide AllRight, Keeps, SteadyMarks, Closed, Acyclic, Solves;
      CalcValue(s, limit);
    }

    /** A symbol below the limit can be calculated where everything below the limit can. */
    lemma ReadyLower(s: Symbol, limit: nat)
      requires Ready(limit) && AllBelow({s}, limit)
      ensures ReadyFor(s, limit)
    {
      hide IsRight, Supported, SteadyMarks, Closed, Acyclic, Solves;
    }

    lemma SteadyFor(s: Symbol)
      requires Ready(rank(s))
      ensures SteadyMarks(Marked(), scope, era, modulesVal)
    {
      hide AllRight, Closed, Acyclic, Solves, SteadyMarks;
    }

    /** What is not valid is going to be calculated under the present `modules_val`. */
    lemma PendingEra(s: Symbol)
      requires Ready(rank(s)) && !State(s).valid
      ensures era(s) == modulesVal
    {
      hide AllRight, Closed, Acyclic, Solves;
    }

    /** Once s is right, everything below the limit is. */
    lemma CalcDone(s: Symbol, limit: nat, m: Marks)
      requires rank(s) < limit && AllRight(m, CurrentSetup(), sol, rank, limit) && !StateOf(m.states, s).valid
      requires Ready(rank(s)) && KeepsBut(rank, s, m, Marked()) && State(s).valid
      requires IsRight(State(s), s in cleared, CurrentSetup(), s, sol)
      requires Calculated(s) ==> Supported(Marked(), CurrentSetup(), sol, s)
      requires modulesSym.Some? && rank(modulesSym.value) < limit ==>
                 modulesSym.value.Logical() && StateOf(m.states, modulesSym.value).curr.tri == modulesVal
      ensures AllRight(Marked(), CurrentSetup(), sol, rank, limit) && Keeps(rank, limit, m, Marked())
      ensures SteadyMarks(Marked(), scope, era, modulesVal) && State(s).curr == sol(s)
      ensures modulesSym != Some(s) ==> LinkedBelow(limit)
      ensures modulesSym == Some(s) ==> Calculated(s) && s.Logical()
    {
      hide SettledBelow, AllRight, LimitsAre, Writes, Closed, SteadyMarks, Consulted;
      SymbolDone(rank, s, limit, m, Marked(), CurrentSetup(), sol);
    }

    lemma FixedIsRight(s: Symbol)
      requires !Calculated(s) && sol(s) == Compute(CurrentSetup(), s, sol) && State(s).curr == FixedValue(s)
      ensures IsRight(State(s), s in cleared, CurrentSetup(), s, sol)
    {
    }

    /** The equation of a symbol. */
    lemma SolvedAt(s: Symbol)
      requires Ready(rank(s))
      ensures sol(s) == Compute(CurrentSetup(), s, sol)
    {
      hide AllRight, Closed, SteadyMarks, Acyclic, Compute;
    }

    lemma RightAt(s: Symbol, limit: nat)
      requires AllRight(Marked(), CurrentSetup(), sol, rank, limit) && rank(s) < limit
      ensures State(s).valid ==> State(s).curr == sol(s)
    {
      hide LimitsAre, Writes, Supported;
    }

    // ----- the public face

    /** The start of the program: no modules, no user values, nothing calculated. */
    constructor (table: Table, modulesSym: Option<Symbol>, ghost rank: Ranking)
      requires Acyclic(table, rank) && (modulesSym.Some? ==> modulesSym.value.Logical())
      ensures this.table == table && this.rank == rank && this.modulesSym == modulesSym
      ensures user == map[] && modulesVal == T.NO && states == map[] && Started()
      ensures forall s :: State(s).valid <==> s in {ConstYes, ConstMod, ConstNo}
      ensures State(ConstYes).curr.tri == T.YES && State(ConstMod).curr.tri == T.MOD && State(ConstNo).curr.tri == T.NO
    {
      this.table, this.modulesSym, this.modulesVal, this.rank := table, modulesSym, T.NO, rank;
      user, states, cleared := map[], map[], {};
      era, scope, sol := Always(T.NO), Everything(), Solution(Setup(table, map[], Always(T.NO)), rank);
    }

    /** `sym_calc_value` as called from outside: it makes the symbol valid and keeps every VALID symbol right. */
    method CalcSymbol(s: Symbol)
      requires Consistent()
      modifies this
      ensures Consistent() && OnlyMarks() && Keeps(rank, rank(s) + 1, old(Marked()), Marked())
      ensures State(s).valid && State(s).curr == Solution(CurrentSetup(), rank)(s)
    {
      hide Consistent, Ready, Keeps, Solution;
      ReadyBelow(rank(s) + 1);
      ScopeIsEverything();
      CalcSettled(s, rank(s) + 1);
      StillConsistent(rank(s) + 1);
      ValidIsSolution(s);
    }

    lemma ReadyBelow(limit: nat)
      requires Consistent()
      ensures Ready(limit)
    {
      hide IsRight, Supported, SteadyMarks, Acyclic, Solves, Consulted;
    }

    lemma ScopeIsEverything()
      requires Consistent()
      ensures scope == Everything()
    {
      hide RightMarks, SteadyMarks, IsSettled, Everything;
    }

    twostate lemma StillConsistent(limit: nat)
      requires old(Consistent()) && OnlyMarks() && Ready(limit) && Keeps(rank, limit, old(Marked()), Marked())
      ensures Consistent()
    {
      hide IsSettled, SettledBelow, AllRight, RightMarks, SteadyMarks, Closed;
      StillRight(old(Marked()), Marked(), CurrentSetup(), sol, rank, limit);
    }

    /**
     Whatever the order of the calls, every symbol asked for gets the value of
     the plain definition, in which every symbol has the `modules_val` of its era.
     */
    method CalcSymbols(ss: seq<Symbol>)
      requires Consistent()
      modifies this
      ensures Consistent() && OnlyMarks()
      ensures forall s :: State(s).valid ==> State(s).curr == Solution(CurrentSetup(), rank)(s)
      ensures forall s :: s in ss ==> State(s).valid
    {
      hide Consistent, Solution;
      for i := 0 to |ss|
        invariant Consistent() && OnlyMarks()
        invariant forall j :: 0 <= j < i ==> State(ss[j]).valid
      {
        CalcSymbol(ss[i]);
      }
      forall s | State(s).valid ensures State(s).curr == Solution(CurrentSetup(), rank)(s) {
        ValidIsSolution(s);
      }
    }

    lemma ValidIsSolution(s: Symbol)
      requires Consistent() && State(s).valid
      ensures State(s).curr == Solution(CurrentSetup(), rank)(s)
    {
      hide LimitsAre, Writes, Supported, SteadyMarks, Solution;
      SolutionSolves(CurrentSetup(), rank);
      SolutionIsUnique(CurrentSetup(), rank, sol, Solution(CurrentSetup(), rank));
    }

    /** With one era, every VALID symbol is right for the present `modules_val`. */
    lemma ValidIsCurrent()
      requires Valid()
      ensures Current()
    {
      hide RightMarks, SteadyMarks, Solution;
      SolutionSolves(CurrentSetup(), rank);
      SolutionIsUnique(CurrentSetup(), rank, sol, Solution(CurrentSetup(), rank));
      RightTransfer(Marked(), CurrentSetup(), sol, Solution(CurrentSetup(), rank));
    }

    /** Clearing SYMBOL_WRITE after a symbol has been written. */
    method ClearWrite(s: Symbol)
      requires Consistent() && State(s).valid
      modifies this
      ensures Consistent() && OnlyMarks() && cleared == old(cleared) + {s}
      ensures State(s) == old(State(s)).(write := false)
      ensures forall x :: x != s ==> State(x) == old(State(x))
    {
      hide IsSettled, RightMarks, SteadyMarks;
      states := states[s := State(s).(write := false)];
      cleared := cleared + {s};
      StillRightCleared(old(Marked()), Marked(), CurrentSetup(), sol, s);
      StillSteady(old(Marked()), Marked(), scope, era, modulesVal);
    }

    // ----- sym_get_string_value, sym_get_string_default

    /** `sym_get_string_value`, which looks at `modules_sym` once more for an `m`. */
    method GetStringValue(s: Symbol) returns (str: string)
      requires Valid()
      modifies this
      ensures Valid() && ValidKept() && str == StringValue(s, Solution(CurrentSetup(), rank)(s))
    {
      hide Consistent, Solution, Keeps, KeptMarks;
      ghost var m0 := Marked();
      CalcSymbol(s);
      ghost var m1 := Marked();
      KeepsIsKept(rank, rank(s) + 1, m0, m1);
      var v := State(s).curr;
      if !s.Logical() || v.tri != T.MOD {
        return StringValue(s, v);
      }
      ModMeansModules(s);
      if modulesSym == None {
        LinkedNow();
        return "n";
      }
      CalcSymbol(modulesSym.value);
      KeepsIsKept(rank, rank(modulesSym.value) + 1, m1, Marked());
      KeptTrans(m0, m1, Marked());
      LinkedNow();
      str := if State(modulesSym.value).curr.tri == T.NO then "n" else "m";
    }

    /** A bool or tristate can be `m` only with modules. */
    lemma ModMeansModules(s: Symbol)
      requires Valid() && s.Logical() && Solution(CurrentSetup(), rank)(s).tri == T.MOD
      ensures modulesVal != T.NO
    {
      hide RightMarks, SteadyMarks, Solution, Acyclic;
      SolutionSolves(CurrentSetup(), rank);
      if modulesVal == T.NO {
        NoModWithoutModules(CurrentSetup(), Solution(CurrentSetup(), rank), s);
      }
    }

    lemma LinkedNow()
      requires Consistent()
      ensures Linked()
    {
      hide RightMarks, SteadyMarks, IsSettled;
    }

    /** What the active default of a symbol is evaluated from is below it. */
    lemma InputsBelow(s: Symbol)
      requires Consistent()
      ensures AllBelow(DefaultInputs(s), rank(s))
    {
      hide RightMarks, SteadyMarks, Solves, EnvOf;
      DefaultsConsultedRead(Def(table, s).defaults, EnvOf(sol));
      assert DefaultInputs(s) <= Reads(Def(table, s));
    }

    /** `sym_get_string_default` after the visibility has been calculated. */
    method DefaultString(s: Symbol) returns (str: string)
      requires Ready(rank(s)) && Calculated(s) && LimitsAre(State(s), CurrentSetup(), s, EnvOf(sol))
      requires era(s) == modulesVal && AllBelow(DefaultInputs(s), rank(s))
      modifies this
      ensures OnlyMarks() && Ready(rank(s)) && Keeps(rank, rank(s), old(Marked()), Marked())
      ensures str == StringDefault(CurrentSetup(), s, sol)
    {
      hide Ready, Keeps, KeepsBut, DefaultTri, FirstDefault, Visible, DirDep, RevDep, Implied, EnvOf, AllValid,
        DefaultInputs;
      if s.Logical() {
        var val := CalcDefault(s);
        KeepsGivesBut(rank, s, old(Marked()), Marked());
        val := DefaultValue(val, State(s).revDep, State(s).implied, s, modulesVal);
        str := T.Letter(val);
      } else {
        str := "";
        var ds := CalcDefaultString(s);
        if ds.Some? {
          str := State(ds.value).curr.val;
        }
      }
    }

    /** Nothing has happened to the symbols that were valid. */
    twostate predicate ValidKept()
      reads this
    {
      OnlyMarks() && KeptMarks(old(Marked()), Marked())
    }

    /** `sym_get_string_default`, whether or not the symbol has been calculated. */
    method GetStringDefault(s: Symbol) returns (str: string)
      requires Valid() && Calculated(s)
      modifies this
      ensures Valid() && ValidKept()
      ensures str == StringDefault(CurrentSetup(), s, sol)
    {
      hide Consistent, Ready, LimitsAre, StringDefault, Keeps, KeptMarks, AllBelow;
      ghost var m0 := Marked();
      CalcLimitsAgain(s);
      ghost var m1 := Marked();
      KeptRefl(m1);
      if modulesSym.Some? {
        CalcModulesAgain(s);
      }
      ghost var m2 := Marked();
      KeptTrans(m0, m1, m2);
      label Known:
      ReadyBelow(rank(s));
      InputsBelow(s);
      str := DefaultString(s);
      StillConsistent@Known(rank(s));
      KeepsIsKept(rank, rank(s), m2, Marked());
      KeptTrans(m0, m2, Marked());
    }

    /** `sym_calc_visibility` once more, or before the symbol is calculated. */
    method CalcLimitsAgain(s: Symbol)
      requires Valid() && Calculated(s)
      modifies this
      ensures Valid() && ValidKept() && LimitsAre(State(s), CurrentSetup(), s, EnvOf(sol))
    {
      hide Consistent, EnvOf, AllValid, LimitsConsulted, LimitsAre, KeepsBut, Ready, AllBelow, KeptMarks;
      ghost var m := Marked();
      ReadyBelow(rank(s));
      ScopeIsEverything();
      ConsultedBelow(s);
      LimitsKept(s);
      CalcVisibility(s);
      SameLimitsSame(s, m);
      StillConsistentBut(s);
    }

    lemma LimitsKept(s: Symbol)
      requires Consistent() && Calculated(s)
      ensures State(s).valid ==> LimitsAre(State(s), CurrentSetup(), s, EnvOf(sol))
    {
      hide LimitsAre, Writes, Supported, SteadyMarks, IsSettled;
    }

    twostate lemma StillConsistentBut(s: Symbol)
      requires old(Consistent()) && OnlyMarks() && KeepsBut(rank, s, old(Marked()), Marked()) && Ready(rank(s))
      requires State(s).valid == old(State(s)).valid && (State(s).valid ==> SameMark(old(Marked()), Marked(), s))
      requires State(s).curr == old(State(s)).curr
      ensures Consistent() && ValidKept()
    {
      hide IsSettled, SettledBelow, AllRight, RightMarks, SteadyMarks, Closed;
      StillRightBut(s, old(Marked()), Marked(), CurrentSetup(), sol, rank);
    }

    /** Limits that were right are stored again. */
    lemma SameLimitsSame(s: Symbol, m: Marks)
      requires LimitsAre(State(s), CurrentSetup(), s, EnvOf(sol))
      requires StateOf(m.states, s).valid ==> LimitsAre(StateOf(m.states, s), CurrentSetup(), s, EnvOf(sol))
      requires var st := StateOf(m.states, s);
               State(s).valid == st.valid && State(s).curr == st.curr && State(s).write == st.write
                 && (s in cleared <==> s in m.cleared)
      ensures State(s).valid ==> SameMark(m, Marked(), s)
    {
    }

    /** `modules_sym` is calculated; the limits of s stay what they are. */
    method CalcModulesAgain(s: Symbol)
      requires Valid() && Calculated(s) && modulesSym.Some? && LimitsAre(State(s), CurrentSetup(), s, EnvOf(sol))
      modifies this
      ensures Valid() && ValidKept() && LimitsAre(State(s), CurrentSetup(), s, EnvOf(sol))
    {
      hide Consistent, LimitsAre, Solution, Keeps, KeptMarks;
      ghost var m := Marked();
      CalcSymbol(modulesSym.value);
      KeepsIsKept(rank, rank(modulesSym.value) + 1, m, Marked());
      LimitsKept(s);
      SameOrValid(rank, rank(modulesSym.value) + 1, m, Marked(), s);
    }

    // ----- sym_clear_all_valid

    /** The loop of `sym_clear_all_valid`; the three constants are not in the symbol table. */
    method Invalidate()
      modifies this
      ensures OnlyMarks() && cleared == {}
      ensures forall s :: State(s) == old(State(s)).(valid := AlwaysValid(s))
    {
      states := map s | s in states :: states[s].(valid := AlwaysValid(s));
      cleared := {};
    }

    /** Only the constants are VALID, and they are right. */
    ghost predicate Fresh()
      reads this
    {
      && Started() && cleared == {} && (forall s :: State(s).valid <==> AlwaysValid(s))
      && era == Always(modulesVal) && sol == Solution(PlainSetup(), rank)
      && scope == OnTheWay(PlainSetup(), rank, modulesSym)
    }

    /** The marks are cleared; what is going to be calculated is what is on the way to `modules_sym`. */
    method Begin()
      requires Started()
      modifies this
      ensures Fresh() && user == old(user) && modulesVal == old(modulesVal)
    {
      hide Acyclic, FixedValue, OnTheWay;
      Invalidate();
      era, sol, scope := Always(modulesVal), Solution(PlainSetup(), rank), OnTheWay(PlainSetup(), rank, modulesSym);
    }

    static lemma ConstantIsFixed(c: Setup, s: Symbol, a: Assignment)
      requires AlwaysValid(s) && Solves(c, a)
      ensures a(s) == FixedValue(s) && !Calculated(s)
    {
      assert a(s) == Compute(c, s, a);
    }

    /** The constants are right, and everything VALID is in the scope. */
    lemma FreshIsRight()
      requires Fresh()
      ensures RightUnder(CurrentSetup(), sol) && Steady() && Solves(CurrentSetup(), sol)
    {
      hide Solution, Acyclic, Reaches, Consulted, Closed, Compute, LimitsAre, Writes;
      SolutionSolves(PlainSetup(), rank);
      OnTheWayIsClosed(PlainSetup(), rank, modulesSym);
      forall s | AlwaysValid(s) ensures sol(s) == FixedValue(s) && !Calculated(s) {
        ConstantIsFixed(PlainSetup(), s, sol);
      }
    }

    /** What `modules_sym` needs to be calculated under the old `modules_val`. */
    lemma FreshIsReady(s: Symbol)
      requires Fresh() && modulesSym == Some(s)
      ensures ReadyFor(s, rank(s) + 1)
    {
      hide Reaches, Consulted, Solution, SteadyMarks, Solves, Acyclic, IsRight, Supported, Closed, OnTheWay;
      FreshIsRight();
      SelfOnTheWay(PlainSetup(), rank, s);
    }

    /** The state in which `modules_sym` has been calculated, with everything on the way. */
    ghost predicate OnTheWayDone(c: Setup)
      reads this
    {
      && Started() && cleared == {} && RightUnder(c, Solution(c, rank))
      && (forall s :: State(s).valid <==> OnTheWay(c, rank, modulesSym)(s))
      && modulesVal == (if modulesSym.Some? then Solution(c, rank)(modulesSym.value).tri else T.NO)
    }

    /** `modules_sym` is calculated under the old `modules_val`. */
    method CalcModules()
      requires Fresh()
      modifies this
      ensures user == old(user) && OnTheWayDone(old(PlainSetup()))
    {
      hide Fresh, Ready, AllRight, RightMarks, SteadyMarks, Keeps, Solution, OnTheWay;
      ghost var c := PlainSetup();
      FreshIs(c);
      FreshIsRight();
      if modulesSym.Some? {
        FreshIsReady(modulesSym.value);
        ghost var m := Marked();
        CalcValue(modulesSym.value, rank(modulesSym.value) + 1);
        StillRight(m, Marked(), c, sol, rank, rank(modulesSym.value) + 1);
        KeepsIsKept(rank, rank(modulesSym.value) + 1, m, Marked());
        WayDone(c, m, modulesSym.value);
      } else {
        NothingOnTheWay(c);
      }
    }

    lemma FreshIs(c: Setup)
      requires Fresh() && c == PlainSetup()
      ensures CurrentSetup() == c && sol == Solution(c, rank) && scope == OnTheWay(c, rank, modulesSym)
      ensures Started() && cleared == {} && (forall s :: State(s).valid <==> AlwaysValid(s))
      ensures c.modules == Always(modulesVal)
    {
      hide OnTheWay, Solution, Started;
    }

    lemma NothingOnTheWay(c: Setup)
      requires Fresh() && c == PlainSetup() && RightUnder(CurrentSetup(), sol) && modulesSym.None?
      ensures OnTheWayDone(c)
    {
      hide Solution, RightMarks, Acyclic;
    }

    lemma WayDone(c: Setup, m: Marks, s: Symbol)
      requires Acyclic(table, rank) && modulesSym == Some(s) && LinkedBelow(rank(s) + 1)
      requires sol == Solution(c, rank) && RightUnder(c, sol) && State(s).valid && State(s).curr == sol(s)
      requires modulesVal == sol(s).tri && m.cleared == {}
      requires scope == OnTheWay(c, rank, modulesSym) && SteadyMarks(Marked(), scope, era, c.modules(s))
      requires KeptMarks(m, Marked())
      requires forall x :: AlwaysValid(x) ==> StateOf(m.states, x).valid && StateOf(m.states, x).curr == FixedValue(x)
      ensures OnTheWayDone(c)
    {
      hide Solution, RightMarks, Acyclic, Reaches, FixedValue;
      forall x | AlwaysValid(x) ensures State(x).valid && State(x).curr == FixedValue(x) {
        assert SameMark(m, Marked(), x);
      }
      OnlyReached(Marked(), c, rank, s);
    }

    /**
     `sym_clear_all_valid`: everything on the way to `modules_sym` is calculated
     under the old `modules_val`, and nothing else; then `modules_val` follows.
     Every VALID symbol is right for the present `modules_val` exactly if the
     old values survive.
     */
    method ClearAllValid()
      requires Started()
      modifies this
      ensures Consistent() && user == old(user) && OnTheWayDone(old(PlainSetup()))
      ensures CurrentSetup() == After(old(PlainSetup()), rank, modulesSym) && sol == Solution(CurrentSetup(), rank)
      ensures Current() <==> (modulesSym.Some? ==> Survives(old(PlainSetup()), rank, modulesSym.value))
      ensures Current() ==> Valid()
    {
      hide Started, Fresh, OnTheWayDone, Current, Consistent, After, Survives;
      ghost var c := PlainSetup();
      NoModules();
      Begin();
      CalcModules();
      Settle(c, old(modulesVal));
    }

    lemma NoModules()
      requires Started()
      ensures OneEra(PlainSetup(), modulesVal)
    {
      hide Acyclic, FixedValue;
    }

    /** The values are those of the new setup, in which what is on the way keeps its era. */
    ghost method Settle(c: Setup, v: Tristate)
      requires OnTheWayDone(c) && OneEra(c, v)
      modifies this`era, this`scope, this`sol
      ensures Consistent() && OnTheWayDone(c)
      ensures CurrentSetup() == After(c, rank, modulesSym) && sol == Solution(CurrentSetup(), rank)
      ensures Current() <==> (modulesSym.Some? ==> Survives(c, rank, modulesSym.value))
      ensures Current() ==> Valid()
    {
      hide RightMarks, OnTheWay, FixedValue, Acyclic, Consistent, Current, After, Survives, Solution;
      var c' := After(c, rank, modulesSym);
      AfterKeeps(c, rank, modulesSym);
      era, scope, sol := c'.modules, Everything(), Solution(c', rank);
      AfterIsConsistent(c, v);
      AfterIsCurrent(c, v);
    }

    /** The setup in which everything has one `modules_val`. */
    ghost predicate OneEra(c: Setup, v: Tristate)
      reads this
    {
      c.table == table && c.user == user && c.modules == Always(v) && (modulesSym.None? ==> v == T.NO)
    }

    lemma AfterIsConsistent(c: Setup, v: Tristate)
      requires OnTheWayDone(c) && OneEra(c, v)
      requires CurrentSetup() == After(c, rank, modulesSym) && scope == Everything()
      requires sol == Solution(After(c, rank, modulesSym), rank)
      ensures Consistent()
    {
      hide Solution, After, RightMarks, Acyclic, OnTheWay, FixedValue;
      SolutionSolves(After(c, rank, modulesSym), rank);
      if modulesSym.Some? {
        AfterValue(c, rank, modulesSym.value);
        RightAfter(Marked(), c, rank, modulesSym.value);
      } else {
        AfterNone(c, rank);
      }
      forall s | !State(s).valid ensures era(s) == modulesVal {
        AfterEra(c, v, rank, modulesSym, s);
      }
    }

    lemma AfterIsCurrent(c: Setup, v: Tristate)
      requires OnTheWayDone(c) && OneEra(c, v) && CurrentSetup() == After(c, rank, modulesSym)
      ensures Current() <==> (modulesSym.Some? ==> Survives(c, rank, modulesSym.value))
      ensures Current() ==> era == Always(modulesVal)
    {
      hide Solution, RightMarks, Acyclic, OnTheWay, FixedValue, Survives;
      if modulesSym.Some? {
        SurvivesExact(Marked(), c, rank, modulesSym.value);
        assert PlainSetup() == With(c, modulesVal);
      } else {
        assert PlainSetup() == c;
      }
    }

    /**
     `conf_read` of a file whose lines give the values, from whatever state: the
     user's values are replaced, the marks are cleared, and `modules_sym` is
     calculated under the old `modules_val`.
     */
    method ReadUser(values: UserValues)
      requires Started()
      modifies this
      ensures Consistent() && user == values
      ensures CurrentSetup() == After(old(PlainSetup()).(user := values), rank, modulesSym)
    {
      hide Consistent, OnTheWayDone, Current, After, Survives, Started;
      label Before:
      user := values;
      StillStarted@Before();
      ClearAllValid();
    }

    // ----- sym_set_tristate_value, sym_toggle_tristate_value

    /**
     An accepted new value val of s.  Everything on the way to `modules_sym` has
     been calculated with it, under the old `modules_val`, which may have changed
     since.  Calculating s gives val, whether or not that has happened already.
     The VALID symbols are right for the present `modules_val` exactly if the
     values on the way survive.
     */
    twostate predicate IsSet(s: Symbol, val: Tristate)
      reads this
    {
      var c := WithUser(old(PlainSetup()), s, val);
      && Consistent() && OnTheWayDone(c) && CurrentSetup() == After(c, rank, modulesSym)
      && Solution(CurrentSetup(), rank)(s).tri == val
      && (Current() <==> (modulesSym.Some? ==> Survives(c, rank, modulesSym.value)))
      && (Current() ==> Valid())
    }

    /**
     The value the symbol had already: nothing is calculated, and everything
     stays right exactly if the value fits.
     */
    twostate predicate IsSetAgain(s: Symbol, val: Tristate)
      reads this
    {
      && PlainSetup() == WithUser(old(PlainSetup()), s, val) && Marked() == old(Marked())
      && modulesVal == old(modulesVal)
      && (Current() <==> Fits(State(s), s, val, modulesVal)) && (Current() ==> Valid())
    }

    /**
     `sym_set_tristate_value`.  A new value is refused, with nothing changed,
     unless it is within range.
     */
    method SetTristateValue(s: Symbol, val: Tristate) returns (ok: bool)
      requires Valid() && State(s).valid && s.Logical()
      modifies this
      ensures ok <==> val == old(State(s)).curr.tri || WithinRange(old(State(s)), s, val, old(modulesVal))
      ensures !ok ==> OnlyMarks() && Marked() == old(Marked()) && Valid()
      ensures ok ==> if val != old(State(s)).curr.tri then IsSet(s, val) else IsSetAgain(s, val)
    {
      hide Valid, WithinRange, IsSet, IsSetAgain;
      var oldval := State(s).curr.tri;
      if oldval != val && !WithinRange(State(s), s, val, modulesVal) {
        return false;
      }
      if oldval != val {
        SetNewValue(s, val);
      } else {
        SetOldValue(s, val);
      }
      return true;
    }

    /** The assignment of the user's value, and then everything is calculated again. */
    method SetNewValue(s: Symbol, val: Tristate)
      requires Valid() && State(s).valid && s.Logical() && WithinRange(State(s), s, val, modulesVal)
      modifies this
      ensures IsSet(s, val)
    {
      hide Valid, Consistent, Started, WithinRange, OnTheWayDone, Current, After, Survives, Solution, Solves, Acyclic;
      ghost var c, v := PlainSetup(), modulesVal;
      NewValueIs(s, val);
      PlainSettled();
      ValidIsStarted();
      label Before:
      AssignUser(s, val);
      StillStarted@Before();
      ClearAllValid();
      NewValueStays(c, v, rank, modulesSym, s, val);
    }

    /** The assignment of the user's value, and nothing else. */
    method SetOldValue(s: Symbol, val: Tristate)
      requires Valid() && State(s).valid && s.Logical() && State(s).curr.tri == val
      modifies this
      ensures IsSetAgain(s, val)
    {
      hide Valid, RightMarks, SteadyMarks, IsSettled, Fits, Solution, Solves, Acyclic;
      ghost var c := PlainSetup();
      OldValueKept(s, val);
      AssignUser(s, val);
      AgainIsValid(c, s, val);
    }

    /** Right before and after the assignment, if the value fits. */
    lemma OldValueKept(s: Symbol, val: Tristate)
      requires Valid() && State(s).valid && s.Logical() && State(s).curr.tri == val
      ensures WasValid(PlainSetup())
      ensures var c' := WithUser(PlainSetup(), s, val);
              && (RightUnder(c', Solution(c', rank)) <==> Fits(State(s), s, val, modulesVal))
              && (Fits(State(s), s, val, modulesVal) ==> Solves(c', sol) && RightUnder(c', sol))
    {
      hide RightMarks, SteadyMarks, Acyclic, Solves, Fits, Solution;
      OldValueExact(Marked(), PlainSetup(), sol, rank, modulesVal, s, val);
    }

    /** The state has been valid with the setup c. */
    ghost predicate WasValid(c: Setup)
      reads this
    {
      && IsSettled(c, modulesSym, modulesVal, rank, sol) && Linked() && c.table == table && era == Always(modulesVal)
      && (forall x :: AlwaysValid(x) ==> State(x).valid)
      && SteadyMarks(Marked(), scope, era, modulesVal) && scope == Everything()
    }

    lemma AgainIsValid(c: Setup, s: Symbol, val: Tristate)
      requires WasValid(c) && CurrentSetup() == WithUser(c, s, val) && PlainSetup() == WithUser(c, s, val)
      requires var c' := WithUser(c, s, val);
               && (RightUnder(c', Solution(c', rank)) <==> Fits(State(s), s, val, modulesVal))
               && (Fits(State(s), s, val, modulesVal) ==> Solves(c', sol) && RightUnder(c', sol))
      ensures (Current() <==> Fits(State(s), s, val, modulesVal)) && (Current() ==> Valid())
    {
      hide RightMarks, SteadyMarks, Acyclic, Solves, Fits, Solution;
    }

    method AssignUser(s: Symbol, val: Tristate)
      modifies this`user
      ensures PlainSetup() == WithUser(old(PlainSetup()), s, val)
      ensures CurrentSetup() == WithUser(old(CurrentSetup()), s, val)
    {
      user := user[s := Value(val, if s in user then user[s].val else "")];
    }

    /** Every state of a consistent run is a state of a run. */
    lemma ValidIsStarted()
      requires Consistent()
      ensures Started()
    {
      hide SteadyMarks, LimitsAre, Writes, Supported, Acyclic, NewTri, NewVal;
      forall s | AlwaysValid(s) ensures State(s).curr == FixedValue(s) {
        assert IsRight(State(s), s in cleared, CurrentSetup(), s, sol) && sol(s) == Compute(CurrentSetup(), s, sol);
      }
    }

    /** The limits that are stored with a valid symbol belong to the current values. */
    lemma LimitsOf(s: Symbol)
      requires Valid() && State(s).valid && s.Logical()
      ensures LimitsAre(State(s), PlainSetup(), s, EnvOf(sol)) && State(s).curr == sol(s)
    {
      hide LimitsAre, SteadyMarks, Acyclic, Solves, Writes, Supported;
    }

    /** Nothing about the user's values matters there. */
    twostate lemma StillStarted()
      requires old(Started()) && Marked() == old(Marked()) && modulesVal == old(modulesVal)
      ensures Started()
    {
      hide Acyclic, FixedValue;
    }

    /** The plain definition gives `modules_sym` the present `modules_val`. */
    lemma PlainSettled()
      requires Valid()
      ensures Acyclic(table, rank) && Consistent()
      ensures modulesSym.Some? ==> Solution(PlainSetup(), rank)(modulesSym.value).tri == modulesVal
    {
      hide Consistent, Acyclic, Solves, Solution;
      SolvedNow();
      SolutionSolves(PlainSetup(), rank);
      SolutionIsUnique(PlainSetup(), rank, sol, Solution(PlainSetup(), rank));
    }

    lemma SolvedNow()
      requires Valid()
      ensures Acyclic(table, rank) && Solves(PlainSetup(), sol)
      ensures modulesSym.Some? ==> sol(modulesSym.value).tri == modulesVal
    {
      hide RightMarks, SteadyMarks, Acyclic, Solves;
    }

    lemma NewValueIs(s: Symbol, val: Tristate)
      requires Valid() && State(s).valid && s.Logical() && WithinRange(State(s), s, val, modulesVal)
      ensures Solution(WithUser(PlainSetup(), s, val), rank)(s).tri == val
    {
      hide Valid, LimitsAre, Solution, Acyclic, Solves, WithinRange, Fits, EnvOf;
      var c := PlainSetup();
      LimitsOf(s);
      SolvedNow();
      SolutionSolves(WithUser(c, s, val), rank);
      UserValueShows(c, s, val, rank, sol, Solution(WithUser(c, s, val), rank), State(s));
      WithinRangeFits(State(s), s, val, modulesVal);
      FitsMeans(State(s), s, val, modulesVal);
    }

    /** `sym_toggle_tristate_value`: at most three values are tried, and the one returned is set. */
    method ToggleTristateValue(s: Symbol) returns (newval: Tristate)
      requires Valid() && State(s).valid && s.Logical()
      modifies this
      ensures newval == Toggled(old(State(s)), s, old(modulesVal))
      ensures if newval != old(State(s)).curr.tri then IsSet(s, newval) else IsSetAgain(s, newval)
    {
      hide Valid, Consistent, Current, WithinRange, Fits, Survives, After, OnTheWayDone, Solution, StateOf, Always;
      ghost var st := State(s);
      var oldval := State(s).curr.tri;
      newval := oldval;
      var tries: nat := 0;
      while true
        invariant tries <= 2 && newval as int == (oldval as int + tries as int) % 3
        invariant Valid() && State(s) == st && OnlyMarks() && Marked() == old(Marked())
        invariant tries >= 1 ==> !WithinRange(st, s, NextTri(oldval), modulesVal)
        invariant tries >= 2 ==> !WithinRange(st, s, NextTri(NextTri(oldval)), modulesVal)
        decreases 3 - tries
      {
        newval := NextTri(newval);
        tries := tries + 1;
        var ok := SetTristateValue(s, newval);
        if ok {
          break;
        }
      }
    }
  }
}
