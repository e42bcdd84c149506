/**
 The fields of symbols that calculations update (`symbol.c`), when they are
 right, and what the user's value of a symbol does to them.
 */
module SymbolMarks {
  import opened Wrappers
  import opened Expressions
  import opened SymbolValues
  import opened ModulesSwitch
  import T = Tristates

  /** The fields of a `struct symbol` that a calculation updates. */
  datatype SymbolState = SymbolState(
    valid: bool,
    curr: Value,
    visible: Tristate,
    dirDep: Tristate,
    revDep: Tristate,
    implied: Tristate,
    write: bool)

  /** `symbol_yes`, `symbol_mod` and `symbol_no` are valid from the start and stay so. */
  predicate AlwaysValid(s: Symbol) {
    s == ConstYes || s == ConstMod || s == ConstNo
  }

  function InitialState(s: Symbol): SymbolState {
    var curr := if AlwaysValid(s) then FixedValue(s) else Value(T.NO, "");
    SymbolState(AlwaysValid(s), curr, T.NO, T.NO, T.NO, T.NO, false)
  }

  /** The limits of a symbol are those of its definition. */
  predicate LimitsAre(st: SymbolState, c: Setup, s: Symbol, env: Env) {
    && st.visible == Visible(c, s, env)
    && st.dirDep == DirDep(c, s, env)
    && st.revDep == RevDep(c, s, env)
    && st.implied == Implied(c, s, env)
  }

  /** The state of a valid symbol under the solution a; its flag may have been cleared since. */
  ghost predicate IsRight(st: SymbolState, cleared: bool, c: Setup, s: Symbol, a: Assignment) {
    && st.curr == a(s)
    && (Calculated(s) ==> LimitsAre(st, c, s, EnvOf(a)) && (st.write <==> !cleared && Writes(c, s, EnvOf(a))))
  }

  type States = map<Symbol, SymbolState>

  function StateOf(states: States, s: Symbol): SymbolState {
    if s in states then states[s] else InitialState(s)
  }

  /** All the fields that calculations update. */
  datatype Marks = Marks(states: States, cleared: set<Symbol>)

  /** The symbols are valid. */
  ghost predicate AllValid(m: Marks, ss: set<Symbol>) {
    forall s :: s in ss ==> StateOf(m.states, s).valid
  }

  /** What the value of s has been calculated from is valid. */
  ghost predicate Supported(m: Marks, c: Setup, a: Assignment, s: Symbol) {
    Calculated(s) ==> AllValid(m, Consulted(c, s, EnvOf(a)))
  }

  /** Below the limit, every valid symbol holds what the plain definition gives, calculated from valid symbols. */
  ghost predicate AllRight(m: Marks, c: Setup, a: Assignment, rank: Ranking, limit: nat) {
    forall s :: StateOf(m.states, s).valid && rank(s) < limit ==>
      IsRight(StateOf(m.states, s), s in m.cleared, c, s, a) && Supported(m, c, a, s)
  }

  ghost predicate RightMarks(m: Marks, c: Setup, a: Assignment) {
    forall s :: StateOf(m.states, s).valid ==>
      IsRight(StateOf(m.states, s), s in m.cleared, c, s, a) && Supported(m, c, a, s)
  }

  predicate SameMark(m: Marks, m': Marks, s: Symbol) {
    StateOf(m'.states, s) == StateOf(m.states, s) && (s in m'.cleared <==> s in m.cleared)
  }

  /** Only invalid symbols below the limit have changed, and those have become valid. */
  ghost predicate Keeps(rank: Ranking, limit: nat, m: Marks, m': Marks) {
    && (forall s :: rank(s) >= limit || StateOf(m.states, s).valid ==> SameMark(m, m', s))
    && (forall s :: SameMark(m, m', s) || StateOf(m'.states, s).valid)
    && m'.cleared <= m.cleared
  }

  /** Only the symbol and invalid symbols below it have changed. */
  ghost predicate KeepsBut(rank: Ranking, s: Symbol, m: Marks, m': Marks) {
    && (forall x :: x != s && (rank(x) >= rank(s) || StateOf(m.states, x).valid) ==> SameMark(m, m', x))
    && (forall x :: x != s ==> SameMark(m, m', x) || StateOf(m'.states, x).valid)
    && (StateOf(m.states, s).valid ==> StateOf(m'.states, s).valid)
    && m'.cleared <= m.cleared
  }

  lemma KeepsTrans(rank: Ranking, limit: nat, m0: Marks, m1: Marks, m2: Marks)
    requires Keeps(rank, limit, m0, m1) && Keeps(rank, limit, m1, m2)
    ensures Keeps(rank, limit, m0, m2)
  {
  }

  lemma StayValid(rank: Ranking, limit: nat, m: Marks, m': Marks, ss: set<Symbol>)
    requires Keeps(rank, limit, m, m') && AllValid(m, ss)
    ensures AllValid(m', ss)
  {
  }

  lemma OneValid(m: Marks, s: Symbol)
    requires StateOf(m.states, s).valid
    ensures AllValid(m, {s})
  {
  }

  lemma TwoValid(m: Marks, s: Symbol, s': Symbol)
    requires StateOf(m.states, s).valid && StateOf(m.states, s').valid
    ensures AllValid(m, {s, s'})
  {
  }

  lemma BothValid(m: Marks, ss: set<Symbol>, ss': set<Symbol>)
    requires AllValid(m, ss) && AllValid(m, ss')
    ensures AllValid(m, ss + ss')
  {
  }

  lemma NoneValid(m: Marks)
    ensures AllValid(m, {})
  {
  }

  lemma StayValidBut(rank: Ranking, s: Symbol, m: Marks, m': Marks, ss: set<Symbol>)
    requires KeepsBut(rank, s, m, m') && AllValid(m, ss)
    ensures AllValid(m', ss)
  {
    forall x | x in ss ensures StateOf(m'.states, x).valid {
      assert StateOf(m.states, x).valid;
    }
  }

  lemma KeepsRefl(rank: Ranking, limit: nat, m: Marks)
    ensures Keeps(rank, limit, m, m)
  {
  }

  lemma KeepsButTrans(rank: Ranking, s: Symbol, m0: Marks, m1: Marks, m2: Marks)
    requires KeepsBut(rank, s, m0, m1) && KeepsBut(rank, s, m1, m2)
    ensures KeepsBut(rank, s, m0, m2)
  {
  }

  lemma KeepsGivesBut(rank: Ranking, s: Symbol, m0: Marks, m1: Marks)
    requires Keeps(rank, rank(s), m0, m1)
    ensures KeepsBut(rank, s, m0, m1) && SameMark(m0, m1, s)
  {
  }

  lemma WriteKeepsBut(rank: Ranking, s: Symbol, m: Marks, m': Marks, st: SymbolState)
    requires m'.states == m.states[s := st] && (m'.cleared == m.cleared || m'.cleared == m.cleared - {s})
    requires StateOf(m.states, s).valid ==> st.valid
    ensures KeepsBut(rank, s, m, m')
    ensures forall x :: x != s ==> SameMark(m, m', x)
  {
    forall x | x != s ensures SameMark(m, m', x) {
    }
    assert StateOf(m'.states, s) == st;
    hide SameMark, StateOf;
  }

  /** Writing to the symbol itself disturbs nothing else. */
  lemma WriteSymbol(rank: Ranking, s: Symbol, m: Marks, m': Marks, st: SymbolState, c: Setup, a: Assignment)
    requires m'.states == m.states[s := st] && (m'.cleared == m.cleared || m'.cleared == m.cleared - {s})
    requires StateOf(m.states, s).valid ==> st.valid
    requires AllRight(m, c, a, rank, rank(s))
    ensures KeepsBut(rank, s, m, m') && AllRight(m', c, a, rank, rank(s)) && StateOf(m'.states, s) == st
  {
    hide IsRight, Consulted, Calculated, KeepsBut;
    WriteKeepsBut(rank, s, m, m', st);
    forall x | StateOf(m'.states, x).valid && rank(x) < rank(s) ensures Supported(m', c, a, x) {
      assert Supported(m, c, a, x);
      if Calculated(x) {
        StayValidBut(rank, s, m, m', Consulted(c, x, EnvOf(a)));
      }
    }
  }

  /** Once the symbol is right, everything up to the limit is. */
  lemma SymbolDone(rank: Ranking, s: Symbol, limit: nat, m: Marks, m': Marks, c: Setup, a: Assignment)
    requires rank(s) < limit && AllRight(m, c, a, rank, limit) && AllRight(m', c, a, rank, rank(s))
    requires !StateOf(m.states, s).valid
    requires KeepsBut(rank, s, m, m') && IsRight(StateOf(m'.states, s), s in m'.cleared, c, s, a)
    requires StateOf(m'.states, s).valid && Supported(m', c, a, s)
    ensures AllRight(m', c, a, rank, limit) && Keeps(rank, limit, m, m')
  {
    hide IsRight, Consulted, Calculated;
    forall x | x != s && StateOf(m'.states, x).valid && rank(s) <= rank(x) < limit
      ensures IsRight(StateOf(m'.states, x), x in m'.cleared, c, x, a) && Supported(m', c, a, x)
    {
      assert SameMark(m, m', x);
      assert Supported(m, c, a, x);
      if Calculated(x) {
        StayValidBut(rank, s, m, m', Consulted(c, x, EnvOf(a)));
      }
    }
  }

  /** The values of the two sides of a comparison. */
  function PairOf(left: Symbol, leftValue: Value, rightValue: Value): Assignment {
    (s: Symbol) => if s == left then leftValue else rightValue
  }

  lemma {:induction false} PromptSymbolsAt(ps: seq<Option<Expr>>, i: nat)
    requires i < |ps|
    ensures OptSymbols(ps[i]) <= PromptsSymbols(ps)
  {
    if i < |ps| - 1 {
      PromptSymbolsAt(ps[..|ps| - 1], i);
    }
  }

  /** The assignment solves the table, and v is what `modules_sym` is worth if that is below the limit. */
  ghost predicate SettledBelow(c: Setup, modulesSym: Option<Symbol>, v: Tristate, rank: Ranking, a: Assignment,
      limit: nat)
  {
    && Acyclic(c.table, rank)
    && Solves(c, a)
    && (modulesSym.Some? && rank(modulesSym.value) < limit ==> a(modulesSym.value).tri == v)
  }

  /** The assignment solves the table, and v is what `modules_sym` is worth. */
  ghost predicate IsSettled(c: Setup, modulesSym: Option<Symbol>, v: Tristate, rank: Ranking, a: Assignment) {
    && Acyclic(c.table, rank)
    && Solves(c, a)
    && (modulesSym.Some? ==> a(modulesSym.value).tri == v)
  }

  /**
   Only symbols of the scope are valid, and whatever is not valid is going to
   be calculated under v.
   */
  ghost predicate SteadyMarks(m: Marks, scope: Symbol -> bool, modules: Symbol -> Tristate, v: Tristate) {
    && (forall s :: StateOf(m.states, s).valid ==> scope(s))
    && (forall s :: !StateOf(m.states, s).valid ==> modules(s) == v)
  }

  /** Writing to a symbol of the scope. */
  lemma WriteSteady(s: Symbol, m: Marks, m': Marks, st: SymbolState, scope: Symbol -> bool, modules: Symbol -> Tristate,
      v: Tristate)
    requires m'.states == m.states[s := st] && (StateOf(m.states, s).valid ==> st.valid) && scope(s)
    requires SteadyMarks(m, scope, modules, v)
    ensures SteadyMarks(m', scope, modules, v)
  {
  }

  function Everything(): Symbol -> bool {
    (s: Symbol) => true
  }

  // ----- changing the user's value of one symbol

  /** `sym_tristate_within_range` without choices. */
  predicate WithinRange(st: SymbolState, s: Symbol, val: Tristate, modules: Tristate) {
    var typ := EffectiveType(s, modules);
    && st.visible != T.NO
    && (typ == Boolean || typ == Tri)
    && !(typ == Boolean && val == T.MOD)
    && st.visible > st.revDep
    && !(st.implied == T.YES && val == T.MOD)
    && st.revDep <= val <= st.visible
  }

  /** The value a user value gives a visible symbol. */
  function UserTri(st: SymbolState, s: Symbol, val: Tristate, modules: Tristate): Tristate {
    var tri := T.Or(T.And(val, st.visible), st.revDep);
    if tri == T.MOD && (EffectiveType(s, modules) == Boolean || st.implied == T.YES) then T.YES else tri
  }

  /** A user value that the symbol would show again after a recalculation. */
  predicate Fits(st: SymbolState, s: Symbol, val: Tristate, modules: Tristate) {
    st.visible == T.NO || UserTri(st, s, val, modules) == val
  }

  function WithUser(c: Setup, s: Symbol, val: Tristate): Setup {
    c.(user := c.user[s := Value(val, if s in c.user then c.user[s].val else "")])
  }

  /**
   A value is within range exactly if the user can change the symbol, the value
   is at most its visibility, and the symbol would show it.
   */
  lemma WithinRangeExact(st: SymbolState, s: Symbol, val: Tristate, modules: Tristate)
    ensures WithinRange(st, s, val, modules)
            <==> s.Logical() && st.visible > st.revDep && val <= st.visible && UserTri(st, s, val, modules) == val
  {
  }

  lemma WithinRangeFits(st: SymbolState, s: Symbol, val: Tristate, modules: Tristate)
    requires WithinRange(st, s, val, modules)
    ensures Fits(st, s, val, modules)
  {
  }

  /** A symbol of lower rank does not notice the user's value of another symbol. */
  lemma {:induction false} LowerUnchanged(c: Setup, s: Symbol, val: Tristate, rank: Ranking, a: Assignment,
      b: Assignment, x: Symbol)
    requires Acyclic(c.table, rank) && Solves(c, a) && Solves(WithUser(c, s, val), b) && rank(x) <= rank(s) && x != s
    ensures a(x) == b(x)
    decreases rank(x)
  {
    forall r | r in Reads(Def(c.table, x)) ensures a(r) == b(r) {
      LowerUnchanged(c, s, val, rank, a, b, r);
    }
    hide Reads, Visible, DirDep, RevDep, Implied, DefaultTri, FirstDefault;
    ComputeReads(c, x, a, b);
    assert a(x) == Compute(c, x, a) && b(x) == Compute(WithUser(c, s, val), x, b);
    OtherUserIgnored(c, s, val, x, b);
  }

  /** The limits and, for other symbols, the value do not depend on the user's value of s. */
  lemma OtherUserIgnored(c: Setup, s: Symbol, val: Tristate, x: Symbol, b: Assignment)
    ensures var c', env := WithUser(c, s, val), EnvOf(b);
            && Visible(c', x, env) == Visible(c, x, env) && DirDep(c', x, env) == DirDep(c, x, env)
            && RevDep(c', x, env) == RevDep(c, x, env) && Implied(c', x, env) == Implied(c, x, env)
            && DefaultTri(c', x, env) == DefaultTri(c, x, env)
            && (x != s ==> Compute(c', x, b) == Compute(c, x, b))
  {
  }

  /** The new value of the symbol itself, from its old limits. */
  lemma UserValueShows(c: Setup, s: Symbol, val: Tristate, rank: Ranking, a: Assignment, b: Assignment, st: SymbolState)
    requires Acyclic(c.table, rank) && Solves(c, a) && Solves(WithUser(c, s, val), b) && s.Logical()
    requires LimitsAre(st, c, s, EnvOf(a))
    ensures b(s).tri == if st.visible == T.NO then a(s).tri else UserTri(st, s, val, c.modules(s))
  {
    forall r | r in Reads(Def(c.table, s)) ensures a(r) == b(r) {
      LowerUnchanged(c, s, val, rank, a, b, r);
    }
    AgreeOnLimits(c, s, a, b);
    AgreeOnFirstDefault(c, s, a, b);
    hide Reads, Visible, DirDep, RevDep, Implied, DefaultTri, FirstDefault;
    OtherUserIgnored(c, s, val, s, b);
    assert a(s) == Compute(c, s, a) && b(s) == Compute(WithUser(c, s, val), s, b);
  }

  /** If the symbol keeps its value, the old assignment still solves the table. */
  lemma FittingValueSolves(c: Setup, s: Symbol, val: Tristate, rank: Ranking, a: Assignment, st: SymbolState)
    requires Acyclic(c.table, rank) && Solves(c, a) && s.Logical()
    requires LimitsAre(st, c, s, EnvOf(a)) && a(s).tri == val && Fits(st, s, val, c.modules(s))
    ensures Solves(WithUser(c, s, val), a)
  {
    var c' := WithUser(c, s, val);
    hide Reads, Visible, DirDep, RevDep, Implied, DefaultTri, FirstDefault, EnvOf;
    forall x ensures a(x) == Compute(c', x, a) {
      OtherUserIgnored(c, s, val, x, a);
      assert a(x) == Compute(c, x, a);
    }
  }

  /** The order in which `sym_toggle_tristate_value` tries values. */
  function NextTri(t: Tristate): Tristate {
    if t == T.YES then T.NO else t + 1
  }

  /** The first of the two other values that is within range, else the value itself. */
  function Toggled(st: SymbolState, s: Symbol, modules: Tristate): Tristate {
    var n := NextTri(st.curr.tri);
    if WithinRange(st, s, n, modules) then n
    else if WithinRange(st, s, NextTri(n), modules) then NextTri(n)
    else st.curr.tri
  }

  lemma RightIgnoresUser(c: Setup, s: Symbol, val: Tristate, x: Symbol, a: Assignment, st: SymbolState, cleared: bool)
    requires IsRight(st, cleared, c, x, a)
    ensures IsRight(st, cleared, WithUser(c, s, val), x, a)
  {
    OtherUserIgnored(c, s, val, x, a);
  }

  /** A state that is right under two setups is the same under both. */
  lemma TwiceRight(st: SymbolState, c: Setup, c': Setup, s: Symbol, a: Assignment, b: Assignment)
    requires IsRight(st, false, c, s, a) && IsRight(st, false, c', s, b)
    requires a(s) == Compute(c, s, a) && b(s) == Compute(c', s, b)
    ensures a(s) == b(s) && (Calculated(s) ==> SameState(c, a, c', b, s) && SameState(c', b, c, a, s))
  {
    hide Compute, Visible, DirDep, RevDep, Implied, EnvOf, Writes;
  }

  // ----- how marks stay right

  /** Nothing has happened to the symbols that were valid. */
  ghost predicate KeptMarks(m: Marks, m': Marks) {
    m'.cleared <= m.cleared && forall s :: StateOf(m.states, s).valid ==> SameMark(m, m', s)
  }

  lemma KeptRefl(m: Marks)
    ensures KeptMarks(m, m)
  {
  }

  lemma KeptTrans(m0: Marks, m1: Marks, m2: Marks)
    requires KeptMarks(m0, m1) && KeptMarks(m1, m2)
    ensures KeptMarks(m0, m2)
  {
  }

  lemma KeepsIsKept(rank: Ranking, limit: nat, m: Marks, m': Marks)
    requires Keeps(rank, limit, m, m')
    ensures KeptMarks(m, m')
  {
  }

  /** A symbol that was not valid has not changed, unless it is valid now. */
  lemma SameOrValid(rank: Ranking, limit: nat, m: Marks, m': Marks, s: Symbol)
    requires Keeps(rank, limit, m, m')
    ensures StateOf(m'.states, s) == StateOf(m.states, s) || StateOf(m'.states, s).valid
  {
  }

  /** What was right is right, below the limit because it has been calculated, above because it has not changed. */
  lemma StillRight(m: Marks, m': Marks, c: Setup, a: Assignment, rank: Ranking, limit: nat)
    requires AllRight(m', c, a, rank, limit) && Keeps(rank, limit, m, m') && RightMarks(m, c, a)
    ensures RightMarks(m', c, a)
  {
    hide IsRight, Consulted;
    forall x | StateOf(m'.states, x).valid
      ensures IsRight(StateOf(m'.states, x), x in m'.cleared, c, x, a) && Supported(m', c, a, x)
    {
      if rank(x) >= limit {
        assert SameMark(m, m', x) && Supported(m, c, a, x);
        if Calculated(x) {
          StayValid(rank, limit, m, m', Consulted(c, x, EnvOf(a)));
        }
      }
    }
  }

  /** The same when s itself may have changed as long as it is not valid. */
  lemma StillRightBut(s: Symbol, m: Marks, m': Marks, c: Setup, a: Assignment, rank: Ranking)
    requires AllRight(m', c, a, rank, rank(s)) && KeepsBut(rank, s, m, m') && RightMarks(m, c, a)
    requires StateOf(m'.states, s).valid ==> SameMark(m, m', s)
    ensures RightMarks(m', c, a)
  {
    hide IsRight, Consulted, Calculated;
    forall x | StateOf(m'.states, x).valid
      ensures IsRight(StateOf(m'.states, x), x in m'.cleared, c, x, a) && Supported(m', c, a, x)
    {
      if rank(x) >= rank(s) {
        assert SameMark(m, m', x);
        assert Supported(m, c, a, x);
        if Calculated(x) {
          StayValidBut(rank, s, m, m', Consulted(c, x, EnvOf(a)));
        }
      }
    }
  }

  /** The same flags are set. */
  predicate SameValid(m: Marks, m': Marks, s: Symbol) {
    StateOf(m'.states, s).valid == StateOf(m.states, s).valid
  }

  lemma StillSupported(m: Marks, m': Marks, c: Setup, a: Assignment, x: Symbol)
    requires Supported(m, c, a, x) && forall s :: SameValid(m, m', s)
    ensures Supported(m', c, a, x)
  {
    hide Consulted, Calculated;
    if Calculated(x) {
      forall s | s in Consulted(c, x, EnvOf(a)) ensures StateOf(m'.states, s).valid {
        assert SameValid(m, m', s);
      }
    }
  }

  /** Clearing a SYMBOL_WRITE flag. */
  lemma StillRightCleared(m: Marks, m': Marks, c: Setup, a: Assignment, s: Symbol)
    requires m'.states == m.states[s := StateOf(m.states, s).(write := false)] && m'.cleared == m.cleared + {s}
    requires RightMarks(m, c, a)
    ensures RightMarks(m', c, a) && forall x :: SameValid(m, m', x)
  {
    hide Supported, Visible, DirDep, RevDep, Implied, Writes, EnvOf;
    forall x | StateOf(m'.states, x).valid
      ensures IsRight(StateOf(m'.states, x), x in m'.cleared, c, x, a) && Supported(m', c, a, x)
    {
      assert IsRight(StateOf(m.states, x), x in m.cleared, c, x, a);
      StillSupported(m, m', c, a, x);
    }
  }

  lemma StillSteady(m: Marks, m': Marks, scope: Symbol -> bool, modules: Symbol -> Tristate, v: Tristate)
    requires SteadyMarks(m, scope, modules, v) && forall s :: SameValid(m, m', s)
    ensures SteadyMarks(m', scope, modules, v)
  {
    forall s ensures StateOf(m'.states, s).valid == StateOf(m.states, s).valid {
      assert SameValid(m, m', s);
    }
  }

  // ----- the value a symbol has already

  lemma FitsMeans(st: SymbolState, s: Symbol, val: Tristate, modules: Tristate)
    requires WithinRange(st, s, val, modules)
    ensures st.visible != T.NO && UserTri(st, s, val, modules) == val
  {
  }
}
