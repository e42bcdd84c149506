/**
 Which VALID marks are right after `modules_val` has changed
 (`sym_clear_all_valid` of `symbol.c`).
 */
module MarksAfter {
  import opened Wrappers
  import opened Expressions
  import opened SymbolValues
  import opened ModulesSwitch
  import opened Eras
  import opened SymbolMarks
  import T = Tristates

  /** What `sym_clear_all_valid` leaves VALID: the constants, and everything on the way to `modules_sym`. */
  ghost function OnTheWay(c: Setup, rank: Ranking, modulesSym: Option<Symbol>): Symbol -> bool {
    (s: Symbol) => AlwaysValid(s) || (modulesSym.Some? && Reaches(c, Solution(c, rank), rank, modulesSym.value, s))
  }

  lemma SelfOnTheWay(c: Setup, rank: Ranking, s: Symbol)
    ensures OnTheWay(c, rank, Some(s))(s)
  {
    assert Reaches(c, Solution(c, rank), rank, s, s);
  }

  lemma OnTheWayIsClosed(c: Setup, rank: Ranking, modulesSym: Option<Symbol>)
    requires Acyclic(c.table, rank)
    ensures Closed(c, Solution(c, rank), OnTheWay(c, rank, modulesSym))
  {
    hide Consulted, Solution, Acyclic, Reaches;
    if modulesSym.Some? {
      ReachedFromIsClosed(c, Solution(c, rank), rank, modulesSym.value);
    }
  }

  /** What is VALID has been calculated from what is VALID. */
  lemma ValidIsClosed(m: Marks, c: Setup, a: Assignment, known: Symbol -> bool)
    requires RightMarks(m, c, a) && forall s :: known(s) <==> StateOf(m.states, s).valid
    ensures Closed(c, a, known)
  {
    hide IsRight, Consulted, Calculated;
    forall s | known(s) && Calculated(s) ensures forall r :: r in Consulted(c, s, EnvOf(a)) ==> known(r) {
      assert Supported(m, c, a, s);
    }
  }

  /** Exactly what is on the way to s is VALID, together with the constants. */
  lemma OnlyReached(m: Marks, c: Setup, rank: Ranking, s: Symbol)
    requires RightMarks(m, c, Solution(c, rank)) && StateOf(m.states, s).valid
    requires forall x :: AlwaysValid(x) ==> StateOf(m.states, x).valid
    requires forall x :: StateOf(m.states, x).valid ==> OnTheWay(c, rank, Some(s))(x)
    ensures forall x :: StateOf(m.states, x).valid <==> OnTheWay(c, rank, Some(s))(x)
  {
    var known := (x: Symbol) => StateOf(m.states, x).valid;
    var a := Solution(c, rank);
    ValidIsClosed(m, c, a, known);
    hide RightMarks, Solution, Closed, Reaches;
    forall x | OnTheWay(c, rank, Some(s))(x) ensures known(x) {
      if Reaches(c, a, rank, s, x) {
        ReachedIsLeast(c, a, rank, known, s, x);
      }
    }
  }

  /** Symbols with the same state, calculated from the same symbols, are right under both setups. */
  lemma RightMoves(m: Marks, c: Setup, a: Assignment, c': Setup, b: Assignment)
    requires RightMarks(m, c, a)
    requires forall s :: StateOf(m.states, s).valid ==> Moved(c, a, c', b, s)
    ensures RightMarks(m, c', b)
  {
    hide Consulted, Compute, Visible, DirDep, RevDep, Implied, EnvOf, Writes, Calculated;
    forall s | StateOf(m.states, s).valid
      ensures IsRight(StateOf(m.states, s), s in m.cleared, c', s, b) && Supported(m, c', b, s)
    {
      assert IsRight(StateOf(m.states, s), s in m.cleared, c, s, a) && Supported(m, c, a, s);
      assert Moved(c, a, c', b, s);
    }
  }

  ghost predicate Moved(c: Setup, a: Assignment, c': Setup, b: Assignment, s: Symbol) {
    && a(s) == b(s)
    && (Calculated(s) ==> SameState(c, a, c', b, s) && Consulted(c', s, EnvOf(b)) == Consulted(c, s, EnvOf(a)))
  }

  /** What is consulted has the same values, and the setups agree where that is known. */
  lemma MovedAlong(c: Setup, a: Assignment, c': Setup, b: Assignment, s: Symbol)
    requires a(s) == b(s) && (Calculated(s) ==> Agree(a, b, Consulted(c, s, EnvOf(a))))
    requires Calculated(s) ==> SameState(c, b, c', b, s) && Consulted(c, s, EnvOf(b)) == Consulted(c', s, EnvOf(b))
    ensures Moved(c, a, c', b, s)
  {
    hide Consulted, Compute, Visible, DirDep, RevDep, Implied, EnvOf, Writes, Calculated;
    if Calculated(s) {
      ConsultedSuffices(c, s, a, b);
      SameConsulted(c, s, a, b);
    }
  }

  /** The consulted symbols of a VALID symbol are VALID. */
  lemma ValidAgree(m: Marks, c: Setup, a: Assignment, b: Assignment, s: Symbol)
    requires RightMarks(m, c, a) && StateOf(m.states, s).valid && Calculated(s)
    requires forall x :: StateOf(m.states, x).valid ==> a(x) == b(x)
    ensures Agree(a, b, Consulted(c, s, EnvOf(a)))
  {
    hide IsRight, Consulted, Calculated, EnvOf;
    assert Supported(m, c, a, s);
  }

  /** Two names for the same values. */
  lemma RightTransfer(m: Marks, c: Setup, a: Assignment, b: Assignment)
    requires RightMarks(m, c, a) && forall s :: a(s) == b(s)
    ensures RightMarks(m, c, b)
  {
    hide Consulted, RightMarks, SameState, EnvOf, Calculated;
    forall s | StateOf(m.states, s).valid ensures Moved(c, a, c, b, s) {
      SameAtSameState(c, c, s, b);
      MovedAlong(c, a, c, b, s);
    }
    RightMoves(m, c, a, c, b);
  }

  /** On the same side of the switch everything stays right. */
  lemma RightOnSameSide(m: Marks, c: Setup, v: Tristate, rank: Ranking)
    requires Acyclic(c.table, rank) && (forall s :: SameSide(c.modules(s), v)) && RightMarks(m, c, Solution(c, rank))
    ensures RightMarks(m, With(c, v), Solution(With(c, v), rank))
  {
    var a, b := Solution(c, rank), Solution(With(c, v), rank);
    SidesSuffice(c, With(c, v), rank);
    hide Solution, Acyclic, Consulted, RightMarks, SameState, EnvOf, Calculated;
    forall s | StateOf(m.states, s).valid ensures Moved(c, a, With(c, v), b, s) {
      SameSideSameState(c, v, s, b);
      SameSideConsulted(c, v, s, EnvOf(b));
      MovedAlong(c, a, With(c, v), b, s);
    }
    RightMoves(m, c, a, With(c, v), b);
  }

  /** What was calculated before the change keeps its setup. */
  lemma RightAfterMixed(m: Marks, c: Setup, rank: Ranking, s: Symbol)
    requires Acyclic(c.table, rank) && RightMarks(m, c, Solution(c, rank))
    requires forall x :: StateOf(m.states, x).valid <==> OnTheWay(c, rank, Some(s))(x)
    ensures RightMarks(m, Mixed(c, rank, s), Solution(Mixed(c, rank, s), rank))
  {
    var c' := Mixed(c, rank, s);
    var a, b := Solution(c, rank), Solution(c', rank);
    hide RightMarks, Solution, Acyclic, SameState, Reaches, Moved, Consulted, EnvOf, Compute, Solves;
    forall x | StateOf(m.states, x).valid ensures a(x) == b(x) {
      MixedOnTheWay(c, rank, s, x);
    }
    forall x | StateOf(m.states, x).valid ensures Moved(c, a, c', b, x) {
      if Calculated(x) {
        ValidAgree(m, c, a, b, x);
        MixedSameAt(c, rank, s, x);
        SameAtSameState(c, c', x, b);
        SameAtSameConsulted(c, c', x, EnvOf(b));
      }
      MovedAlong(c, a, c', b, x);
    }
    RightMoves(m, c, a, c', b);
  }

  lemma MixedSameAt(c: Setup, rank: Ranking, s: Symbol, x: Symbol)
    requires OnTheWay(c, rank, Some(s))(x) && Calculated(x)
    ensures SameAt(c, Mixed(c, rank, s), x)
  {
  }

  lemma MixedOnTheWay(c: Setup, rank: Ranking, s: Symbol, x: Symbol)
    requires Acyclic(c.table, rank) && OnTheWay(c, rank, Some(s))(x)
    ensures Solution(c, rank)(x) == Solution(Mixed(c, rank, s), rank)(x)
  {
    hide Solution, Acyclic, Reaches, Compute;
    if AlwaysValid(x) {
      var c' := Mixed(c, rank, s);
      SolvesAt(c, rank, x);
      SolvesAt(c', rank, x);
      FixedValues(c, x, Solution(c, rank), c', Solution(c', rank));
    } else {
      MixedKeeps(c, rank, s, x);
    }
  }

  // ----- the other side of the switch

  lemma UnmovedIsMoved(m: Marks, on: Setup, a: Assignment, b: Assignment, c: Setup, c': Setup, s: Symbol)
    requires AllOn(on) && ((c == on && c' == With(on, T.NO)) || (c == With(on, T.NO) && c' == on))
    requires RightMarks(m, c, a) && StateOf(m.states, s).valid
    requires forall x :: StateOf(m.states, x).valid ==> a(x) == b(x)
    requires Calculated(s) ==> SameState(c, a, c', b, s)
    ensures Moved(c, a, c', b, s)
  {
    if Calculated(s) {
      ValidAgree(m, c, a, b, s);
      hide Consulted, Compute, Visible, DirDep, RevDep, Implied, EnvOf, Writes, RightMarks, SameState;
      SameConsulted(c, s, a, b);
      SwitchOne(on, s, b);
    }
  }

  lemma SameStateSwaps(c: Setup, a: Assignment, c': Setup, b: Assignment, s: Symbol)
    requires SameState(c, a, c', b, s)
    ensures SameState(c', b, c, a, s)
  {
    hide Compute, Visible, DirDep, RevDep, Implied, EnvOf, Writes;
  }

  /** The two setups of a switch, of which one is uniform and has modules. */
  ghost predicate Switched(on: Setup, c: Setup, c': Setup) {
    AllOn(on) && ((c == on && c' == With(on, T.NO)) || (c == With(on, T.NO) && c' == on))
  }

  lemma UnmovedMakesRight(m: Marks, on: Setup, c: Setup, c': Setup, rank: Ranking)
    requires Switched(on, c, c') && RightMarks(m, c, Solution(c, rank))
    requires forall s :: StateOf(m.states, s).valid ==> Unmoved(on, rank, s)
    ensures RightMarks(m, c', Solution(c', rank))
  {
    var a, b := Solution(c, rank), Solution(c', rank);
    hide Solution, RightMarks, SameState, Moved, AllOn, Calculated;
    forall s | StateOf(m.states, s).valid ensures Moved(c, a, c', b, s) {
      assert Unmoved(on, rank, s);
      if Calculated(s) && c != on {
        SameStateSwaps(on, b, c, a, s);
      }
      UnmovedIsMoved(m, on, a, b, c, c', s);
    }
    RightMoves(m, c, a, c', b);
  }

  lemma RightMakesUnmoved(m: Marks, on: Setup, c: Setup, c': Setup, rank: Ranking, s: Symbol)
    requires Switched(on, c, c') && RightMarks(m, c, Solution(c, rank)) && RightMarks(m, c', Solution(c', rank))
    requires Acyclic(c.table, rank) && StateOf(m.states, s).valid && m.cleared == {}
    ensures Unmoved(on, rank, s)
  {
    var a, b := Solution(c, rank), Solution(c', rank);
    hide Solution, RightMarks, SameState, AllOn, IsRight, Acyclic, Solves, Compute;
    RightMark(m, c, a, s);
    RightMark(m, c', b, s);
    SolvesAt(c, rank, s);
    SolvesAt(c', rank, s);
    TwiceRight(StateOf(m.states, s), c, c', s, a, b);
  }

  lemma RightMark(m: Marks, c: Setup, a: Assignment, s: Symbol)
    requires RightMarks(m, c, a) && StateOf(m.states, s).valid
    ensures IsRight(StateOf(m.states, s), s in m.cleared, c, s, a)
  {
    hide IsRight, Supported;
  }

  lemma SolvesAt(c: Setup, rank: Ranking, s: Symbol)
    requires Acyclic(c.table, rank)
    ensures Solution(c, rank)(s) == Compute(c, s, Solution(c, rank))
  {
    SolutionSolves(c, rank);
    hide Solution, Compute;
  }

  /** On different sides exactly what shows no `m` stays right. */
  lemma RightOnOtherSide(m: Marks, on: Setup, c: Setup, c': Setup, rank: Ranking)
    requires Acyclic(c.table, rank) && Switched(on, c, c') && RightMarks(m, c, Solution(c, rank)) && m.cleared == {}
    ensures RightMarks(m, c', Solution(c', rank))
            <==> forall s :: StateOf(m.states, s).valid ==> !ShowsMod(on, s, Solution(on, rank))
  {
    var known := (s: Symbol) => StateOf(m.states, s).valid;
    hide Solution, RightMarks, Unmoved, Closed, ShowsMod, AllOn, Acyclic;
    ValidIsClosed(m, c, Solution(c, rank), known);
    SwitchExact(on, rank, known);
    if forall s :: known(s) ==> Unmoved(on, rank, s) {
      UnmovedMakesRight(m, on, c, c', rank);
    }
    if RightMarks(m, c', Solution(c', rank)) {
      forall s | known(s) ensures Unmoved(on, rank, s) {
        RightMakesUnmoved(m, on, c, c', rank, s);
      }
    }
  }

  /** A constant shows no `m`. */
  lemma ConstantsShowNone(c: Setup, s: Symbol, a: Assignment)
    requires AlwaysValid(s)
    ensures !ShowsMod(c, s, a)
  {
  }

  /**
   After the way to s has been calculated under one `modules_val`, the marks
   are right under the value of s exactly if they survive.
   */
  lemma SurvivesExact(m: Marks, c: Setup, rank: Ranking, s: Symbol)
    requires Acyclic(c.table, rank) && c.modules == Always(c.modules(s))
    requires RightMarks(m, c, Solution(c, rank)) && m.cleared == {}
    requires forall x :: StateOf(m.states, x).valid <==> OnTheWay(c, rank, Some(s))(x)
    ensures var c' := With(c, Solution(c, rank)(s).tri);
            RightMarks(m, c', Solution(c', rank)) <==> Survives(c, rank, s)
  {
    var v := Solution(c, rank)(s).tri;
    var c' := With(c, v);
    if SameSide(c.modules(s), v) {
      RightOnSameSide(m, c, v, rank);
    } else {
      var on := SideOn(c, s, v);
      assert c == With(c, c.modules(s));
      hide Solution, RightMarks, ShowsMod, Reaches, Acyclic;
      RightOnOtherSide(m, on, c, c', rank);
      forall x | AlwaysValid(x) ensures !ShowsMod(on, x, Solution(on, rank)) {
        ConstantsShowNone(on, x, Solution(on, rank));
      }
    }
  }

  /** Either way the marks are right for the setup of the values afterwards. */
  lemma RightAfter(m: Marks, c: Setup, rank: Ranking, s: Symbol)
    requires Acyclic(c.table, rank) && c.modules == Always(c.modules(s))
    requires RightMarks(m, c, Solution(c, rank)) && m.cleared == {}
    requires forall x :: StateOf(m.states, x).valid <==> OnTheWay(c, rank, Some(s))(x)
    ensures RightMarks(m, After(c, rank, Some(s)), Solution(After(c, rank, Some(s)), rank))
  {
    hide RightMarks, Solution, Survives, Acyclic, OnTheWay;
    SurvivesExact(m, c, rank, s);
    RightAfterMixed(m, c, rank, s);
  }

  // ----- after modules_sym has been calculated

  lemma AfterKeeps(c: Setup, rank: Ranking, modulesSym: Option<Symbol>)
    ensures After(c, rank, modulesSym).table == c.table && After(c, rank, modulesSym).user == c.user
  {
    hide Survives, Solution;
  }

  lemma AfterNone(c: Setup, rank: Ranking)
    ensures After(c, rank, None) == c
  {
  }

  /** The value of `modules_sym` is what it was calculated to. */
  lemma AfterValue(c: Setup, rank: Ranking, s: Symbol)
    requires Acyclic(c.table, rank) && c.modules == Always(c.modules(s))
    ensures Solution(After(c, rank, Some(s)), rank)(s) == Solution(c, rank)(s)
  {
    assert Reaches(c, Solution(c, rank), rank, s, s);
    hide Solution, Acyclic, After, Reaches;
    AfterIsMixed(c, rank, s);
    MixedKeeps(c, rank, s, s);
  }

  /** Everything that is not on the way has the new `modules_val`. */
  lemma AfterEra(c: Setup, v: Tristate, rank: Ranking, modulesSym: Option<Symbol>, s: Symbol)
    requires c.modules == Always(v) && !OnTheWay(c, rank, modulesSym)(s)
    ensures After(c, rank, modulesSym).modules(s)
         == if modulesSym.Some? then Solution(c, rank)(modulesSym.value).tri else v
  {
    hide Survives, Solution, Reaches;
  }

  // ----- what a new user value does

  /** What is on the way to m without s does not notice the user's value of s. */
  lemma {:induction false} Unreached(c: Setup, s: Symbol, val: Tristate, rank: Ranking, m: Symbol, x: Symbol)
    requires Acyclic(c.table, rank)
    requires var c' := WithUser(c, s, val);
             && !Reaches(c', Solution(c', rank), rank, m, s) && Reaches(c', Solution(c', rank), rank, m, x)
    ensures Solution(c, rank)(x) == Solution(WithUser(c, s, val), rank)(x)
    decreases rank(x)
  {
    var c' := WithUser(c, s, val);
    var a, b := Solution(c, rank), Solution(c', rank);
    hide Solution, Acyclic, Compute, Consulted, EnvOf, Reaches;
    SolvesAt(c, rank, x);
    SolvesAt(c', rank, x);
    if Calculated(x) {
      ConsultedIsLower(c', rank, x, EnvOf(b));
      forall r | r in Consulted(c', x, EnvOf(b)) ensures a(r) == b(r) {
        ReachedIsClosed(c', b, rank, m, x, r);
        Unreached(c, s, val, rank, m, r);
      }
      ConsultedSuffices(c', x, b, a);
      OtherUserIgnored(c, s, val, x, a);
    } else {
      FixedValues(c, x, a, c', b);
    }
  }

  /** A new value shows after everything on the way to `modules_sym` has been calculated, whatever that does. */
  lemma NewValueStays(c: Setup, v: Tristate, rank: Ranking, modulesSym: Option<Symbol>, s: Symbol, val: Tristate)
    requires Acyclic(c.table, rank) && c.modules == Always(v)
    requires modulesSym.Some? ==> Solution(c, rank)(modulesSym.value).tri == v
    requires Solution(WithUser(c, s, val), rank)(s).tri == val
    ensures Solution(After(WithUser(c, s, val), rank, modulesSym), rank)(s).tri == val
  {
    var c' := WithUser(c, s, val);
    if modulesSym.Some? {
      var m := modulesSym.value;
      hide Solution, Acyclic;
      if Reaches(c', Solution(c', rank), rank, m, s) {
        AfterIsMixed(c', rank, m);
        MixedKeeps(c', rank, m, s);
      } else {
        assert Reaches(c', Solution(c', rank), rank, m, m);
        Unreached(c, s, val, rank, m, m);
        assert After(c', rank, modulesSym) == c';
      }
    }
  }

  lemma SupportIgnoresUser(m: Marks, c: Setup, a: Assignment, s: Symbol, val: Tristate, x: Symbol)
    requires Supported(m, c, a, x)
    ensures Supported(m, WithUser(c, s, val), a, x)
  {
    OtherUserIgnored(c, s, val, x, a);
  }

  lemma RightIgnoresSetting(m: Marks, c: Setup, a: Assignment, s: Symbol, val: Tristate)
    requires RightMarks(m, c, a)
    ensures RightMarks(m, WithUser(c, s, val), a)
  {
    var c' := WithUser(c, s, val);
    hide IsRight, Supported, WithUser;
    forall x | StateOf(m.states, x).valid
      ensures IsRight(StateOf(m.states, x), x in m.cleared, c', x, a) && Supported(m, c', a, x)
    {
      RightIgnoresUser(c, s, val, x, a, StateOf(m.states, x), x in m.cleared);
      SupportIgnoresUser(m, c, a, s, val, x);
    }
  }

  /** Setting a symbol to the value it has leaves the VALID symbols right exactly if the value fits. */
  lemma OldValueExact(m: Marks, c: Setup, a: Assignment, rank: Ranking, v: Tristate, s: Symbol, val: Tristate)
    requires Acyclic(c.table, rank) && Solves(c, a) && c.modules == Always(v) && RightMarks(m, c, a)
    requires StateOf(m.states, s).valid && s.Logical() && StateOf(m.states, s).curr.tri == val
    ensures var c' := WithUser(c, s, val);
            && (RightMarks(m, c', Solution(c', rank)) <==> Fits(StateOf(m.states, s), s, val, v))
            && (Fits(StateOf(m.states, s), s, val, v) ==> Solves(c', a) && RightMarks(m, c', a))
  {
    var c', st := WithUser(c, s, val), StateOf(m.states, s);
    var b := Solution(c', rank);
    hide RightMarks, Solution, Acyclic, Solves, LimitsAre, UserTri, Writes;
    RightMark(m, c, a, s);
    SolutionSolves(c', rank);
    UserValueShows(c, s, val, rank, a, b, st);
    if RightMarks(m, c', b) {
      RightMark(m, c', b, s);
    }
    if Fits(st, s, val, v) {
      FittingValueSolves(c, s, val, rank, a, st);
      RightIgnoresSetting(m, c, a, s, val);
      SolutionIsUnique(c', rank, a, b);
      RightTransfer(m, c', a, b);
    }
  }
}
