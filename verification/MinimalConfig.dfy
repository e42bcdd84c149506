/**
 Minimal configurations (`conf_write_defconfig` of `confdata.c` and
 `sym_get_string_default` of `symbol.c`): which values are written, and
 whether they bring back every value when they are read again.
 */
module MinimalConfig {
  import opened Wrappers
  import opened Expressions
  import opened SymbolValues
  import opened Eras
  import opened SymbolMarks
  import opened MarksAfter
  import opened SymbolCache
  import N = NumeralReading
  import T = Tristates

  /** `sym_get_string_default` is the value the symbol would have without a value from the user. */
  lemma DefaultIsValueWithoutUser(c: Setup, s: Symbol, a: Assignment)
    requires Calculated(s) && s !in c.user
    ensures StringValue(s, Compute(c, s, a)) == StringDefault(c, s, a)
  {
    hide Visible, DirDep, FirstDefault, Calc, CalcOpt;
  }

  // ----- what is written and read back

  /** `sym_string_valid` for numbers. */
  predicate StringValid(s: Symbol, str: string) {
    match s.Type()
    case Int =>
      var digits := if str != [] && str[0] == '-' then str[1..] else str;
      digits != [] && AllDigits(digits) && (digits[0] == '0' ==> |digits| == 1)
    case Hex =>
      var digits := if |str| >= 2 && str[0] == '0' && (str[1] == 'x' || str[1] == 'X') then str[2..] else str;
      digits != [] && AllHexDigits(digits)
    case _ => true
  }

  predicate AllDigits(str: string) {
    forall i :: 0 <= i < |str| ==> '0' <= str[i] <= '9'
  }

  predicate AllHexDigits(str: string) {
    forall i :: 0 <= i < |str| ==> '0' <= str[i] <= '9' || 'a' <= str[i] <= 'f' || 'A' <= str[i] <= 'F'
  }

  /** An int is a decimal numeral without zeros before it, perhaps with a minus sign. */
  lemma IntValidExact(s: Symbol, str: string)
    requires s.Type() == Int
    ensures StringValid(s, str)
            <==> exists n :: str == N.Numeral(n, 10, N.LOWER) || str == "-" + N.Numeral(n, 10, N.LOWER)
  {
    hide StringValid, N.Numeral;
    if StringValid(s, str) {
      var n := NumeralFound(s, str);
    }
    forall n | str == N.Numeral(n, 10, N.LOWER) || str == "-" + N.Numeral(n, 10, N.LOWER)
      ensures StringValid(s, str)
    {
      NumeralIsValid(s, str, n);
    }
  }

  lemma NumeralFound(s: Symbol, str: string) returns (n: nat)
    requires s.Type() == Int && StringValid(s, str)
    ensures str == N.Numeral(n, 10, N.LOWER) || str == "-" + N.Numeral(n, 10, N.LOWER)
  {
    hide N.Numeral, N.Value, N.AllDigits;
    var digits := if str[0] == '-' then str[1..] else str;
    N.DigitsAreNumeral(digits);
    n := N.Value(digits, 10);
    assert str[0] == '-' ==> str == "-" + digits;
  }

  lemma NumeralIsValid(s: Symbol, str: string, n: nat)
    requires s.Type() == Int && (str == N.Numeral(n, 10, N.LOWER) || str == "-" + N.Numeral(n, 10, N.LOWER))
    ensures StringValid(s, str)
  {
    hide N.Numeral;
    N.NumeralIsDigits(n);
    var digits := N.Numeral(n, 10, N.LOWER);
    if str != digits {
      assert str[0] == '-' && str[1..] == digits;
    }
  }

  /** A hex is hexadecimal digits, perhaps behind a prefix. */
  lemma HexValidExact(s: Symbol, str: string)
    requires s.Type() == Hex
    ensures StringValid(s, str)
            <==> exists prefix, digits ::
                   prefix in ["", "0x", "0X"] && str == prefix + digits && digits != [] && N.AllDigits(digits, 16)
  {
    hide StringValid, N.AllDigits;
    if StringValid(s, str) {
      var prefix, digits := PrefixFound(s, str);
    }
    forall prefix, digits |
      prefix in ["", "0x", "0X"] && str == prefix + digits && digits != [] && N.AllDigits(digits, 16)
      ensures StringValid(s, str)
    {
      PrefixedIsValid(s, prefix, digits);
    }
  }

  lemma PrefixFound(s: Symbol, str: string) returns (prefix: string, digits: string)
    requires s.Type() == Hex && StringValid(s, str)
    ensures prefix in ["", "0x", "0X"] && str == prefix + digits && digits != [] && N.AllDigits(digits, 16)
  {
    hide N.AllDigits;
    if |str| >= 2 && str[0] == '0' && (str[1] == 'x' || str[1] == 'X') {
      prefix, digits := [str[0], str[1]], str[2..];
    } else {
      prefix, digits := "", str;
    }
    HexDigits(digits);
  }

  lemma PrefixedIsValid(s: Symbol, prefix: string, digits: string)
    requires s.Type() == Hex && prefix in ["", "0x", "0X"] && digits != [] && N.AllDigits(digits, 16)
    ensures StringValid(s, prefix + digits)
  {
    hide N.AllDigits;
    HexDigits(digits);
    var str := prefix + digits;
    if prefix == "" {
      assert str == digits;
    } else {
      assert str[2..] == digits;
    }
  }

  lemma HexDigits(str: string)
    ensures AllHexDigits(str) <==> N.AllDigits(str, 16)
  {
    hide N.InBase;
    if AllHexDigits(str) {
      forall c | c in str ensures N.InBase(c, 16) {
        HexDigit(c);
      }
    }
    if N.AllDigits(str, 16) {
      forall i | 0 <= i < |str|
        ensures '0' <= str[i] <= '9' || 'a' <= str[i] <= 'f' || 'A' <= str[i] <= 'F'
      {
        HexDigit(str[i]);
      }
    }
  }

  lemma HexDigit(c: char)
    ensures N.InBase(c, 16) <==> '0' <= c <= '9' || 'a' <= c <= 'f' || 'A' <= c <= 'F'
  {
    hide N.InBase;
    N.DigitExact(c, 16);
  }

  /** The symbol is written: it has something to say, can be changed, and differs from its default. */
  predicate Printed(c: Setup, s: Symbol, a: Assignment) {
    && Calculated(s)
    && Writes(c, s, EnvOf(a))
    && Visible(c, s, EnvOf(a)) > RevDep(c, s, EnvOf(a))
    && StringValue(s, a(s)) != StringDefault(c, s, a)
  }

  /** The value `conf_set_sym_val` stores for a string that was written, None if it refuses it. */
  function ReadBack(s: Symbol, str: string): Option<Value> {
    if s.Logical() then
      if s.Type() == Tri && str == "m" then Some(Value(T.MOD, ""))
      else if str == "y" then Some(Value(T.YES, ""))
      else if str == "n" then Some(Value(T.NO, ""))
      else None
    else if Textual(s) && StringValid(s, str) then Some(Value(T.NO, str))
    else None
  }

  /** The user values that remain when a minimal configuration is written and read again. */
  function MinimalUser(c: Setup, a: Assignment, menus: set<Symbol>): UserValues {
    map s | s in menus && Printed(c, s, a) && ReadBack(s, StringValue(s, a(s))).Some? ::
      ReadBack(s, StringValue(s, a(s))).value
  }

  function Reread(c: Setup, a: Assignment, menus: set<Symbol>): Setup {
    c.(user := MinimalUser(c, a, menus))
  }

  // ----- when this keeps every value

  /**
   A symbol whose user value matters but is not written, because a select
   holds it: a tristate that is visible and selected as `m` while the default
   that takes its place is `y`, or a selected string that is not its default.
   */
  predicate Pinned(c: Setup, s: Symbol, a: Assignment) {
    var env := EnvOf(a);
    s in c.user
    && ((s.Logical() && PinnedTri(Visible(c, s, env), RevDep(c, s, env), Implied(c, s, env), DefaultTri(c, s, env)))
        || (Textual(s) && T.NO < Visible(c, s, env) <= RevDep(c, s, env) && c.user[s].val != StringDefault(c, s, a)))
  }

  predicate PinnedTri(vis: Tristate, rev: Tristate, imp: Tristate, default: Tristate) {
    vis == T.MOD && rev == T.MOD && imp != T.YES && default == T.YES
  }

  /** Every symbol that can be visible has a menu entry, and stored numbers are numbers. */
  ghost predicate Complete(c: Setup, menus: set<Symbol>) {
    && (forall s :: Def(c.table, s).prompts != [] ==> s in menus)
    && (forall s :: s in c.user ==> StringValid(s, c.user[s].val))
  }

  /** The value of a symbol from its limits, with the user's tristate if there is one. */
  function TriFrom(user: Option<Tristate>, default: Tristate, vis: Tristate, rev: Tristate, imp: Tristate,
      isBool: bool): Tristate {
    var own := if user.Some? && vis != T.NO then T.And(user.value, vis) else T.Or(default, imp);
    var tri := T.Or(own, rev);
    if tri == T.MOD && (isBool || imp == T.YES) then T.YES else tri
  }

  predicate IsBool(c: Setup, s: Symbol) {
    EffectiveType(s, c.modules(s)) == Boolean
  }

  function UserTriOf(c: Setup, s: Symbol): Option<Tristate> {
    if s in c.user then Some(c.user[s].tri) else None
  }

  lemma NewTriIsTriFrom(c: Setup, s: Symbol, a: Assignment)
    requires s.Logical()
    ensures var env := EnvOf(a);
            Compute(c, s, a) == Value(TriFrom(UserTriOf(c, s), DefaultTri(c, s, env), Visible(c, s, env),
                                              RevDep(c, s, env), Implied(c, s, env), IsBool(c, s)), "n")
    ensures IsBool(c, s) ==>
              Visible(c, s, EnvOf(a)) != T.MOD && RevDep(c, s, EnvOf(a)) != T.MOD && Implied(c, s, EnvOf(a)) != T.MOD
  {
  }

  /** Dropping or keeping the value of one tristate symbol, as a statement about its limits. */
  lemma KeepOrDrop(u: Option<Tristate>, d: Tristate, vis: Tristate, rev: Tristate, imp: Tristate, isBool: bool)
    requires isBool ==> vis != T.MOD && rev != T.MOD && imp != T.MOD
    ensures var v := TriFrom(u, d, vis, rev, imp, isBool);
            var v0 := TriFrom(None, d, vis, rev, imp, isBool);
            var pinned := u.Some? && PinnedTri(vis, rev, imp, d);
            && (v != v0 ==> u.Some? && vis != T.NO)
            && (vis > rev ==> v == v0 || TriFrom(Some(v), d, vis, rev, imp, isBool) == v)
            && (vis <= rev ==> (v == v0 <==> !pinned))
            && (pinned ==> vis <= rev)
  {
  }

  lemma SameLimits(c: Setup, user: UserValues, s: Symbol, a: Assignment)
    ensures var c', env := c.(user := user), EnvOf(a);
            && Visible(c', s, env) == Visible(c, s, env) && RevDep(c', s, env) == RevDep(c, s, env)
            && Implied(c', s, env) == Implied(c, s, env) && DefaultTri(c', s, env) == DefaultTri(c, s, env)
  {
  }

  /** Whether the symbol keeps its value depends on the symbol alone. */
  lemma LogicalKept(c: Setup, s: Symbol, a: Assignment, menus: set<Symbol>)
    requires Solves(c, a) && Complete(c, menus) && s.Logical()
    ensures Compute(Reread(c, a, menus), s, a) == a(s) <==> !Pinned(c, s, a)
  {
    hide Visible, RevDep, Implied, DefaultTri, Compute, Writes, StringDefault, Complete, EnvOf;
    var c', env := Reread(c, a, menus), EnvOf(a);
    var vis, rev, imp, d := Visible(c, s, env), RevDep(c, s, env), Implied(c, s, env), DefaultTri(c, s, env);
    NotMenuNotVisible(c, s, env, menus);
    assert a(s) == Compute(c, s, a);
    NewTriIsTriFrom(c, s, a);
    NewTriIsTriFrom(c', s, a);
    SameLimits(c, c'.user, s, a);
    DefaultValueIsTri(c, s, a);
    WritesIfVisible(c, s, a);
    hide Solves;
    KeepOrDrop(UserTriOf(c, s), d, vis, rev, imp, IsBool(c, s));
  }

  lemma NotMenuNotVisible(c: Setup, s: Symbol, env: Env, menus: set<Symbol>)
    requires Complete(c, menus)
    ensures Visible(c, s, env) != T.NO ==> s in menus
  {
  }

  lemma WritesIfVisible(c: Setup, s: Symbol, a: Assignment)
    ensures Visible(c, s, EnvOf(a)) != T.NO ==> Writes(c, s, EnvOf(a))
  {
  }

  /** The default string is the letter of the value without a user value. */
  lemma DefaultValueIsTri(c: Setup, s: Symbol, a: Assignment)
    requires s.Logical()
    ensures var env := EnvOf(a);
            StringDefault(c, s, a) == T.Letter(TriFrom(None, DefaultTri(c, s, env), Visible(c, s, env),
                                                       RevDep(c, s, env), Implied(c, s, env), IsBool(c, s)))
  {
  }

  lemma TextualKept(c: Setup, s: Symbol, a: Assignment, menus: set<Symbol>)
    requires Solves(c, a) && Complete(c, menus) && Textual(s)
    ensures Compute(Reread(c, a, menus), s, a) == a(s) <==> !Pinned(c, s, a)
  {
    var c', env := Reread(c, a, menus), EnvOf(a);
    NotMenuNotVisible(c, s, env, menus);
    SameLimits(c, c'.user, s, a);
    WritesIfVisible(c, s, a);
    StringFrom(c, s, a);
    StringFrom(c', s, a);
    assert a(s) == Compute(c, s, a);
    hide Visible, RevDep, Writes, Solves, EnvOf, StringValid, Compute, StringDefault, FirstDefault;
  }

  /** The value of a string, hex or int. */
  lemma StringFrom(c: Setup, s: Symbol, a: Assignment)
    requires Textual(s)
    ensures Compute(c, s, a)
         == Value(T.NO, if UserApplies(c, s, EnvOf(a)) then c.user[s].val else StringDefault(c, s, a))
    ensures forall user: UserValues :: StringDefault(c.(user := user), s, a) == StringDefault(c, s, a)
  {
  }

  /** As long as no `modules_val` changes, every symbol keeps its value exactly when no symbol is pinned. */
  lemma SameModulesExact(c: Setup, rank: Ranking, a: Assignment, menus: set<Symbol>)
    requires Acyclic(c.table, rank) && Complete(c, menus) && Solves(c, a)
    ensures (forall s :: Solution(Reread(c, a, menus), rank)(s) == a(s)) <==> (forall s :: !Pinned(c, s, a))
    ensures (forall s :: !Pinned(c, s, a)) ==> Solves(Reread(c, a, menus), a)
  {
    var c' := Reread(c, a, menus);
    var b := Solution(c', rank);
    SolutionSolves(c', rank);
    hide Solution, Pinned, Compute, Acyclic, Complete;
    forall s ensures Compute(c', s, a) == a(s) <==> !Pinned(c, s, a) {
      OneSymbolKept(c, s, a, menus);
    }
    if forall s :: !Pinned(c, s, a) {
      SolutionIsUnique(c', rank, a, b);
    }
    if forall s :: b(s) == a(s) {
      forall s ensures !Pinned(c, s, a) {
        ComputeReads(c', s, a, b);
      }
    }
  }

  lemma OneSymbolKept(c: Setup, s: Symbol, a: Assignment, menus: set<Symbol>)
    requires Solves(c, a) && Complete(c, menus)
    ensures Compute(Reread(c, a, menus), s, a) == a(s) <==> !Pinned(c, s, a)
  {
    if s.Logical() {
      LogicalKept(c, s, a, menus);
    } else if Textual(s) {
      TextualKept(c, s, a, menus);
    } else {
      assert a(s) == Compute(c, s, a);
    }
  }

  /** A tristate that is pinned is worth `m`. */
  lemma PinnedIsMod(c: Setup, s: Symbol, a: Assignment)
    requires Pinned(c, s, a) && s.Logical()
    ensures s.Type() == Tri && Compute(c, s, a).tri == T.MOD
  {
    NewTriIsTriFrom(c, s, a);
    hide Visible, RevDep, Implied, DefaultTri, Compute;
  }

  /** A prompt and a select that are both `m`, below a default `y`. */
  function PinnedSetup(user: UserValues): Setup {
    Setup(map[PinnedSymbol() := Definition([Some(Sym(ConstMod))], [Default(Sym(ConstYes), None)],
                                           None, Some(Sym(ConstMod)), None)], user, Always(T.YES))
  }

  function PinnedSymbol(): Symbol {
    Symbol.Config("A", Tri)
  }

  /** Its value, which is the user's `m` only as long as the user's value is there. */
  lemma PinnedExample(user: UserValues, rank: Ranking)
    requires rank(PinnedSymbol()) > 0 && forall s: Symbol :: s.IsConst() ==> rank(s) == 0
    ensures var s, c := PinnedSymbol(), PinnedSetup(user);
            && Acyclic(c.table, rank)
            && Solution(c, rank)(s).tri == (if s in user then T.MOD else T.YES)
            && (s in user <==> Pinned(c, s, Solution(c, rank)))
  {
    hide Solution, Solves, Acyclic, PinnedSetup, Visible, RevDep, Implied, DefaultTri;
    PinnedAcyclic(user, rank);
    SolutionSolves(PinnedSetup(user), rank);
    PinnedEquations(user, Solution(PinnedSetup(user), rank));
    PinnedUser(user);
  }

  lemma PinnedUser(user: UserValues)
    ensures PinnedSetup(user).user == user
  {
  }

  lemma PinnedEquations(user: UserValues, a: Assignment)
    requires Solves(PinnedSetup(user), a)
    ensures var s, c, env := PinnedSymbol(), PinnedSetup(user), EnvOf(a);
            && Visible(c, s, env) == T.MOD && RevDep(c, s, env) == T.MOD && Implied(c, s, env) == T.NO
            && DefaultTri(c, s, env) == T.YES && a(s).tri == (if s in user then T.MOD else T.YES)
  {
    var s, c, env := PinnedSymbol(), PinnedSetup(user), EnvOf(a);
    var d := Def(c.table, s);
    assert a(s) == Compute(c, s, a) && a(ConstMod) == Compute(c, ConstMod, a) && a(ConstYes) == Compute(c, ConstYes, a);
    assert BestPrompt(d.prompts[..0], env) == T.NO;
    assert FirstDefault(d.defaults, env) == Some(d.defaults[0]);
  }

  lemma PinnedAcyclic(user: UserValues, rank: Ranking)
    requires rank(PinnedSymbol()) > 0 && forall s: Symbol :: s.IsConst() ==> rank(s) == 0
    ensures Acyclic(PinnedSetup(user).table, rank)
  {
    var d := Def(PinnedSetup(user).table, PinnedSymbol());
    assert PromptsSymbols(d.prompts) == {ConstMod} by { assert PromptsSymbols(d.prompts[..0]) == {}; }
    assert DefaultsSymbols(d.defaults) == {ConstYes} by { assert DefaultsSymbols(d.defaults[1..]) == {}; }
    assert Reads(d) == {ConstMod, ConstYes};
  }

  // ----- conf_write_defconfig

  /** A line of the configuration file: the symbol and the string written for it. */
  datatype Line = Line(sym: Symbol, text: string)

  /** The user values that reading the lines gives. */
  function ReadLines(lines: seq<Line>): UserValues {
    if lines == [] then map[]
    else
      var m, l := ReadLines(lines[..|lines| - 1]), lines[|lines| - 1];
      match ReadBack(l.sym, l.text)
      case None => m
      case Some(v) => m[l.sym := v]
  }

  /** The lines are those of the printed symbols among ss, each once. */
  ghost predicate LinesFor(lines: seq<Line>, c: Setup, a: Assignment, ss: set<Symbol>) {
    && (forall l :: l in lines ==> l.sym in ss && Printed(c, l.sym, a) && l.text == StringValue(l.sym, a(l.sym)))
    && (forall s :: s in ss && Printed(c, s, a) ==> Line(s, StringValue(s, a(s))) in lines)
    && (forall i, j :: 0 <= i < j < |lines| ==> lines[i].sym != lines[j].sym)
    && ReadLines(lines) == MinimalUser(c, a, ss)
  }

  lemma AddLine(lines: seq<Line>, c: Setup, a: Assignment, ss: set<Symbol>, s: Symbol)
    requires LinesFor(lines, c, a, ss)
    ensures !Printed(c, s, a) || s in ss ==> LinesFor(lines, c, a, ss + {s})
    ensures Printed(c, s, a) && s !in ss ==> LinesFor(lines + [Line(s, StringValue(s, a(s)))], c, a, ss + {s})
  {
    hide LinesFor;
    if s in ss {
      assert ss + {s} == ss;
    } else if Printed(c, s, a) {
      AddPrinted(lines, c, a, ss, s);
    } else {
      AddUnprinted(lines, c, a, ss, s);
    }
  }

  lemma AddUnprinted(lines: seq<Line>, c: Setup, a: Assignment, ss: set<Symbol>, s: Symbol)
    requires LinesFor(lines, c, a, ss) && !Printed(c, s, a)
    ensures LinesFor(lines, c, a, ss + {s})
  {
    hide Printed, ReadBack, StringValue, ReadLines;
  }

  lemma AddPrinted(lines: seq<Line>, c: Setup, a: Assignment, ss: set<Symbol>, s: Symbol)
    requires LinesFor(lines, c, a, ss) && Printed(c, s, a) && s !in ss
    ensures LinesFor(lines + [Line(s, StringValue(s, a(s)))], c, a, ss + {s})
  {
    hide Printed, ReadBack, StringValue;
    var l := Line(s, StringValue(s, a(s)));
    assert (lines + [l])[..|lines|] == lines;
  }

  /** What has been visited is not going to be written again, and nothing else has been cleared. */
  ghost predicate VisitedOnce(m: Marks, ss: set<Symbol>) {
    && (forall s :: s in ss ==> StateOf(m.states, s).valid && !StateOf(m.states, s).write)
    && m.cleared <= ss
  }

  lemma StillVisited(m: Marks, m': Marks, ss: set<Symbol>)
    requires VisitedOnce(m, ss) && KeptMarks(m, m')
    ensures VisitedOnce(m', ss)
  {
  }

  lemma ClearedVisited(m: Marks, m': Marks, ss: set<Symbol>, s: Symbol)
    requires VisitedOnce(m, ss) && m'.cleared == m.cleared + {s}
    requires StateOf(m'.states, s).valid && !StateOf(m'.states, s).write
    requires forall x :: x != s ==> StateOf(m'.states, x) == StateOf(m.states, x)
    ensures VisitedOnce(m', ss + {s})
  {
  }

  lemma NotWritten(m: Marks, ss: set<Symbol>, s: Symbol)
    requires VisitedOnce(m, ss) && StateOf(m.states, s).valid && !StateOf(m.states, s).write
    ensures VisitedOnce(m, ss + {s}) && (s in m.cleared ==> s in ss)
  {
  }

  /** A VALID symbol has its value and its limits, and is written unless that has been cleared. */
  lemma ValidSymbol(syms: Symbols, s: Symbol)
    requires syms.Consistent() && syms.State(s).valid && Calculated(s)
    ensures IsRight(syms.State(s), s in syms.cleared, syms.CurrentSetup(), s, syms.sol)
  {
    hide IsRight, Supported, SteadyMarks, IsSettled;
  }

  /** One step of the walk: the symbol of a menu entry that is not a choice. */
  method WriteSymbol(syms: Symbols, s: Symbol, ghost ss: set<Symbol>) returns (line: Option<Line>)
    requires syms.Valid() && Calculated(s) && VisitedOnce(syms.Marked(), ss)
    modifies syms
    ensures syms.Valid() && syms.CurrentSetup() == old(syms.CurrentSetup()) && syms.sol == old(syms.sol)
    ensures VisitedOnce(syms.Marked(), ss + {s})
    ensures line.Some? <==> s !in ss && Printed(syms.CurrentSetup(), s, syms.sol)
    ensures line.Some? ==> line.value == Line(s, StringValue(s, syms.sol(s)))
  {
    hide Symbols.Consistent, Visible, RevDep, DirDep, Implied, Writes, StringDefault, StringValue, Solution, Keeps,
      KeptMarks, LimitsAre;
    line := None;
    ghost var m := syms.Marked();
    syms.CalcSymbol(s);
    KeepsIsKept(syms.rank, syms.rank(s) + 1, m, syms.Marked());
    StillVisited(m, syms.Marked(), ss);
    ValidSymbol(syms, s);
    if syms.State(s).write {
      line := WriteOnce(syms, s, ss);
    } else {
      NotWritten(syms.Marked(), ss, s);
    }
  }

  /** The symbol has not been visited before. */
  method WriteOnce(syms: Symbols, s: Symbol, ghost ss: set<Symbol>) returns (line: Option<Line>)
    requires syms.Valid() && Calculated(s) && VisitedOnce(syms.Marked(), ss)
    requires syms.State(s).valid && syms.State(s).write && Writes(syms.CurrentSetup(), s, EnvOf(syms.sol))
    requires syms.State(s).curr == syms.sol(s) && LimitsAre(syms.State(s), syms.CurrentSetup(), s, EnvOf(syms.sol))
    modifies syms
    ensures syms.Valid() && syms.CurrentSetup() == old(syms.CurrentSetup()) && syms.sol == old(syms.sol)
    ensures VisitedOnce(syms.Marked(), ss + {s})
    ensures line.Some? <==> Printed(syms.CurrentSetup(), s, syms.sol)
    ensures line.Some? ==> line.value == Line(s, StringValue(s, syms.sol(s)))
  {
    hide Symbols.Consistent, Visible, RevDep, DirDep, Implied, Writes, StringDefault, StringValue, Solution, KeptMarks,
      VisitedOnce;
    line := None;
    ghost var m0 := syms.Marked();
    syms.ClearWrite(s);
    ghost var m1 := syms.Marked();
    forall x | x != s ensures StateOf(m1.states, x) == StateOf(m0.states, x) {
      assert syms.State(x) == old(syms.State(x));
    }
    ClearedVisited(m0, m1, ss, s);
    if syms.State(s).visible > syms.State(s).revDep {
      syms.ValidIsSolution(s);
      var str := syms.GetStringValue(s);
      ghost var m2 := syms.Marked();
      StillVisited(m1, m2, ss + {s});
      var default := syms.GetStringDefault(s);
      StillVisited(m2, syms.Marked(), ss + {s});
      if str != default {
        line := Some(Line(s, str));
      }
    }
  }

  /**
   `conf_write_defconfig` over the symbols of the menu entries, in menu order:
   it writes every printed symbol once, and reading the lines gives the
   minimal user values.  Whatever was calculated before is calculated again.
   */
  method WriteDefconfig(syms: Symbols, menus: seq<Symbol>) returns (lines: seq<Line>)
    requires syms.Started() && Settled(syms) && forall s :: s in menus ==> Calculated(s)
    modifies syms
    ensures syms.Valid() && syms.PlainSetup() == old(syms.PlainSetup())
    ensures LinesFor(lines, syms.PlainSetup(), Solution(syms.PlainSetup(), syms.rank), set s | s in menus)
  {
    hide Symbols.Consistent, Symbols.Started, Settled, LinesFor, MinimalUser, Printed, Solution;
    ClearAll(syms);
    ghost var c, a := syms.PlainSetup(), syms.sol;
    lines := [];
    NoLines(c, a);
    ghost var ss := {};
    for i := 0 to |menus|
      invariant syms.Valid() && syms.CurrentSetup() == c && syms.sol == a
      invariant ss == (set s | s in menus[..i]) && VisitedOnce(syms.Marked(), ss)
      invariant LinesFor(lines, c, a, ss)
    {
      var line := WriteSymbol(syms, menus[i], ss);
      AddLine(lines, c, a, ss, menus[i]);
      if line.Some? {
        lines := lines + [line.value];
      }
      ss := ss + {menus[i]};
      assert menus[..i + 1] == menus[..i] + [menus[i]];
    }
    assert menus[..|menus|] == menus;
    OneSetup(syms, c);
  }

  /** With one era there is only one setup. */
  lemma OneSetup(syms: Symbols, c: Setup)
    requires syms.Valid() && syms.CurrentSetup() == c
    ensures syms.PlainSetup() == c
  {
    hide Symbols.Consistent;
  }

  /** `modules_val` is what the plain definition gives `modules_sym`. */
  ghost predicate Settled(syms: Symbols)
    reads syms
  {
    syms.modulesSym.Some? ==> Solution(syms.PlainSetup(), syms.rank)(syms.modulesSym.value).tri == syms.modulesVal
  }

  /** `modules_val` is settled, so clearing the marks changes no value. */
  method ClearAll(syms: Symbols)
    requires syms.Started() && Settled(syms)
    modifies syms
    ensures syms.Valid() && syms.PlainSetup() == syms.CurrentSetup() == old(syms.PlainSetup())
    ensures syms.sol == Solution(syms.PlainSetup(), syms.rank) && syms.cleared == {}
  {
    hide Symbols.Consistent, Symbols.Started, Symbols.Current, Solution, RightMarks, OnTheWay;
    ghost var c := syms.PlainSetup();
    syms.ClearAllValid();
    SettledAfter(c, syms.rank, syms.modulesSym);
    OneSetup(syms, c);
  }

  lemma SettledAfter(c: Setup, rank: Ranking, modulesSym: Option<Symbol>)
    requires modulesSym.Some? ==> c.modules == Always(Solution(c, rank)(modulesSym.value).tri)
    ensures After(c, rank, modulesSym) == c && (modulesSym.Some? ==> Survives(c, rank, modulesSym.value))
  {
    hide Solution;
  }

  lemma NoLines(c: Setup, a: Assignment)
    ensures LinesFor([], c, a, {})
  {
  }
}
