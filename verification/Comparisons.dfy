/**
 What the six relations of `expr_calc_value` (`expr.c`) compare: numbers by
 their size, and everything else by the order of a dictionary.
 */
module Comparisons {
  import opened Wrappers
  import opened Expressions
  import opened Numbers
  import opened NumeralReading
  import T = Tristates

  // ----- the order of a dictionary

  /** After a common beginning, a ends or goes on with a smaller character. */
  predicate Before(a: string, b: string) {
    exists k: nat ::
      k <= |a| && k < |b| && a[..k] == b[..k] && (k == |a| || a[k] < b[k])
  }

  lemma BeforeHere(a: string, b: string, k: nat)
    requires k <= |a| && k < |b| && a[..k] == b[..k] && (k == |a| || a[k] < b[k])
    ensures Before(a, b)
  {
  }

  lemma BeforeWithout(a: string, b: string)
    requires a != [] && b != [] && a[0] == b[0] && Before(a, b)
    ensures Before(a[1..], b[1..])
  {
    var k: nat :| k <= |a| && k < |b| && a[..k] == b[..k] && (k == |a| || a[k] < b[k]);
    assert a[..k][1..] == a[1..][..k - 1] && b[..k][1..] == b[1..][..k - 1];
    hide Before;
    BeforeHere(a[1..], b[1..], k - 1);
  }

  lemma BeforeWith(c: char, a: string, b: string)
    requires Before(a, b)
    ensures Before([c] + a, [c] + b)
  {
    var k: nat :| k <= |a| && k < |b| && a[..k] == b[..k] && (k == |a| || a[k] < b[k]);
    assert ([c] + a)[..k + 1] == [c] + a[..k] && ([c] + b)[..k + 1] == [c] + b[..k];
    hide Before;
    BeforeHere([c] + a, [c] + b, k + 1);
  }

  /** A common first character does not matter. */
  lemma BeforeTail(a: string, b: string)
    requires a != [] && b != [] && a[0] == b[0]
    ensures Before(a, b) <==> Before(a[1..], b[1..])
  {
    hide Before;
    if Before(a, b) {
      BeforeWithout(a, b);
    }
    if Before(a[1..], b[1..]) {
      BeforeWith(a[0], a[1..], b[1..]);
      assert [a[0]] + a[1..] == a && [b[0]] + b[1..] == b;
    }
  }

  lemma SameStart(a: string, b: string, k: nat)
    requires k <= |a| && k <= |b| && a[..k] == b[..k]
    ensures k > 0 ==> a[0] == b[0]
  {
    if k > 0 {
      assert a[0] == a[..k][0];
    }
  }

  /** The first character decides if it differs. */
  lemma BeforeHead(a: string, b: string)
    requires a == [] || b == [] || a[0] != b[0]
    ensures Before(a, b) <==> b != [] && (a == [] || a[0] < b[0])
  {
    if Before(a, b) {
      var k: nat :| k <= |a| && k < |b| && a[..k] == b[..k] && (k == |a| || a[k] < b[k]);
      SameStart(a, b, k);
    }
    if b != [] && (a == [] || a[0] < b[0]) {
      BeforeHere(a, b, 0);
    }
  }

  /** `strcmp` is the order of a dictionary. */
  lemma {:induction false} StrCmpIsDictionary(a: string, b: string)
    ensures StrCmp(a, b) < 0 <==> Before(a, b)
    ensures StrCmp(a, b) > 0 <==> Before(b, a)
    ensures StrCmp(a, b) == 0 <==> a == b
  {
    hide Before;
    StrCmpEqual(a, b);
    if a == [] || b == [] || a[0] != b[0] {
      BeforeHead(a, b);
      BeforeHead(b, a);
    } else {
      BeforeTail(a, b);
      BeforeTail(b, a);
      StrCmpIsDictionary(a[1..], b[1..]);
    }
  }

  // ----- how the string of a symbol is read

  /** The base of the numbers of a type that is read as a signed number. */
  function SignedBase(typ: SymbolType): Option<nat> {
    match typ
    case Int => Some(10)
    case Str => Some(0)
    case Unknown => Some(0)
    case _ => None
  }

  /** The symbol is worth the signed number v: a tristate its value, and other symbols what is written. */
  ghost predicate ReadsSigned(s: Symbol, str: string, v: int) {
    if s.Logical() then (str == "n" && v == 0) || (str == "m" && v == 1) || (str == "y" && v == 2)
    else SignedBase(s.Type()).Some? && IsSigned(str, SignedBase(s.Type()).value, v)
  }

  ghost predicate ReadsUnsigned(s: Symbol, str: string, u: int) {
    s.Type() == Hex && IsUnsigned(str, 16, u)
  }

  /** The symbol should be a number, and its string is none. */
  ghost predicate ReadsText(s: Symbol, str: string) {
    match s.Type()
    case Hex => forall u :: !IsUnsigned(str, 16, u)
    case Int => forall v :: !IsSigned(str, 10, v)
    case Str => forall v :: !IsSigned(str, 0, v)
    case Unknown => forall v :: !IsSigned(str, 0, v)
    case _ => false
  }

  lemma SignedIsParsed(s: Symbol, str: string, v: int)
    requires ReadsSigned(s, str, v)
    ensures ParseString(str, s.Type()) == KSigned(v)
  {
    hide StrToLL, StrToULL, IsNumber;
    if !s.Logical() {
      SignedExact(str, SignedBase(s.Type()).value, v);
    }
  }

  lemma UnsignedIsParsed(s: Symbol, str: string, u: int)
    requires ReadsUnsigned(s, str, u)
    ensures ParseString(str, s.Type()) == KUnsigned(u)
  {
    hide StrToLL, StrToULL, IsNumber;
    UnsignedExact(str, 16, u);
  }

  lemma TextIsParsed(s: Symbol, str: string)
    ensures ReadsText(s, str) <==> ParseString(str, s.Type()) == KString
  {
    hide StrToLL, StrToULL, IsNumber;
    match s.Type() {
      case Hex =>
        forall u ensures StrToULL(str, 16) == Some(u) <==> IsUnsigned(str, 16, u) {
          UnsignedExact(str, 16, u);
        }
      case Int =>
        forall v ensures StrToLL(str, 10) == Some(v) <==> IsSigned(str, 10, v) {
          SignedExact(str, 10, v);
        }
      case _ =>
        forall v ensures StrToLL(str, 0) == Some(v) <==> IsSigned(str, 0, v) {
          SignedExact(str, 0, v);
        }
    }
  }

  // ----- the relations

  predicate BothStrings(l: Symbol, r: Symbol) {
    l.Type() == Str && r.Type() == Str
  }

  /** The relation between two numbers. */
  predicate Relates(rel: RelOp, x: int, y: int) {
    match rel
    case EQUAL => x == y
    case UNEQUAL => x != y
    case LTH => x < y
    case LEQ => x <= y
    case GTH => x > y
    case GEQ => x >= y
  }

  /** Two signed numbers are compared by size. */
  lemma CompareSigned(rel: RelOp, l: Symbol, r: Symbol, env: Env, x: int, y: int)
    requires !BothStrings(l, r) && ReadsSigned(l, env.str(l), x) && ReadsSigned(r, env.str(r), y)
    ensures Calc(Comp(rel, l, r), env) == T.Truth(Relates(rel, x, y))
  {
    SignedIsParsed(l, env.str(l), x);
    SignedIsParsed(r, env.str(r), y);
    hide ParseString, ReadsSigned, StrCmp;
  }

  /** The 64 bits of a number: a negative one counts from 2^64 down. */
  ghost predicate ReadsBits(s: Symbol, str: string, bits: int) {
    || ReadsUnsigned(s, str, bits)
    || (0 <= bits < 0x8000_0000_0000_0000 && ReadsSigned(s, str, bits))
    || (0x8000_0000_0000_0000 <= bits < 0x1_0000_0000_0000_0000 && ReadsSigned(s, str, bits - 0x1_0000_0000_0000_0000))
  }

  lemma BitsAreParsed(s: Symbol, str: string, bits: int)
    requires ReadsBits(s, str, bits)
    ensures var k := ParseString(str, s.Type());
            (k.KSigned? || k.KUnsigned?) && Bits(k) == bits && (k.KUnsigned? <==> s.Type() == Hex)
  {
    hide ParseString, StrToLL, StrToULL, IsNumber;
    if ReadsUnsigned(s, str, bits) {
      UnsignedIsParsed(s, str, bits);
    } else if ReadsSigned(s, str, bits) {
      SignedIsParsed(s, str, bits);
    } else {
      SignedIsParsed(s, str, bits - 0x1_0000_0000_0000_0000);
    }
  }

  /** With a hexadecimal number the 64 bits are compared without sign. */
  lemma CompareUnsigned(rel: RelOp, l: Symbol, r: Symbol, env: Env, x: int, y: int)
    requires l.Type() == Hex || r.Type() == Hex
    requires ReadsBits(l, env.str(l), x) && ReadsBits(r, env.str(r), y)
    ensures Calc(Comp(rel, l, r), env) == T.Truth(Relates(rel, x, y))
  {
    hide ParseString, ReadsBits, StrCmp, Bits;
    BitsAreParsed(l, env.str(l), x);
    BitsAreParsed(r, env.str(r), y);
  }

  /** The relation between two strings, in the order of a dictionary. */
  predicate RelatesTexts(rel: RelOp, a: string, b: string) {
    match rel
    case EQUAL => a == b
    case UNEQUAL => a != b
    case LTH => Before(a, b)
    case LEQ => !Before(b, a)
    case GTH => Before(b, a)
    case GEQ => !Before(a, b)
  }

  /** Two strings, or anything and what is no number, are compared as in a dictionary. */
  lemma CompareTexts(rel: RelOp, l: Symbol, r: Symbol, env: Env)
    requires BothStrings(l, r) || ReadsText(l, env.str(l)) || ReadsText(r, env.str(r))
    ensures Calc(Comp(rel, l, r), env) == T.Truth(RelatesTexts(rel, env.str(l), env.str(r)))
  {
    TextIsParsed(l, env.str(l));
    TextIsParsed(r, env.str(r));
    StrCmpIsDictionary(env.str(l), env.str(r));
    hide ParseString, ReadsText, StrCmp, Before;
  }

  /** A symbol without a type that can be compared is equal to the same string, and not ordered. */
  lemma CompareOthers(rel: RelOp, l: Symbol, r: Symbol, env: Env)
    requires l.Type() == Other || r.Type() == Other
    requires !ReadsText(l, env.str(l)) && !ReadsText(r, env.str(r))
    ensures Calc(Comp(rel, l, r), env)
         == T.Truth((rel == EQUAL && env.str(l) == env.str(r)) || (rel == UNEQUAL && env.str(l) != env.str(r)))
  {
    TextIsParsed(l, env.str(l));
    TextIsParsed(r, env.str(r));
    OtherIsInvalid(l, env.str(l));
    OtherIsInvalid(r, env.str(r));
    StrCmpEqual(env.str(l), env.str(r));
    hide ParseString, ReadsText, StrCmp;
  }

  lemma OtherIsInvalid(s: Symbol, str: string)
    ensures ParseString(str, s.Type()).KInvalid? <==> s.Type() == Other
  {
  }

  /** A string that is read is one of the three, as far as its type can be compared. */
  lemma ReadingIsComplete(s: Symbol, str: string) returns (v: int)
    requires s.Type() != Other && (s.Logical() ==> str in ["n", "m", "y"])
    ensures ReadsText(s, str) || (ReadsSigned(s, str, v) && s.Type() != Hex) || ReadsUnsigned(s, str, v)
  {
    hide StrToLL, StrToULL, IsNumber;
    v := if s.Logical() then LetterValue(str) else 0;
    if !s.Logical() && !ReadsText(s, str) {
      v :| if s.Type() == Hex then IsUnsigned(str, 16, v) else IsSigned(str, SignedBase(s.Type()).value, v);
    }
  }

  /** A decimal number is what it says, and so `A < 5` is a question of size. */
  lemma CompareDecimals(rel: RelOp, s: Symbol, m: nat, n: nat, env: Env)
    requires s.Type() == Int && env.str(s) == Numeral(m, 10, LOWER) && m < 0x8000_0000_0000_0000
    requires env.str(Const(Numeral(n, 10, LOWER))) == Numeral(n, 10, LOWER) && n < 0x8000_0000_0000_0000
    ensures Calc(Comp(rel, s, Const(Numeral(n, 10, LOWER))), env) == T.Truth(Relates(rel, m, n))
  {
    DecimalIsNumber(m);
    DecimalIsNumber(n);
    hide IsNumber, Numeral;
    CompareSigned(rel, s, Const(Numeral(n, 10, LOWER)), env, m, n);
  }

  lemma DecimalIsNumber(n: nat)
    ensures IsNumber(Numeral(n, 10, LOWER), 10, false, n) && IsNumber(Numeral(n, 10, LOWER), 0, false, n)
  {
    var s := Numeral(n, 10, LOWER);
    WrittenDecimal(n);
    WrittenPlain(n, 10, LOWER, 0);
    hide IsMagnitude, Numeral;
    assert Zeros(0) + s == s && "" + "" + s == s;
  }
}
