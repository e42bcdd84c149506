/**
 Which strings are numbers, and which numbers they are: what `strtoll` and
 `strtoull` make of spaces, a sign, a prefix and digits.
 */
module NumeralReading {
  import opened Wrappers
  import opened Numbers

  // ----- what digits are worth

  const LOWER := "0123456789abcdef"
  const UPPER := "0123456789ABCDEF"

  /** The character is a digit with the value d. */
  predicate IsDigit(c: char, d: nat) {
    d < 16 && (c == LOWER[d] || c == UPPER[d])
  }

  predicate InBase(c: char, base: nat) {
    exists d: nat | d < base :: IsDigit(c, d)
  }

  ghost function DigitOf(c: char): nat
    requires InBase(c, 16)
  {
    var d: nat :| d < 16 && IsDigit(c, d);
    d
  }

  /** Nothing but digits of the base. */
  predicate AllDigits(s: string, base: nat) {
    forall c :: c in s ==> InBase(c, base)
  }

  /** Each digit more makes the number as many times larger as the base says. */
  ghost function Value(s: string, base: nat): nat
    requires AllDigits(s, 16)
  {
    if s == [] then 0 else Value(s[..|s| - 1], base) * base + DigitOf(s[|s| - 1])
  }

  // ----- reading digits

  /** Both ways to say what a digit is worth agree. */
  lemma DigitExact(c: char, base: nat)
    requires base <= 16
    ensures InBase(c, base) <==> 0 <= DigitValue(c) < base
    ensures InBase(c, base) ==> InBase(c, 16) && DigitOf(c) == DigitValue(c)
  {
    forall d: nat ensures IsDigit(c, d) <==> d < 16 && DigitValue(c) == d {
    }
    if 0 <= DigitValue(c) < base {
      assert IsDigit(c, DigitValue(c));
    }
  }

  lemma AllDigitsMore(s: string, c: char, base: nat)
    ensures AllDigits(s + [c], base) <==> AllDigits(s, base) && InBase(c, base)
  {
    hide InBase;
    if AllDigits(s + [c], base) {
      forall x | x in s ensures InBase(x, base) {
        assert x in s + [c];
      }
      assert c in s + [c];
    }
  }

  lemma ValueMore(s: string, c: char, base: nat)
    requires AllDigits(s, 16) && InBase(c, 16)
    ensures AllDigits(s + [c], 16) && Value(s + [c], base) == Value(s, base) * base + DigitOf(c)
  {
    hide InBase, DigitOf;
    AllDigitsMore(s, c, 16);
    assert (s + [c])[..|s|] == s;
  }

  /** `Digits` accepts exactly strings of digits, and goes on with the number it has got. */
  lemma {:induction false} DigitsExact(done: string, s: string, base: nat)
    requires 2 <= base <= 16 && AllDigits(done, base) && AllDigits(done, 16)
    ensures AllDigits(done + s, base) ==> AllDigits(done + s, 16)
    ensures Digits(s, base, Value(done, base))
         == if AllDigits(done + s, base) then Some(Value(done + s, base)) else None
    decreases s
  {
    hide AllDigits, InBase, DigitOf, DigitValue, Value;
    if s == [] {
      assert done + s == done;
    } else {
      assert done + s == done + [s[0]] + s[1..];
      DigitExact(s[0], base);
      AllDigitsMore(done, s[0], base);
      if InBase(s[0], base) {
        ValueMore(done, s[0], base);
        DigitsExact(done + [s[0]], s[1..], base);
      } else {
        NotAllDigits(done, s, base);
      }
    }
  }

  lemma NotAllDigits(done: string, s: string, base: nat)
    requires s != [] && !InBase(s[0], base)
    ensures !AllDigits(done + s, base)
  {
    hide InBase;
    assert s[0] in done + s;
  }

  // ----- numbers

  predicate HasPrefix(s: string) {
    |s| >= 3 && (s[..2] == "0x" || s[..2] == "0X")
  }

  /** The base that counts, with base 0 for the one of the prefix. */
  function BaseOf(s: string, base: nat): nat {
    if base != 0 then base else if HasPrefix(s) then 16 else if s != [] && s[0] == '0' then 8 else 10
  }

  /** The digits behind the prefix of a hexadecimal number. */
  function BodyOf(s: string, base: nat): string {
    if BaseOf(s, base) == 16 && HasPrefix(s) then s[2..] else s
  }

  /** The string without sign is the number m. */
  ghost predicate IsMagnitude(s: string, base: nat, m: nat) {
    BodyOf(s, base) != [] && AllDigits(BodyOf(s, base), BaseOf(s, base))
    && AllDigits(BodyOf(s, base), 16) && m == Value(BodyOf(s, base), BaseOf(s, base))
  }

  lemma PrefixExact(s: string)
    ensures HasPrefix(s) <==> |s| >= 3 && s[0] == '0' && (s[1] == 'x' || s[1] == 'X')
  {
    if |s| >= 3 {
      assert s[..2] == [s[0], s[1]];
    }
  }

  lemma NoDigits(base: nat)
    ensures AllDigits("", base) && AllDigits("", 16) && Value("", base) == 0
  {
  }

  lemma MagnitudeExact(s: string, base: nat, m: nat)
    requires base == 0 || base == 10 || base == 16
    ensures Magnitude(s, base) == Some(m) <==> IsMagnitude(s, base, m)
  {
    if s != [] {
      PrefixExact(s);
      NoDigits(BaseOf(s, base));
      hide HasPrefix, AllDigits, Value, Digits;
      DigitsExact("", BodyOf(s, base), BaseOf(s, base));
      assert "" + BodyOf(s, base) == BodyOf(s, base);
    }
  }

  /** Spaces, tabs, and what else moves the cursor. */
  predicate AllSpaces(s: string) {
    forall i :: 0 <= i < |s| ==> s[i] == ' ' || 9 <= s[i] as int <= 13
  }

  /** The string is spaces, perhaps a sign, and the number m. */
  ghost predicate IsNumber(str: string, base: nat, negative: bool, m: nat) {
    exists spaces, sign, body ::
      && str == spaces + sign + body && AllSpaces(spaces) && IsMagnitude(body, base, m)
      && IsSign(sign, negative)
  }

  lemma {:induction false} SkipExact(spaces: string, s: string)
    requires AllSpaces(spaces) && (s != [] ==> !IsSpace(s[0]))
    ensures SkipSpace(spaces + s) == s
  {
    if spaces == [] {
      assert spaces + s == s;
    } else {
      assert (spaces + s)[1..] == spaces[1..] + s;
      SkipExact(spaces[1..], s);
    }
  }

  lemma {:induction false} SkippedSpaces(str: string) returns (spaces: string)
    ensures str == spaces + SkipSpace(str) && AllSpaces(spaces)
    ensures SkipSpace(str) != [] ==> !IsSpace(SkipSpace(str)[0])
  {
    if str != [] && IsSpace(str[0]) {
      var more := SkippedSpaces(str[1..]);
      spaces := [str[0]] + more;
    } else {
      spaces := "";
    }
  }

  /** A number begins with a digit. */
  lemma MagnitudeStarts(s: string, base: nat, m: nat)
    requires (base == 0 || base == 10 || base == 16) && IsMagnitude(s, base, m)
    ensures s != [] && DigitValue(s[0]) >= 0
  {
    var b := BodyOf(s, base);
    if b == s {
      assert s[0] in s;
      DigitExact(s[0], BaseOf(s, base));
    } else {
      PrefixExact(s);
    }
  }

  lemma NotSpaceNotSign(c: char)
    requires DigitValue(c) >= 0
    ensures !IsSpace(c) && c != '-' && c != '+'
  {
  }

  predicate IsSign(sign: string, negative: bool) {
    if negative then sign == "-" else sign == "" || sign == "+"
  }

  lemma PartsFound(spaces: string, sign: string, body: string, base: nat, negative: bool, m: nat)
    requires (base == 0 || base == 10 || base == 16) && AllSpaces(spaces) && IsSign(sign, negative)
    requires IsMagnitude(body, base, m)
    ensures SkipSpace(spaces + sign + body) == sign + body
    ensures Unsigned(sign + body) == body && Negative(sign + body) == negative
  {
    hide AllSpaces, SkipSpace, IsMagnitude, DigitValue;
    MagnitudeStarts(body, base, m);
    NotSpaceNotSign(body[0]);
    assert spaces + sign + body == spaces + (sign + body);
    SkipExact(spaces, sign + body);
    if sign == "" {
      assert sign + body == body;
    } else {
      assert (sign + body)[1..] == body;
    }
  }

  /** Spaces, sign and number are found again. */
  lemma NumberParts(str: string, base: nat, negative: bool, m: nat)
    requires (base == 0 || base == 10 || base == 16)
    ensures IsNumber(str, base, negative, m)
            <==> Negative(SkipSpace(str)) == negative && Magnitude(Unsigned(SkipSpace(str)), base) == Some(m)
  {
    hide IsMagnitude, Magnitude, AllSpaces, SkipSpace, IsSign, Unsigned, Negative;
    var t := SkipSpace(str);
    MagnitudeExact(Unsigned(t), base, m);
    if IsNumber(str, base, negative, m) {
      var spaces, sign, body :|
        && str == spaces + sign + body && AllSpaces(spaces) && IsMagnitude(body, base, m)
        && IsSign(sign, negative);
      PartsFound(spaces, sign, body, base, negative, m);
    }
    if Negative(t) == negative && IsMagnitude(Unsigned(t), base, m) {
      PartsAreNumber(str, base, negative, m);
    }
  }

  lemma PartsAreNumber(str: string, base: nat, negative: bool, m: nat)
    requires var t := SkipSpace(str); Negative(t) == negative && IsMagnitude(Unsigned(t), base, m)
    ensures IsNumber(str, base, negative, m)
  {
    hide IsMagnitude, AllSpaces, SkipSpace, IsSign;
    var t := SkipSpace(str);
    var spaces := SkippedSpaces(str);
    var sign := if Unsigned(t) == t then "" else [t[0]];
    SignOf(t);
    assert t == sign + Unsigned(t);
    assert str == spaces + sign + Unsigned(t);
  }

  lemma SignOf(t: string)
    ensures IsSign(if Unsigned(t) == t then "" else [t[0]], Negative(t))
  {
  }

  /** The string is a number that fits into 64 bits with a sign. */
  ghost predicate IsSigned(str: string, base: nat, v: int) {
    && -0x8000_0000_0000_0000 <= v < 0x8000_0000_0000_0000
    && exists m: nat :: (v == m && IsNumber(str, base, false, m)) || (v + m == 0 && IsNumber(str, base, true, m))
  }

  /** The string is a number of 64 bits; a minus sign subtracts it from 2^64. */
  ghost predicate IsUnsigned(str: string, base: nat, u: int) {
    exists negative: bool, m: nat ::
      && IsNumber(str, base, negative, m) && m < 0x1_0000_0000_0000_0000
      && u == if negative && m > 0 then 0x1_0000_0000_0000_0000 - m else m
  }

  lemma PartsOfAll(str: string, base: nat)
    requires base == 0 || base == 10 || base == 16
    ensures forall negative: bool, m: nat ::
              IsNumber(str, base, negative, m)
              <==> Negative(SkipSpace(str)) == negative && Magnitude(Unsigned(SkipSpace(str)), base) == Some(m)
  {
    hide IsNumber, Magnitude, SkipSpace, Unsigned, Negative;
    forall negative: bool, m: nat
      ensures IsNumber(str, base, negative, m)
              <==> Negative(SkipSpace(str)) == negative && Magnitude(Unsigned(SkipSpace(str)), base) == Some(m)
    {
      NumberParts(str, base, negative, m);
    }
  }

  /** `strtoll` accepts exactly the numbers that fit into 64 bits with a sign. */
  lemma SignedExact(str: string, base: nat, v: int)
    requires base == 0 || base == 10 || base == 16
    ensures StrToLL(str, base) == Some(v) <==> IsSigned(str, base, v)
  {
    hide IsNumber, Magnitude, SkipSpace, Unsigned, Negative;
    var t := SkipSpace(str);
    PartsOfAll(str, base);
    if Magnitude(Unsigned(t), base).Some? {
      assert IsNumber(str, base, Negative(t), Magnitude(Unsigned(t), base).value);
    }
  }

  /** `strtoull` accepts exactly the numbers whose digits fit into 64 bits. */
  lemma UnsignedExact(str: string, base: nat, u: int)
    requires base == 0 || base == 10 || base == 16
    ensures StrToULL(str, base) == Some(u) <==> IsUnsigned(str, base, u)
  {
    hide IsNumber, Magnitude, SkipSpace, Unsigned, Negative;
    var t := SkipSpace(str);
    PartsOfAll(str, base);
    if Magnitude(Unsigned(t), base).Some? {
      assert IsNumber(str, base, Negative(t), Magnitude(Unsigned(t), base).value);
    }
  }

  // ----- writing numbers

  lemma Quotient(n: nat, base: nat)
    requires base >= 2
    ensures n / base * base + n % base == n && n % base < base && (n >= base ==> n / base < n)
  {
  }

  /** The digits of n, without leading zeros. */
  function Numeral(n: nat, base: nat, digits: string): (s: string)
    requires 2 <= base <= |digits|
  {
    Quotient(n, base);
    if n < base then [digits[n]] else Numeral(n / base, base, digits) + [digits[n % base]]
  }

  function Zeros(n: nat): string {
    if n == 0 then "" else Zeros(n - 1) + "0"
  }

  lemma DigitOfIs(c: char, d: nat, base: nat)
    requires d < base <= 16 && IsDigit(c, d)
    ensures InBase(c, base) && InBase(c, 16) && DigitOf(c) == d
  {
    hide DigitOf;
    DigitExact(c, base);
    DigitExact(c, 16);
    IsDigitValue(c, d);
  }

  lemma IsDigitValue(c: char, d: nat)
    requires IsDigit(c, d)
    ensures DigitValue(c) == d
  {
  }

  lemma {:induction false} ZerosAreNothing(n: nat, base: nat)
    requires 2 <= base <= 16
    ensures AllDigits(Zeros(n), base) && AllDigits(Zeros(n), 16) && Value(Zeros(n), base) == 0
  {
    if n == 0 {
      NoDigits(base);
    } else {
      assert IsDigit('0', 0);
      DigitOfIs('0', 0, base);
      hide InBase, DigitOf, AllDigits, Value;
      ZerosAreNothing(n - 1, base);
      AllDigitsMore(Zeros(n - 1), '0', base);
      ValueMore(Zeros(n - 1), '0', base);
    }
  }

  /** The digits of n, with any zeros before them, are worth n. */
  lemma {:induction false} NumeralIsRead(n: nat, base: nat, digits: string, zeros: nat)
    requires 2 <= base <= 16 && (digits == LOWER || digits == UPPER)
    ensures var s := Zeros(zeros) + Numeral(n, base, digits);
            s != [] && AllDigits(s, base) && AllDigits(s, 16) && Value(s, base) == n
  {
    hide InBase, AllDigits, Value, DigitOf;
    if n < base {
      ZerosAreNothing(zeros, base);
      LastDigit(Zeros(zeros), n, base, digits);
    } else {
      Quotient(n, base);
      var init := Zeros(zeros) + Numeral(n / base, base, digits);
      NumeralIsRead(n / base, base, digits, zeros);
      LastDigit(init, n % base, base, digits);
      assert init + [digits[n % base]] == Zeros(zeros) + Numeral(n, base, digits);
    }
  }

  lemma LastDigit(s: string, d: nat, base: nat, digits: string)
    requires d < base <= 16 && (digits == LOWER || digits == UPPER) && AllDigits(s, base) && AllDigits(s, 16)
    ensures var t := s + [digits[d]];
            AllDigits(t, base) && AllDigits(t, 16) && Value(t, base) == Value(s, base) * base + d
  {
    hide InBase, AllDigits, Value, DigitOf;
    DigitOfIs(digits[d], d, base);
    AllDigitsMore(s, digits[d], base);
    ValueMore(s, digits[d], base);
  }

  /** An x is no digit. */
  lemma NoPrefix(s: string, base: nat)
    requires AllDigits(s, base) && base <= 16
    ensures !HasPrefix(s)
  {
    if HasPrefix(s) {
      PrefixExact(s);
      assert s[1] in s;
      DigitExact(s[1], base);
    }
  }

  /** A decimal numeral begins with a zero only if it is one. */
  lemma {:induction false} FirstDigit(n: nat)
    ensures var s := Numeral(n, 10, LOWER); s != [] && (n > 0 ==> s[0] != '0') && (n == 0 ==> s == "0")
  {
    if n >= 10 {
      FirstDigit(n / 10);
    }
  }

  /** Zeros and decimal or hexadecimal digits, in their base. */
  lemma WrittenPlain(n: nat, base: nat, digits: string, zeros: nat)
    requires (base == 10 || base == 16) && (digits == LOWER || digits == UPPER)
    ensures IsMagnitude(Zeros(zeros) + Numeral(n, base, digits), base, n)
  {
    NumeralIsRead(n, base, digits, zeros);
    NoPrefix(Zeros(zeros) + Numeral(n, base, digits), base);
    hide Value, Zeros, AllDigits, HasPrefix, Numeral;
  }

  /** Decimal digits without zeros before them, in the base of their prefix. */
  lemma WrittenDecimal(n: nat)
    ensures IsMagnitude(Numeral(n, 10, LOWER), 0, n)
  {
    var s := Numeral(n, 10, LOWER);
    NumeralIsRead(n, 10, LOWER, 0);
    assert Zeros(0) + s == s;
    NoPrefix(s, 10);
    FirstDigit(n);
    if n == 0 {
      ZeroIsRead();
    }
    hide Value, Zeros, AllDigits, HasPrefix, Numeral;
  }

  lemma ZeroIsRead()
    ensures IsMagnitude("0", 0, 0)
  {
    NumeralIsRead(0, 8, LOWER, 0);
    assert Zeros(0) + Numeral(0, 8, LOWER) == "0";
    NoPrefix("0", 8);
  }

  /** Octal digits behind a zero. */
  lemma WrittenOctal(n: nat, zeros: nat)
    requires zeros > 0
    ensures IsMagnitude(Zeros(zeros) + Numeral(n, 8, LOWER), 0, n)
  {
    var s := Zeros(zeros) + Numeral(n, 8, LOWER);
    NumeralIsRead(n, 8, LOWER, zeros);
    NoPrefix(s, 8);
    ZerosStart(zeros);
    hide Value, Zeros, AllDigits, HasPrefix, Numeral;
  }

  lemma {:induction false} ZerosStart(n: nat)
    requires n > 0
    ensures Zeros(n) != "" && Zeros(n)[0] == '0'
  {
    if n > 1 {
      ZerosStart(n - 1);
    }
  }

  /** Hexadecimal digits behind their prefix. */
  lemma WrittenHex(n: nat, base: nat, digits: string, zeros: nat, prefix: string)
    requires (base == 0 || base == 16) && (digits == LOWER || digits == UPPER) && (prefix == "0x" || prefix == "0X")
    ensures IsMagnitude(prefix + (Zeros(zeros) + Numeral(n, 16, digits)), base, n)
  {
    var s := Zeros(zeros) + Numeral(n, 16, digits);
    NumeralIsRead(n, 16, digits, zeros);
    hide Value, Zeros, AllDigits, Numeral, IsMagnitude;
    PrefixedMagnitude(prefix, s, base, n);
  }

  lemma PrefixedMagnitude(prefix: string, s: string, base: nat, n: nat)
    requires (base == 0 || base == 16) && (prefix == "0x" || prefix == "0X")
    requires s != [] && AllDigits(s, 16) && n == Value(s, 16)
    ensures IsMagnitude(prefix + s, base, n)
  {
    hide Value, AllDigits, HasPrefix;
    PrefixFound(prefix, s);
    var t := prefix + s;
    assert BaseOf(t, base) == 16;
    assert BodyOf(t, base) == s;
  }

  lemma PrefixFound(prefix: string, s: string)
    requires (prefix == "0x" || prefix == "0X") && s != []
    ensures HasPrefix(prefix + s) && (prefix + s)[2..] == s
  {
    assert (prefix + s)[..2] == prefix;
  }

  /** What the two conversions give for such a number, with spaces and a sign before it. */
  lemma WrittenIsRead(spaces: string, sign: string, body: string, base: nat, m: nat)
    requires (base == 0 || base == 10 || base == 16) && AllSpaces(spaces) && (sign in ["", "+", "-"])
    requires IsMagnitude(body, base, m)
    ensures var v: int := if sign == "-" then 0 - m else m;
            StrToLL(spaces + sign + body, base)
            == if -0x8000_0000_0000_0000 <= v < 0x8000_0000_0000_0000 then Some(v) else None
    ensures StrToULL(spaces + sign + body, base)
         == if m >= 0x1_0000_0000_0000_0000 then None
            else Some(if sign == "-" && m > 0 then 0x1_0000_0000_0000_0000 - m else m)
  {
    hide IsMagnitude, Magnitude, AllSpaces, SkipSpace, Unsigned, Negative;
    PartsFound(spaces, sign, body, base, sign == "-", m);
    MagnitudeExact(body, base, m);
    if m < 0x1_0000_0000_0000_0000 {
      Wraps(m);
    }
  }

  lemma Wraps(m: nat)
    requires m < 0x1_0000_0000_0000_0000
    ensures m % 0x1_0000_0000_0000_0000 == m
    ensures (0 - m) % 0x1_0000_0000_0000_0000 == if m > 0 then 0x1_0000_0000_0000_0000 - m else 0
  {
  }

  // ----- numerals without zeros before them

  predicate PlainDecimal(s: string) {
    s != [] && (s[0] == '0' ==> |s| == 1) && forall i :: 0 <= i < |s| ==> '0' <= s[i] <= '9'
  }

  lemma TenTimes(q: nat, d: nat)
    requires d < 10
    ensures (q * 10 + d) / 10 == q && (q * 10 + d) % 10 == d
  {
  }

  /** Decimal digits that do not begin with a zero, and a zero alone, are the numeral of their value. */
  lemma {:induction false} DigitsAreNumeral(s: string)
    requires PlainDecimal(s)
    ensures AllDigits(s, 16) && s == Numeral(Value(s, 10), 10, LOWER) && (s != "0" ==> Value(s, 10) > 0)
  {
    hide DigitOf, InBase, Value, Numeral, AllDigits;
    var init, c := s[..|s| - 1], s[|s| - 1];
    var d: nat := c as int - '0' as int;
    DecimalDigit(c, d);
    assert s == init + [c];
    NoDigits(10);
    if init == [] {
      ValueMore(init, c, 10);
      SingleDigit(c, d);
      assert s == [c];
    } else {
      ShorterDecimal(s);
      DigitsAreNumeral(init);
      ValueMore(init, c, 10);
      LongNumeral(Value(init, 10), d);
    }
  }

  lemma ShorterDecimal(s: string)
    requires PlainDecimal(s) && |s| > 1
    ensures PlainDecimal(s[..|s| - 1]) && s[..|s| - 1] != "0"
  {
    assert s[..|s| - 1][0] == s[0];
  }

  lemma DecimalDigit(c: char, d: nat)
    requires '0' <= c <= '9' && d == c as int - '0' as int
    ensures InBase(c, 16) && DigitOf(c) == d && LOWER[d] == c
  {
    hide DigitOf;
    assert LOWER[d] == c;
    DigitOfIs(c, d, 10);
  }

  lemma SingleDigit(c: char, d: nat)
    requires '0' <= c <= '9' && d == c as int - '0' as int
    ensures Numeral(d, 10, LOWER) == [c]
  {
  }

  lemma LongNumeral(q: nat, d: nat)
    requires q > 0 && d < 10
    ensures Numeral(q * 10 + d, 10, LOWER) == Numeral(q, 10, LOWER) + [LOWER[d]]
  {
    TenTimes(q, d);
  }

  /** And the other way around. */
  lemma {:induction false} NumeralIsDigits(n: nat)
    ensures PlainDecimal(Numeral(n, 10, LOWER))
  {
    FirstDigit(n);
    if n >= 10 {
      NumeralIsDigits(n / 10);
    }
  }
}
