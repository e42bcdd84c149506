/**
 The C library conversions `expr_parse_string` relies on: `strtoll` and
 `strtoull` accepted only when they consume the whole string without
 overflow, and `strcmp`.
 */
module Numbers {
  import opened Wrappers

  predicate IsSpace(c: char) {
    c == ' ' || ('\t' <= c <= '\r')
  }

  function SkipSpace(s: string): string {
    if s != [] && IsSpace(s[0]) then SkipSpace(s[1..]) else s
  }

  /** The value of a digit or letter in the largest base, -1 for anything else. */
  function DigitValue(c: char): int {
    if '0' <= c <= '9' then c as int - '0' as int
    else if 'a' <= c <= 'z' then c as int - 'a' as int + 10
    else if 'A' <= c <= 'Z' then c as int - 'A' as int + 10
    else -1
  }

  /** The number written by the digits of s after acc, None unless all are digits of the base. */
  function Digits(s: string, base: int, acc: nat): Option<nat>
    requires base >= 2
  {
    if s == [] then Some(acc)
    else if 0 <= DigitValue(s[0]) < base then Digits(s[1..], base, acc * base + DigitValue(s[0]))
    else None
  }

  /** An unsigned number in the given base; base 0 takes the base from the prefix. */
  function Magnitude(s: string, base: int): Option<nat>
    requires base == 0 || base == 10 || base == 16
  {
    if s == [] then None
    else if base != 10 && |s| >= 3 && s[0] == '0' && (s[1] == 'x' || s[1] == 'X') then
      Digits(s[2..], 16, 0)
    else Digits(s, if base != 0 then base else if s[0] == '0' then 8 else 10, 0)
  }

  function Negative(s: string): bool {
    s != [] && s[0] == '-'
  }

  function Unsigned(s: string): string {
    if s != [] && (s[0] == '-' || s[0] == '+') then s[1..] else s
  }

  /** `strtoll`: a signed 64-bit number. */
  function StrToLL(str: string, base: int): Option<int>
    requires base == 0 || base == 10 || base == 16
  {
    var s := SkipSpace(str);
    match Magnitude(Unsigned(s), base)
    case None => None
    case Some(m) =>
      var v: int := if Negative(s) then 0 - m else m;
      if -0x8000_0000_0000_0000 <= v < 0x8000_0000_0000_0000 then Some(v) else None
  }

  /** `strtoull`: an unsigned 64-bit number; a minus sign wraps around. */
  function StrToULL(str: string, base: int): Option<int>
    requires base == 0 || base == 10 || base == 16
  {
    var s := SkipSpace(str);
    match Magnitude(Unsigned(s), base)
    case None => None
    case Some(m) =>
      if m >= 0x1_0000_0000_0000_0000 then None
      else Some((if Negative(s) then 0 - m else m) % 0x1_0000_0000_0000_0000)
  }

  function Sign(d: int): int {
    if d < 0 then -1 else if d > 0 then 1 else 0
  }

  function StrCmp(a: string, b: string): int {
    if a == [] then (if b == [] then 0 else -1)
    else if b == [] then 1
    else if a[0] != b[0] then Sign(a[0] as int - b[0] as int)
    else StrCmp(a[1..], b[1..])
  }

  lemma {:induction false} StrCmpEqual(a: string, b: string)
    ensures StrCmp(a, b) == 0 <==> a == b
  {
    if a != [] && b != [] && a[0] == b[0] {
      StrCmpEqual(a[1..], b[1..]);
      assert a == [a[0]] + a[1..] && b == [b[0]] + b[1..];
    }
  }
}
