/**
 The lines of a configuration file: how values are escaped and printed
 (`sym_escape_string_value` of `symbol.c`, `kconfig_print_symbol` of
 `confdata.c`), and how a file is read (`conf_read_simple` and
 `conf_set_sym_val` of `confdata.c`).

 The prefix of the names, CONFIG_ in the C code, is a parameter.
 */
module ConfigLines {
  import opened Wrappers
  import opened Expressions
  import opened SymbolValues
  import opened Eras
  import opened SymbolCache
  import opened MinimalConfig
  import opened ReadingBack
  import T = Tristates

  // ----- escaping

  predicate Special(c: char) {
    c == '"' || c == '\\'
  }

  function Escaped(s: string): string {
    if s == [] then []
    else Escaped(s[..|s| - 1]) + (if Special(s[|s| - 1]) then ['\\', s[|s| - 1]] else [s[|s| - 1]])
  }

  function Quoted(s: string): string {
    "\"" + Escaped(s) + "\""
  }

  /** `strcspn` with the two special characters. */
  function Span(s: string, pos: nat): (r: nat)
    requires pos <= |s|
    ensures pos <= r <= |s| && (r < |s| ==> Special(s[r])) && forall i :: pos <= i < r ==> !Special(s[i])
    decreases |s| - pos
  {
    if pos == |s| || Special(s[pos]) then pos else Span(s, pos + 1)
  }

  lemma {:induction false} EscapedSpan(s: string, pos: nat, end: nat)
    requires pos <= end <= |s| && forall i :: pos <= i < end ==> !Special(s[i])
    ensures Escaped(s[..end]) == Escaped(s[..pos]) + s[pos..end]
  {
    if pos < end {
      EscapedSpan(s, pos, end - 1);
      assert s[..end][..end - 1] == s[..end - 1];
      assert s[pos..end] == s[pos..end - 1] + [s[end - 1]];
    }
  }

  lemma NothingEscaped(s: string)
    ensures Escaped(s[..0]) == ""
  {
  }

  lemma EscapedNext(s: string, p: nat)
    requires p < |s| && Special(s[p])
    ensures Escaped(s[..p + 1]) == Escaped(s[..p]) + "\\" + [s[p]]
  {
    assert s[..p + 1][..p] == s[..p];
  }

  /** `sym_escape_string_value`. */
  method EscapeStringValue(s: string) returns (res: string)
    ensures res == Quoted(s)
  {
    hide Escaped;
    res := "\"";
    var p := 0;
    NothingEscaped(s);
    while true
      invariant p <= |s| && res == "\"" + Escaped(s[..p])
      decreases |s| - p
    {
      var end := Span(s, p);
      EscapedSpan(s, p, end);
      res := res + s[p..end];
      p := end;
      if p == |s| {
        assert s[..p] == s;
        break;
      }
      EscapedNext(s, p);
      res := res + "\\";
      res := res + [s[p]];
      p := p + 1;
    }
    res := res + "\"";
  }

  // ----- taking the quotes off again

  /** The string up to its first quote that is not escaped, with the backslashes removed; None without such a quote. */
  function Unquoted(s: string): Option<string> {
    if s == [] then None
    else if s[0] == '"' then Some([])
    else if s[0] == '\\' then if |s| == 1 then None else Prefixed([s[1]], Unquoted(s[2..]))
    else Prefixed([s[0]], Unquoted(s[1..]))
  }

  function Prefixed(s: string, r: Option<string>): Option<string> {
    if r.Some? then Some(s + r.value) else None
  }

  lemma PrefixedFacts(s: string, t: string, r: Option<string>)
    ensures Prefixed([], r) == r && Prefixed(s, Prefixed(t, r)) == Prefixed(s + t, r)
  {
    if r.Some? {
      assert [] + r.value == r.value && s + (t + r.value) == (s + t) + r.value;
    }
  }

  lemma {:induction false} UnquotedEscaped(s: string, rest: string)
    ensures Unquoted(Escaped(s) + rest) == Prefixed(s, Unquoted(rest))
  {
    if s == [] {
      assert [] + rest == rest;
      PrefixedFacts([], [], Unquoted(rest));
    } else {
      var init, c := s[..|s| - 1], s[|s| - 1];
      var last := if Special(c) then ['\\', c] else [c];
      assert Escaped(s) + rest == Escaped(init) + (last + rest);
      UnquotedEscaped(init, last + rest);
      OneUnquoted(c, rest);
      assert s == init + [c];
      PrefixedFacts(init, [c], Unquoted(rest));
    }
  }

  lemma OneUnquoted(c: char, rest: string)
    ensures Unquoted((if Special(c) then ['\\', c] else [c]) + rest) == Prefixed([c], Unquoted(rest))
  {
    if Special(c) {
      assert (['\\', c] + rest)[2..] == rest;
    } else {
      assert ([c] + rest)[1..] == rest;
    }
  }

  /** Every string comes back. */
  lemma EscapeRoundTrip(s: string)
    ensures Quoted(s)[0] == '"' && Unquoted(Quoted(s)[1..]) == Some(s)
  {
    assert Quoted(s)[1..] == Escaped(s) + "\"";
    UnquotedEscaped(s, "\"");
    assert s + [] == s;
  }

  /** The buffer holds a NUL-terminated string from a position on. */
  ghost predicate Holds(a: array<char>, pos: nat, s: string)
    reads a
  {
    && pos + |s| < a.Length && a[pos..pos + |s|] == s && a[pos + |s|] == '\0'
    && forall i :: 0 <= i < |s| ==> s[i] != '\0'
  }

  /** `memmove(p, p + 1, strlen(p))`: everything behind p moves down by one. */
  method MoveDown(a: array<char>, p: nat, ghost s: string)
    requires Holds(a, p, s) && s != []
    modifies a
    ensures Holds(a, p, s[1..]) && a[..p] == old(a[..p])
    ensures a[p + |s|..] == old(a[p + |s|..])
  {
    forall k | p <= k < p + |s| ensures a[k] == s[k - p] {
      assert a[p..p + |s|][k - p] == a[k];
    }
    var i := p;
    while a[i] != '\0'
      invariant p <= i <= p + |s|
      invariant forall k :: 0 <= k < p || i <= k < a.Length ==> a[k] == old(a[k])
      invariant forall k :: p <= k < i ==> a[k] == (if k - p + 1 < |s| then s[k - p + 1] else '\0')
      decreases p + |s| - i
    {
      a[i] := a[i + 1];
      i := i + 1;
    }
  }

  /** The loop of `conf_set_sym_val` over the buffer, from behind the first quote. */
  method UnquoteInPlace(a: array<char>, p: nat, ghost s: string) returns (ok: bool)
    requires Holds(a, p, s)
    modifies a
    ensures ok <==> Unquoted(s).Some?
    ensures ok ==> Holds(a, p, Unquoted(s).value)
    ensures a[..p] == old(a[..p])
  {
    hide Unquoted, Prefixed;
    var p2 := p;
    ghost var base, rest, text := a[..p], s, [];
    PrefixedFacts([], [], Unquoted(s));
    while true
      invariant p <= p2 && Holds(a, p2, rest) && a[..p] == base
      invariant Unquoted(s) == Prefixed(text, Unquoted(rest))
      invariant rest != [] ==> Kept(a, p2, base, text)
      decreases |rest|
    {
      HoldsFirst(a, p2, rest);
      NothingLeft(text, rest);
      if a[p2] == '\0' {
        return false;
      }
      if a[p2] == '"' {
        a[p2] := '\0';
        KeptMeans(a, p2, base, text);
        return true;
      }
      ghost var before := rest;
      if a[p2] == '\\' {
        MoveDown(a, p2, rest);
        rest := rest[1..];
      }
      if rest == [] {
        // A backslash at the end: the old terminator is still behind the new one.
        assert a[p2 + 1] == '\0';
        LoneBackslash(text, before);
      } else {
        HoldsFirst(a, p2, rest);
        UnquotedStep(before, rest);
        PrefixedFacts(text, [rest[0]], Unquoted(rest[1..]));
        KeptMore(a, p2, base, text);
        text := text + [rest[0]];
        rest := rest[1..];
      }
      p2 := p2 + 1;
    }
  }

  /** What has been read comes before the position, behind what was in front of it. */
  ghost predicate Kept(a: array<char>, p2: nat, base: string, text: string)
    reads a
  {
    p2 <= a.Length && a[..p2] == base + text && forall i :: 0 <= i < |text| ==> text[i] != '\0'
  }

  lemma KeptMeans(a: array<char>, p2: nat, base: string, text: string)
    requires Kept(a, p2, base, text) && p2 < a.Length && a[p2] == '\0'
    ensures Holds(a, |base|, text) && a[..|base|] == base
  {
    assert a[|base|..p2] == a[..p2][|base|..];
    assert a[..|base|] == a[..p2][..|base|];
  }

  lemma KeptMore(a: array<char>, p2: nat, base: string, text: string)
    requires Kept(a, p2, base, text) && p2 < a.Length && a[p2] != '\0'
    ensures Kept(a, p2 + 1, base, text + [a[p2]]) && a[..|base|] == base
  {
    assert a[..p2 + 1] == a[..p2] + [a[p2]];
    assert a[..|base|] == a[..p2][..|base|];
  }

  lemma HoldsFirst(a: array<char>, pos: nat, s: string)
    requires Holds(a, pos, s)
    ensures a[pos] == '\0' <==> s == []
    ensures s != [] ==> a[pos] == s[0] && Holds(a, pos + 1, s[1..])
  {
    if s != [] {
      assert a[pos..pos + |s|][0] == s[0];
      assert a[pos + 1..pos + |s|] == s[1..];
    }
  }

  lemma NothingLeft(text: string, rest: string)
    ensures rest == [] ==> Prefixed(text, Unquoted(rest)) == None
    ensures rest != [] && rest[0] == '"' ==> Prefixed(text, Unquoted(rest)) == Some(text)
  {
    assert text + [] == text;
  }

  lemma LoneBackslash(text: string, rest: string)
    requires rest == ['\\']
    ensures Prefixed(text, Unquoted(rest)) == None && Prefixed(text, Unquoted([])) == None
  {
  }

  /** One character, with the backslash before it. */
  lemma UnquotedStep(before: string, rest: string)
    requires before != [] && before[0] != '"' && rest == (if before[0] == '\\' then before[1..] else before)
            && rest != []
    ensures Unquoted(before) == Prefixed([rest[0]], Unquoted(rest[1..]))
  {
    if before[0] == '\\' {
      assert before[1..][1..] == before[2..];
    }
  }

  // ----- printing

  /** The symbol can be written, and the text is one of its values. */
  predicate LineOk(l: Line) {
    && l.sym.Config? && (l.sym.Logical() || Textual(l.sym))
    && (l.sym.Logical() ==> l.text == "n" || l.text == "m" || l.text == "y")
    && '\n' !in l.text && (l.sym.Type() != Str ==> '\r' !in l.text)
  }

  predicate NameOk(prefix: string, name: string) {
    && prefix + name != [] && (prefix + name)[0] != '#'
    && '\n' !in prefix && '\n' !in name && ' ' !in name && '=' !in name
  }

  const IS_NOT_SET := "is not set"

  /** `conf_write_symbol` with `kconfig_print_symbol`. */
  function Print(prefix: string, l: Line): string
    requires LineOk(l)
  {
    if l.sym.Logical() && l.text[0] == 'n' then "# " + prefix + l.sym.name + " " + IS_NOT_SET + "\n"
    else prefix + l.sym.name + "=" + (if l.sym.Type() == Str then Quoted(l.text) else l.text) + "\n"
  }

  // ----- reading a line

  datatype Entry = NoEntry | Unset(name: string) | Assign(name: string, text: string)

  /** `strchr` from a position on; the length of the text if there is none. */
  function Find(s: string, pos: nat, c: char): (r: nat)
    requires pos <= |s|
    ensures pos <= r <= |s| && (r < |s| ==> s[r] == c) && forall i :: pos <= i < r ==> s[i] != c
    decreases |s| - pos
  {
    if pos == |s| || s[pos] == c then pos else Find(s, pos + 1, c)
  }

  predicate StartsAt(s: string, pos: nat, piece: string) {
    pos + |piece| <= |s| && s[pos..pos + |piece|] == piece
  }

  /** The text up to the newline, without a carriage return before it. */
  function Chomp(s: string): string {
    var line := s[..Find(s, 0, '\n')];
    if |line| < |s| && line != [] && line[|line| - 1] == '\r' then line[..|line| - 1] else line
  }

  /** One line of `conf_read_simple`. */
  function Parse(prefix: string, line: string): Entry {
    if line == [] then NoEntry
    else if line[0] == '#' then
      var start := 2 + |prefix|;
      if !StartsAt(line, 2, prefix) then NoEntry
      else
        var space := Find(line, start, ' ');
        if space == |line| || !StartsAt(line, space + 1, IS_NOT_SET) then NoEntry else Unset(line[start..space])
    else if StartsAt(line, 0, prefix) then
      var equals := Find(line, |prefix|, '=');
      if equals == |line| then NoEntry else Assign(line[|prefix|..equals], Chomp(line[equals + 1..]))
    else NoEntry
  }

  /** `conf_set_sym_val`: the value that is stored, if any. */
  function SetSymVal(s: Symbol, p: string): Option<Value> {
    match s.Type()
    case Tri =>
      if p != [] && p[0] == 'm' then Some(Value(T.MOD, "")) else SetBoolVal(p)
    case Boolean => SetBoolVal(p)
    case Str => SetStringVal(p)
    case Int => if StringValid(s, p) then Some(Value(T.NO, p)) else None
    case Hex => if StringValid(s, p) then Some(Value(T.NO, p)) else None
    case _ => None
  }

  function SetStringVal(p: string): Option<Value> {
    if p == [] || p[0] != '"' || Unquoted(p[1..]) == None then None else Some(Value(T.NO, Unquoted(p[1..]).value))
  }

  function SetBoolVal(p: string): Option<Value> {
    if p != [] && p[0] == 'y' then Some(Value(T.YES, ""))
    else if p != [] && p[0] == 'n' then Some(Value(T.NO, ""))
    else None
  }

  /** What an entry does to the user's values. */
  function Apply(find: map<string, Symbol>, e: Entry, user: UserValues): UserValues {
    match e
    case NoEntry => user
    case Unset(name) =>
      if name in find && find[name].Logical() then user[find[name] := Value(T.NO, "")] else user
    case Assign(name, text) =>
      if name in find && SetSymVal(find[name], text).Some? then
        user[find[name] := SetSymVal(find[name], text).value]
      else user
  }

  lemma FindIs(s: string, pos: nat, c: char, r: nat)
    requires pos <= r < |s| && s[r] == c && forall i :: pos <= i < r ==> s[i] != c
    ensures Find(s, pos, c) == r
  {
  }

  /** The line says that the symbol is not set; what follows does not matter, nor what the second character is. */
  ghost predicate SaysUnset(prefix: string, line: string, name: string) {
    ' ' !in name && exists c: char, rest: string :: line == "#" + [c] + prefix + name + " " + IS_NOT_SET + rest
  }

  lemma UnsetIsParsed(prefix: string, name: string, c: char, rest: string)
    requires ' ' !in name
    ensures Parse(prefix, "#" + [c] + prefix + name + " " + IS_NOT_SET + rest) == Unset(name)
  {
    hide StartsAt, Find;
    var head, tail := "#" + [c] + prefix + name, " " + IS_NOT_SET + rest;
    var line, space := head + tail, 2 + |prefix| + |name|;
    assert "#" + [c] + prefix + name + " " + IS_NOT_SET + rest == line;
    Pieces("#" + [c], prefix, name, tail);
    NoSpaceBefore("#" + [c] + prefix, name, tail);
    Pieces(head + " ", IS_NOT_SET, rest, "");
    assert head + " " + IS_NOT_SET + rest + "" == line;
  }

  lemma Pieces(before: string, piece: string, next: string, after: string)
    ensures StartsAt(before + piece + next + after, |before|, piece)
    ensures var from, to := |before| + |piece|, |before| + |piece| + |next|;
            (before + piece + next + after)[from..to] == next
  {
    assert (before + piece + next + after)[|before|..|before| + |piece|] == piece;
  }

  lemma NoSpaceBefore(before: string, name: string, after: string)
    requires ' ' !in name && after != [] && after[0] == ' '
    ensures Find(before + name + after, |before|, ' ') == |before| + |name|
  {
    var line := before + name + after;
    assert forall i :: |before| <= i < |before| + |name| ==> line[i] == name[i - |before|];
    FindIs(line, |before|, ' ', |before| + |name|);
  }

  lemma UnsetParts(prefix: string, line: string, name: string)
    requires Parse(prefix, line) == Unset(name)
    ensures SaysUnset(prefix, line, name)
  {
    hide Find, SaysUnset;
    var start := 2 + |prefix|;
    var space := Find(line, start, ' ');
    assert line[start..space] == name && ' ' !in name;
    UnsetLine(prefix, line, name, space);
  }

  lemma UnsetLine(prefix: string, line: string, name: string, space: nat)
    requires StartsAt(line, 2, prefix) && StartsAt(line, 2 + |prefix|, name) && space == 2 + |prefix| + |name|
    requires line[0] == '#' && ' ' !in name && space < |line| && line[space] == ' '
    requires StartsAt(line, space + 1, IS_NOT_SET)
    ensures SaysUnset(prefix, line, name)
  {
    var rest := line[space + 1 + |IS_NOT_SET|..];
    var text := "#" + [line[1]] + prefix + name;
    assert line[..space] == text;
    assert line[space..] == " " + IS_NOT_SET + rest;
    assert line == text + " " + IS_NOT_SET + rest;
  }

  /** Exactly these lines take a value back. */
  lemma ParseUnsetExact(prefix: string, line: string, name: string)
    ensures Parse(prefix, line) == Unset(name) <==> SaysUnset(prefix, line, name)
  {
    hide Parse;
    if Parse(prefix, line) == Unset(name) {
      UnsetParts(prefix, line, name);
    }
    if SaysUnset(prefix, line, name) {
      var c: char, rest: string :| line == "#" + [c] + prefix + name + " " + IS_NOT_SET + rest;
      UnsetIsParsed(prefix, name, c, rest);
    }
  }

  /** The line of an unset symbol. */
  lemma ParseUnset(prefix: string, name: string)
    requires NameOk(prefix, name)
    ensures Parse(prefix, "# " + prefix + name + " " + IS_NOT_SET + "\n") == Unset(name)
  {
    hide Parse;
    UnsetIsParsed(prefix, name, ' ', "\n");
    assert "#" + [' '] == "# ";
  }

  /** t is the first line of s, without the end of the line, which may have a carriage return. */
  ghost predicate IsLine(s: string, t: string) {
    '\n' !in t
    && (s == t || (exists rest: string :: s == t + "\r\n" + rest)
        || ((t == [] || t[|t| - 1] != '\r') && exists rest: string :: s == t + "\n" + rest))
  }

  lemma ChompExact(s: string, t: string)
    ensures Chomp(s) == t <==> IsLine(s, t)
  {
    hide Chomp;
    LineFound(s);
    if IsLine(s, t) {
      if s == t {
        WholeLine(s);
      } else if exists rest: string :: s == t + "\r\n" + rest {
        var rest: string :| s == t + "\r\n" + rest;
        LineReturned(t, rest);
      } else {
        var rest: string :| s == t + "\n" + rest;
        LineEnded(t, rest);
      }
    }
  }

  lemma WholeLine(s: string)
    requires '\n' !in s
    ensures Chomp(s) == s
  {
    assert Find(s, 0, '\n') == |s|;
  }

  lemma LineReturned(t: string, rest: string)
    requires '\n' !in t
    ensures Chomp(t + "\r\n" + rest) == t
  {
    var s := t + "\r\n" + rest;
    FindIs(s, 0, '\n', |t| + 1);
    assert s[..|t| + 1] == t + "\r";
  }

  lemma LineEnded(t: string, rest: string)
    requires '\n' !in t && (t == [] || t[|t| - 1] != '\r')
    ensures Chomp(t + "\n" + rest) == t
  {
    var s := t + "\n" + rest;
    FindIs(s, 0, '\n', |t|);
    assert s[..|t|] == t;
  }

  lemma LineFound(s: string)
    ensures IsLine(s, Chomp(s))
  {
    var end := Find(s, 0, '\n');
    var t := Chomp(s);
    assert forall i :: 0 <= i < |t| ==> t[i] == s[i];
    if end < |s| {
      if t == s[..end] {
        assert s == t + "\n" + s[end + 1..];
      } else {
        assert s == t + "\r\n" + s[end + 1..];
      }
    }
  }

  /** The line gives the symbol a text. */
  ghost predicate SaysValue(prefix: string, line: string, name: string, text: string) {
    && line != [] && line[0] != '#' && '=' !in name
    && exists rest: string :: line == prefix + name + "=" + rest && IsLine(rest, text)
  }

  lemma ValueParts(prefix: string, line: string, name: string, text: string)
    requires Parse(prefix, line) == Assign(name, text)
    ensures SaysValue(prefix, line, name, text)
  {
    hide Find, Chomp, IsLine;
    var equals := Find(line, |prefix|, '=');
    var rest := line[equals + 1..];
    ChompExact(rest, text);
    assert line == line[..|prefix|] + line[|prefix|..equals] + "=" + rest;
  }

  lemma ValueIsParsed(prefix: string, name: string, rest: string)
    requires '=' !in name && (prefix + name + "=" + rest)[0] != '#'
    ensures Parse(prefix, prefix + name + "=" + rest) == Assign(name, Chomp(rest))
  {
    hide Parse, Chomp;
    var line, equals := prefix + name + "=" + rest, |prefix| + |name|;
    assert line[..|prefix|] == prefix && line[|prefix|..equals] == name;
    assert forall i :: |prefix| <= i < equals ==> line[i] == name[i - |prefix|];
    assert line[equals + 1..] == rest;
    ParseParts(prefix, line, equals);
  }

  /** Exactly these lines give a value. */
  lemma ParseAssignExact(prefix: string, line: string, name: string, text: string)
    ensures Parse(prefix, line) == Assign(name, text) <==> SaysValue(prefix, line, name, text)
  {
    hide Parse, Chomp, IsLine;
    if Parse(prefix, line) == Assign(name, text) {
      ValueParts(prefix, line, name, text);
    }
    if SaysValue(prefix, line, name, text) {
      var rest: string :| line == prefix + name + "=" + rest && IsLine(rest, text);
      ValueIsParsed(prefix, name, rest);
      ChompExact(rest, text);
    }
  }

  /** The line of an assignment. */
  lemma ParseAssign(prefix: string, name: string, text: string)
    requires NameOk(prefix, name) && '\n' !in text && (text != [] ==> text[|text| - 1] != '\r')
    ensures Parse(prefix, prefix + name + "=" + text + "\n") == Assign(name, text)
  {
    hide Parse, Chomp;
    LineEnded(text, "");
    assert text + "\n" + "" == text + "\n";
    assert prefix + name + "=" + text + "\n" == prefix + name + "=" + (text + "\n");
    assert (prefix + name + "=" + (text + "\n"))[0] == (prefix + name)[0];
    ValueIsParsed(prefix, name, text + "\n");
  }

  lemma ParseParts(prefix: string, line: string, equals: nat)
    requires |prefix| <= equals < |line| && line[0] != '#' && StartsAt(line, 0, prefix)
    requires line[equals] == '=' && forall i :: |prefix| <= i < equals ==> line[i] != '='
    ensures Parse(prefix, line) == Assign(line[|prefix|..equals], Chomp(line[equals + 1..]))
  {
    FindIs(line, |prefix|, '=', equals);
    hide Chomp, Find;
  }

  lemma {:induction false} EscapedHasNoNewline(s: string)
    requires '\n' !in s
    ensures '\n' !in Escaped(s)
  {
    if s != [] {
      assert '\n' !in s[..|s| - 1];
      EscapedHasNoNewline(s[..|s| - 1]);
      assert s[|s| - 1] in s;
    }
  }

  /** Printing a value and reading the line has the effect that `ReadBack` describes. */
  lemma LineRoundTrip(prefix: string, l: Line, find: map<string, Symbol>, user: UserValues)
    requires LineOk(l) && NameOk(prefix, l.sym.name) && l.sym.name in find && find[l.sym.name] == l.sym
    ensures Apply(find, Parse(prefix, Print(prefix, l)), user)
         == match ReadBack(l.sym, l.text) case Some(v) => user[l.sym := v] case None => user
  {
    hide Parse, NameOk;
    if l.sym.Logical() && l.text[0] == 'n' {
      ParseUnset(prefix, l.sym.name);
    } else {
      var text := if l.sym.Type() == Str then Quoted(l.text) else l.text;
      TextRoundTrip(l);
      hide Quoted, SetSymVal, ReadBack;
      ParseAssign(prefix, l.sym.name, text);
    }
  }

  lemma TextRoundTrip(l: Line)
    requires LineOk(l)
    ensures var text := if l.sym.Type() == Str then Quoted(l.text) else l.text;
            && SetSymVal(l.sym, text) == ReadBack(l.sym, l.text)
            && '\n' !in text && (text != [] ==> text[|text| - 1] != '\r')
  {
    if l.sym.Type() == Str {
      EscapeRoundTrip(l.text);
      EscapedHasNoNewline(l.text);
      hide Escaped, Unquoted;
    } else {
      assert l.text != [] ==> l.text[|l.text| - 1] in l.text;
    }
  }

  // ----- the whole file

  function PrintAll(prefix: string, lines: seq<Line>): string
    requires forall l :: l in lines ==> LineOk(l)
  {
    if lines == [] then [] else PrintAll(prefix, lines[..|lines| - 1]) + Print(prefix, lines[|lines| - 1])
  }

  /** `conf_read_simple` from the beginning of a line on; `compat_getline` keeps the newline. */
  function ReadFrom(prefix: string, find: map<string, Symbol>, file: string, user: UserValues): UserValues
    decreases |file|
  {
    if file == [] then user
    else
      var end := Find(file, 0, '\n');
      var next := if end == |file| then end else end + 1;
      ReadFrom(prefix, find, file[next..], Apply(find, Parse(prefix, file[..next]), user))
  }

  lemma SplitAppend(s: string, t: string, k: nat)
    requires k <= |s|
    ensures (s + t)[..k] == s[..k] && (s + t)[k..] == s[k..] + t
  {
  }

  /** A text of complete lines is read before what follows it. */
  lemma {:induction false} ReadAppend(prefix: string, find: map<string, Symbol>, file: string, rest: string,
      user: UserValues)
    requires file != [] ==> file[|file| - 1] == '\n'
    ensures ReadFrom(prefix, find, file + rest, user)
            == ReadFrom(prefix, find, rest, ReadFrom(prefix, find, file, user))
    decreases |file|
  {
    hide Parse, Apply;
    if file == [] {
      assert file + rest == rest;
    } else {
      var end := Find(file, 0, '\n');
      assert end < |file|;
      FindIs(file + rest, 0, '\n', end);
      SplitAppend(file, rest, end + 1);
      ReadAppend(prefix, find, file[end + 1..], rest, Apply(find, Parse(prefix, file[..end + 1]), user));
    }
  }

  lemma PrintIsOneLine(prefix: string, l: Line)
    requires LineOk(l) && NameOk(prefix, l.sym.name)
    ensures Print(prefix, l) != [] && Find(Print(prefix, l), 0, '\n') == |Print(prefix, l)| - 1
  {
    var p := Print(prefix, l);
    if l.sym.Type() == Str {
      EscapedHasNoNewline(l.text);
    }
    hide Escaped;
    assert '\n' !in p[..|p| - 1];
    FindIs(p, 0, '\n', |p| - 1);
  }

  /** The values that reading a printed file gives are those of its lines, in order. */
  lemma {:induction false} FileRoundTrip(prefix: string, find: map<string, Symbol>, lines: seq<Line>)
    requires forall l :: l in lines ==>
               LineOk(l) && NameOk(prefix, l.sym.name) && l.sym.name in find && find[l.sym.name] == l.sym
    ensures ReadFrom(prefix, find, PrintAll(prefix, lines), map[]) == ReadLines(lines)
    ensures lines != [] ==>
              PrintAll(prefix, lines) != [] && PrintAll(prefix, lines)[|PrintAll(prefix, lines)| - 1] == '\n'
  {
    hide Parse, Apply, ReadBack, Print, LineOk, NameOk;
    if lines != [] {
      var init, last := lines[..|lines| - 1], lines[|lines| - 1];
      FileRoundTrip(prefix, find, init);
      PrintIsOneLine(prefix, last);
      var user := ReadLines(init);
      ReadAppend(prefix, find, PrintAll(prefix, init), Print(prefix, last), map[]);
      LineRoundTrip(prefix, last, find, user);
      var p := Print(prefix, last);
      assert p[..|p|] == p && p[|p|..] == [];
      assert ReadFrom(prefix, find, p, user) == Apply(find, Parse(prefix, p), user);
    }
  }

  // ----- a minimal configuration, from the values to the text and back

  /** The symbol's name and value can be written to a file, and its name can be looked up again. */
  predicate Writable(prefix: string, find: map<string, Symbol>, s: Symbol, text: string) {
    && s.Config? && NameOk(prefix, s.name) && s.name in find && find[s.name] == s
    && '\n' !in text && (s.Type() != Str ==> '\r' !in text)
  }

  /** The lines of the printed symbols can be read again, and give the minimal user values. */
  lemma MinimalLines(c: Setup, a: Assignment, ss: set<Symbol>, lines: seq<Line>, prefix: string,
      find: map<string, Symbol>)
    requires LinesFor(lines, c, a, ss) && forall s :: s in ss ==> Writable(prefix, find, s, StringValue(s, a(s)))
    ensures forall l :: l in lines ==> LineOk(l)
    ensures ReadFrom(prefix, find, PrintAll(prefix, lines), map[]) == MinimalUser(c, a, ss)
  {
    hide Printed, NameOk, ReadFrom, Parse, Apply, ReadLines, MinimalUser;
    forall l | l in lines
      ensures LineOk(l) && NameOk(prefix, l.sym.name) && l.sym.name in find && find[l.sym.name] == l.sym
    {
      LineIsOk(c, a, l);
      assert l.sym in ss;
    }
    FileRoundTrip(prefix, find, lines);
  }

  lemma LineIsOk(c: Setup, a: Assignment, l: Line)
    requires Printed(c, l.sym, a) && l.text == StringValue(l.sym, a(l.sym))
    ensures l.sym.Logical() || Textual(l.sym)
    ensures l.sym.Logical() ==> l.text == "n" || l.text == "m" || l.text == "y"
  {
  }

  /** What the symbols are worth in a program that has just been started and has read the file. */
  ghost function FileValues(table: Table, rank: Ranking, modulesSym: Option<Symbol>, prefix: string,
      find: map<string, Symbol>, text: string): Assignment {
    ReadValues(table, ReadFrom(prefix, find, text, map[]), rank, modulesSym)
  }

  /**
   Reading the text of a minimal configuration at the start of the program
   gives every value back exactly when no symbol is pinned and, with modules,
   no tristate is `m` that `modules_sym` is calculated from.
   */
  lemma MinimalFileExact(c: Setup, a: Assignment, v: Tristate, rank: Ranking, modulesSym: Option<Symbol>,
      ss: set<Symbol>, lines: seq<Line>, prefix: string, find: map<string, Symbol>)
    requires Saved(c, a, v, rank, modulesSym) && Complete(c, ss) && LinesFor(lines, c, a, ss)
    requires forall s :: s in ss ==> Writable(prefix, find, s, StringValue(s, a(s)))
    ensures forall l :: l in lines ==> LineOk(l)
    ensures (forall s :: FileValues(c.table, rank, modulesSym, prefix, find, PrintAll(prefix, lines))(s) == a(s))
            <==> (&& (forall s :: !Pinned(c, s, a))
                  && (v != T.NO ==> NoModOnTheWay(Reread(c, a, ss), a, rank, modulesSym.value)))
  {
    hide Complete, LinesFor, Writable, ReadFrom, ReadValues, Pinned, MinimalUser, NoModOnTheWay, LineOk;
    MinimalLines(c, a, ss, lines, prefix, find);
    ReadFromStart(c, a, v, rank, modulesSym, ss);
  }

  /** Two names for the values that are read. */
  lemma ReadFromStart(c: Setup, a: Assignment, v: Tristate, rank: Ranking, modulesSym: Option<Symbol>, ss: set<Symbol>)
    requires Saved(c, a, v, rank, modulesSym) && Complete(c, ss)
    ensures (forall s :: ReadValues(c.table, MinimalUser(c, a, ss), rank, modulesSym)(s) == a(s))
            <==> (&& (forall s :: !Pinned(c, s, a))
                  && (v != T.NO ==> NoModOnTheWay(Reread(c, a, ss), a, rank, modulesSym.value)))
  {
    hide Saved, Complete, ReadValues, Pinned, MinimalUser, NoModOnTheWay, Reread;
    MinimalConfigExact(c, a, v, rank, modulesSym, ss);
  }

  /** `conf_write_defconfig` to the end: from the symbols to the text of the file. */
  method WriteFile(syms: Symbols, menus: seq<Symbol>, prefix: string, ghost find: map<string, Symbol>)
    returns (text: string)
    requires syms.Started() && Settled(syms)
    requires Complete(syms.PlainSetup(), set s | s in menus) && forall s :: s in menus ==> Calculated(s)
    requires var a := Solution(syms.PlainSetup(), syms.rank);
             forall s :: s in menus ==> Writable(prefix, find, s, StringValue(s, a(s)))
    modifies syms
    ensures syms.Valid() && syms.PlainSetup() == old(syms.PlainSetup()) && syms.modulesVal == old(syms.modulesVal)
    ensures var c := syms.PlainSetup();
            var a := Solution(c, syms.rank);
            (forall s :: FileValues(c.table, syms.rank, syms.modulesSym, prefix, find, text)(s) == a(s))
            <==> (&& (forall s :: !Pinned(c, s, a))
                  && (syms.modulesVal != T.NO ==>
                        NoModOnTheWay(Reread(c, a, set s | s in menus), a, syms.rank, syms.modulesSym.value)))
  {
    hide Symbols.Valid, Symbols.Started, Complete, Writable, LinesFor, Pinned, NoModOnTheWay, FileValues, Solution,
      Saved, Settled;
    ghost var c, v, ss := syms.PlainSetup(), syms.modulesVal, set s | s in menus;
    SettledIsSaved(syms);
    var lines := WriteDefconfig(syms, menus);
    OneModulesVal(syms, v);
    MinimalFileExact(c, Solution(c, syms.rank), v, syms.rank, syms.modulesSym, ss, lines, prefix, find);
    text := PrintAll(prefix, lines);
  }

  lemma OneModulesVal(syms: Symbols, v: Tristate)
    requires syms.PlainSetup().modules == Always(v)
    ensures syms.modulesVal == v
  {
    assert Always(syms.modulesVal)(ConstNo) == Always(v)(ConstNo);
  }

  lemma SettledIsSaved(syms: Symbols)
    requires syms.Started() && Settled(syms)
    ensures var c := syms.PlainSetup();
            Saved(c, Solution(c, syms.rank), syms.modulesVal, syms.rank, syms.modulesSym)
  {
    hide Solution, Acyclic, Solves;
    SolutionSolves(syms.PlainSetup(), syms.rank);
  }

  /**
   `conf_read` at the start of the program: the user's values, `modules_sym`,
   and then every symbol asked for, in any order.
   */
  method ReadFile(table: Table, modulesSym: Option<Symbol>, ghost rank: Ranking, prefix: string,
      find: map<string, Symbol>, text: string, all: seq<Symbol>) returns (syms: Symbols)
    requires Acyclic(table, rank) && (modulesSym.Some? ==> modulesSym.value.Logical())
    ensures fresh(syms) && syms.Consistent() && syms.table == table && syms.rank == rank
    ensures forall s :: s in all ==>
              syms.State(s).valid
              && syms.State(s).curr == FileValues(table, rank, modulesSym, prefix, find, text)(s)
  {
    hide Symbols.Consistent, Symbols.Started, Solution, ReadFrom, After, Acyclic;
    syms := new Symbols(table, modulesSym, rank);
    assert syms.PlainSetup() == Setup(table, map[], Always(T.NO));
    syms.ReadUser(ReadFrom(prefix, find, text, map[]));
    syms.CalcSymbols(all);
  }
}
