/**
 Kernel command lines (`doParse` and `parseToMap` of `cmdline.go`,
 `removeFilter` of `filters.go`).  A command line is a sequence of characters.
 */
module CommandLine {
  // ----- the tokenizer

  const NONE: char := '\0'

  /** `unicode.IsSpace`. */
  predicate IsSpace(c: char) {
    || '\t' <= c <= '\r' || c == ' ' || c == '\U{85}' || c == '\U{A0}' || c == '\U{1680}'
      || '\U{2000}' <= c <= '\U{200A}'
    || c == '\U{2028}' || c == '\U{2029}' || c == '\U{202F}' || c == '\U{205F}' || c == '\U{3000}'
  }

  /** The property Quotation_Mark of Unicode. */
  predicate IsQuote(c: char) {
    || c == '"' || c == '\'' || c == '\U{AB}' || c == '\U{BB}' || '\U{2018}' <= c <= '\U{201F}'
    || c == '\U{2039}' || c == '\U{203A}' || c == '\U{2E42}' || '\U{300C}' <= c <= '\U{300F}'
      || '\U{301D}' <= c <= '\U{301F}'
    || '\U{FE41}' <= c <= '\U{FE44}' || c == '\U{FF02}' || c == '\U{FF07}' || c == '\U{FF62}' || c == '\U{FF63}'
  }

  /** The last quote, which is NONE outside quotes, after one more character. */
  function NextQuote(q: char, c: char): char {
    if c == q then NONE else if q != NONE then q else if IsQuote(c) then c else NONE
  }

  /** The character separates fields. */
  predicate Separates(q: char, c: char) {
    c != q && q == NONE && !IsQuote(c) && IsSpace(c)
  }

  /** The fields, after the beginning of one. */
  function Fields(q: char, current: string, s: string): seq<string>
    decreases |s|
  {
    if s == [] then Flush(current)
    else if Separates(q, s[0]) then Flush(current) + Fields(NextQuote(q, s[0]), [], s[1..])
    else Fields(NextQuote(q, s[0]), current + [s[0]], s[1..])
  }

  function Flush(current: string): seq<string> {
    if current == [] then [] else [current]
  }

  function Tokens(s: string): seq<string> {
    Fields(NONE, [], s)
  }

  /** `strings.FieldsFunc` with the closure over the last quote. */
  method Split(s: string) returns (fields: seq<string>)
    ensures fields == Tokens(s)
  {
    var lastQuote, current := NONE, [];
    fields := [];
    for i := 0 to |s|
      invariant Tokens(s) == fields + Fields(lastQuote, current, s[i..])
    {
      var c := s[i];
      assert s[i..][1..] == s[i + 1..];
      var separates := false;
      if c == lastQuote {
        lastQuote := NONE;
      } else if lastQuote != NONE {
      } else if IsQuote(c) {
        lastQuote := c;
      } else {
        separates := IsSpace(c);
      }
      if separates {
        if current != [] {
          fields := fields + [current];
          current := [];
        }
      } else {
        current := current + [c];
      }
    }
    if current != [] {
      fields := fields + [current];
    }
  }

  // ----- what quotes do

  /** Among the ASCII characters there are two quotes, and the usual spaces. */
  lemma AsciiCharacters(c: char)
    requires c < '\U{80}'
    ensures IsQuote(c) <==> c == '"' || c == '\''
    ensures IsSpace(c) <==> c in " \t\n\r" || c == '\U{0B}' || c == '\U{0C}'
  {
  }

  /** Up to the same quote every character stays in the field. */
  lemma {:induction false} InsideQuotes(q: char, current: string, inner: string, rest: string)
    requires q != NONE && q !in inner
    ensures Fields(q, current, inner + rest) == Fields(q, current + inner, rest)
    decreases |inner|
  {
    if inner == [] {
      assert inner + rest == rest && current + inner == current;
    } else {
      assert inner[0] in inner;
      assert (inner + rest)[1..] == inner[1..] + rest;
      InsideQuotes(q, current + [inner[0]], inner[1..], rest);
      assert current + [inner[0]] + inner[1..] == current + inner;
    }
  }

  /** A quoted text stays in its field, whatever spaces and other quotes are in it. */
  lemma QuotedText(q: char, current: string, inner: string, rest: string)
    requires IsQuote(q) && q !in inner
    ensures Fields(NONE, current, [q] + inner + [q] + rest) == Fields(NONE, current + [q] + inner + [q], rest)
  {
    hide IsSpace, IsQuote;
    QuoteIsNotNone(q);
    var text := [q] + inner + [q] + rest;
    assert text[1..] == inner + ([q] + rest);
    assert text[0] == q;
    InsideQuotes(q, current + [q], inner, [q] + rest);
    assert ([q] + rest)[1..] == rest;
  }

  lemma QuoteIsNotNone(q: char)
    ensures IsQuote(q) ==> q != NONE && !IsSpace(q)
    ensures !IsSpace(NONE)
  {
  }

  /** A quote that is not closed takes in the rest of the line. */
  lemma OpenQuote(q: char, current: string, inner: string)
    requires IsQuote(q) && q !in inner
    ensures Fields(NONE, current, [q] + inner) == [current + [q] + inner]
  {
    hide IsSpace, IsQuote;
    QuoteIsNotNone(q);
    assert ([q] + inner)[1..] == inner && inner + [] == inner;
    InsideQuotes(q, current + [q], inner, []);
  }

  /** Outside quotes a space ends the field, and any other character belongs to it. */
  lemma PlainCharacter(c: char, current: string, rest: string)
    requires !IsQuote(c)
    ensures Fields(NONE, current, [c] + rest)
         == if IsSpace(c) then Flush(current) + Fields(NONE, [], rest) else Fields(NONE, current + [c], rest)
  {
    hide IsSpace, IsQuote;
    QuoteIsNotNone(c);
    assert ([c] + rest)[1..] == rest;
  }

  // ----- tokens survive being joined

  /** The last quote after a text. */
  function QuoteAfter(q: char, s: string): char
    decreases |s|
  {
    if s == [] then q else QuoteAfter(NextQuote(q, s[0]), s[1..])
  }

  /** Nothing in the text separates fields. */
  predicate Solid(q: char, s: string)
    decreases |s|
  {
    s == [] || (!Separates(q, s[0]) && Solid(NextQuote(q, s[0]), s[1..]))
  }

  /** Not empty, without separators, and with balanced quotes except perhaps in the last one. */
  predicate WellTokenized(ts: seq<string>) {
    forall i :: 0 <= i < |ts| ==>
      ts[i] != [] && Solid(NONE, ts[i]) && (i < |ts| - 1 ==> QuoteAfter(NONE, ts[i]) == NONE)
  }

  lemma {:induction false} SolidMore(q: char, s: string, c: char)
    requires Solid(q, s) && !Separates(QuoteAfter(q, s), c)
    ensures Solid(q, s + [c]) && QuoteAfter(q, s + [c]) == NextQuote(QuoteAfter(q, s), c)
    decreases |s|
  {
    if s == [] {
      assert s + [c] == [c];
    } else {
      assert (s + [c])[1..] == s[1..] + [c];
      SolidMore(NextQuote(q, s[0]), s[1..], c);
    }
  }

  lemma {:induction false} FieldsAreWell(q: char, current: string, s: string)
    requires Solid(NONE, current) && q == QuoteAfter(NONE, current)
    ensures WellTokenized(Fields(q, current, s))
    decreases |s|
  {
    if s != [] {
      if Separates(q, s[0]) {
        FieldsAreWell(NONE, [], s[1..]);
      } else {
        SolidMore(NONE, current, s[0]);
        FieldsAreWell(NextQuote(q, s[0]), current + [s[0]], s[1..]);
      }
    }
  }

  /** `strings.Join` with a space. */
  function Join(ts: seq<string>): string {
    if ts == [] then [] else if |ts| == 1 then ts[0] else ts[0] + " " + Join(ts[1..])
  }

  /** A text without separators becomes part of the current field. */
  lemma {:induction false} FieldsSkip(q: char, current: string, t: string, rest: string)
    requires Solid(q, t)
    ensures Fields(q, current, t + rest) == Fields(QuoteAfter(q, t), current + t, rest)
    decreases |t|
  {
    if t == [] {
      assert t + rest == rest && current + t == current;
    } else {
      assert (t + rest)[1..] == t[1..] + rest;
      FieldsSkip(NextQuote(q, t[0]), current + [t[0]], t[1..], rest);
      assert current + [t[0]] + t[1..] == current + t;
    }
  }

  /** Joining well-formed tokens and splitting the result gives them back. */
  lemma {:induction false} JoinThenSplit(ts: seq<string>)
    requires WellTokenized(ts)
    ensures Tokens(Join(ts)) == ts
  {
    if ts != [] {
      var t := ts[0];
      if |ts| == 1 {
        FieldsSkip(NONE, [], t, []);
        assert t + [] == t && [] + t == t;
      } else {
        var rest := ts[1..];
        assert WellTokenized(rest) by {
          assert forall i :: 0 <= i < |rest| ==> rest[i] == ts[i + 1];
        }
        JoinThenSplit(rest);
        assert ts[0] + " " + Join(rest) == t + (" " + Join(rest));
        FieldsSkip(NONE, [], t, " " + Join(rest));
        assert [] + t == t;
        assert (" " + Join(rest))[1..] == Join(rest);
        assert Fields(NONE, t, " " + Join(rest)) == [t] + Tokens(Join(rest));
      }
    }
  }

  // ----- keys and values

  /** `strings.Index(flag, "=")`, or the length of the flag. */
  function Index(flag: string): (r: nat)
    ensures r <= |flag| && (r < |flag| ==> flag[r] == '=') && forall i :: 0 <= i < r ==> flag[i] != '='
  {
    if flag == [] || flag[0] == '=' then 0 else 1 + Index(flag[1..])
  }

  /** `strings.Replace(key, "-", "_", -1)`. */
  function Canonical(key: string): (r: string)
    ensures |r| == |key|
  {
    if key == [] then [] else Canonical(key[..|key| - 1]) + [if key[|key| - 1] == '-' then '_' else key[|key| - 1]]
  }

  function Key(flag: string): string {
    flag[..Index(flag)]
  }

  function Value(flag: string): string {
    if Index(flag) == |flag| then "1" else flag[Index(flag) + 1..]
  }

  /** `strings.Trim(value, "\"'")`. */
  function Trim(s: string): string {
    if s != [] && (s[0] == '"' || s[0] == '\'') then Trim(s[1..])
    else if s != [] && (s[|s| - 1] == '"' || s[|s| - 1] == '\'') then Trim(s[..|s| - 1])
    else s
  }

  predicate IsMark(c: char) {
    c == '"' || c == '\''
  }

  /** Quotes are taken off both ends, and none is left there. */
  lemma {:induction false} TrimExact(s: string) returns (i: nat, j: nat)
    ensures i <= j <= |s| && Trim(s) == s[i..j]
    ensures forall k :: 0 <= k < |s| && !(i <= k < j) ==> IsMark(s[k])
    ensures i < j ==> !IsMark(s[i]) && !IsMark(s[j - 1])
  {
    i, j := 0, |s|;
    if s != [] && IsMark(s[0]) {
      i, j := TrimExact(s[1..]);
      i, j := i + 1, j + 1;
      assert s[1..][i - 1..j - 1] == s[i..j];
      assert forall k :: 0 < k < |s| ==> s[1..][k - 1] == s[k];
    } else if s != [] && IsMark(s[|s| - 1]) {
      i, j := TrimExact(s[..|s| - 1]);
      assert s[..|s| - 1][i..j] == s[i..j];
    }
  }

  lemma {:induction false} CanonicalExact(key: string)
    ensures forall i :: 0 <= i < |key| ==> Canonical(key)[i] == if key[i] == '-' then '_' else key[i]
  {
    if key != [] {
      CanonicalExact(key[..|key| - 1]);
    }
  }

  /** A flag is its key, an equals sign and its value, or a key alone, which stands for 1. */
  lemma KeyAndValue(flag: string)
    ensures '=' !in Key(flag)
    ensures if '=' in flag then flag == Key(flag) + "=" + Value(flag) else Key(flag) == flag && Value(flag) == "1"
  {
    if Index(flag) == |flag| {
      assert flag[..|flag|] == flag;
    }
  }

  /** The flag sets the variable, by the name itself or with underscores. */
  predicate Sets(flag: string, name: string) {
    Key(flag) == name || Canonical(Key(flag)) == name
  }

  /** A variable has the unquoted value of the last flag that sets it. */
  lemma {:induction false} FlagIsLast(ts: seq<string>, name: string) returns (i: nat)
    ensures i <= |ts| && forall j :: i < j < |ts| ==> !Sets(ts[j], name)
    ensures i < |ts| ==> Sets(ts[i], name) && name in Flags(ts) && Flags(ts)[name] == Trim(Value(ts[i]))
    ensures i == |ts| ==> name !in Flags(ts) && forall j :: 0 <= j < |ts| ==> !Sets(ts[j], name)
  {
    hide Trim, Value, Key, Canonical;
    i := |ts|;
    if ts != [] {
      if Sets(ts[|ts| - 1], name) {
        i := |ts| - 1;
      } else {
        var k := FlagIsLast(ts[..|ts| - 1], name);
        i := if k == |ts| - 1 then |ts| else k;
      }
    }
  }

  lemma {:induction false} CanonicalTwice(key: string)
    ensures Canonical(Canonical(key)) == Canonical(key)
  {
    if key != [] {
      var init := key[..|key| - 1];
      CanonicalTwice(init);
      assert Canonical(key)[..|key| - 1] == Canonical(init);
    }
  }

  /** `parseToMap`: the later flag wins; every value is stored under both forms of its key. */
  function Flags(ts: seq<string>): map<string, string> {
    if ts == [] then map[]
    else
      var t := ts[|ts| - 1];
      Flags(ts[..|ts| - 1])[Canonical(Key(t)) := Trim(Value(t))][Key(t) := Trim(Value(t))]
  }

  method ParseToMap(input: string) returns (flagMap: map<string, string>)
    ensures flagMap == Flags(Tokens(input))
  {
    flagMap := map[];
    var fields := Split(input);
    for i := 0 to |fields|
      invariant flagMap == Flags(fields[..i])
    {
      assert fields[..i + 1][..i] == fields[..i];
      var flag := fields[i];
      var split := Index(flag);
      var key, value := flag, "1";
      if split < |flag| {
        key, value := flag[..split], flag[split + 1..];
      }
      assert key == Key(flag) && value == Value(flag) by {
        assert flag[..|flag|] == flag;
      }
      flagMap := flagMap[Canonical(key) := Trim(value)];
      flagMap := flagMap[key := Trim(value)];
    }
    assert fields[..|fields|] == fields;
  }

  // ----- the filter

  function Canonicals(variables: seq<string>): (r: seq<string>)
    ensures |r| == |variables|
  {
    seq(|variables|, i requires 0 <= i < |variables| => Canonical(variables[i]))
  }

  predicate Listed(variables: seq<string>, flag: string) {
    Canonical(Key(flag)) in variables
  }

  function Keep(ts: seq<string>, variables: seq<string>): seq<string> {
    if ts == [] then []
    else Keep(ts[..|ts| - 1], variables) + if Listed(variables, ts[|ts| - 1]) then [] else [ts[|ts| - 1]]
  }

  /** `removeFilter`; the variables are rewritten in place. */
  method RemoveFilter(input: string, variables: array<string>) returns (r: string)
    modifies variables
    ensures variables[..] == Canonicals(old(variables[..]))
    ensures r == Join(Keep(Tokens(input), variables[..]))
  {
    for i := 0 to variables.Length
      invariant forall j :: 0 <= j < i ==> variables[j] == Canonical(old(variables[j]))
      invariant forall j :: i <= j < variables.Length ==> variables[j] == old(variables[j])
    {
      variables[i] := Canonical(variables[i]);
    }
    ghost var listed := variables[..];
    var newCl := [];
    var fields := Split(input);
    for i := 0 to |fields|
      invariant variables[..] == listed && newCl == Keep(fields[..i], listed)
    {
      assert fields[..i + 1][..i] == fields[..i];
      var flag := fields[i];
      var canonicalKey := Canonical(Key(flag));
      var skip := false;
      for j := 0 to variables.Length
        invariant !skip && forall k :: 0 <= k < j ==> listed[k] != canonicalKey
      {
        if canonicalKey == variables[j] {
          skip := true;
          assert listed[j] == canonicalKey;
          break;
        }
      }
      if !skip {
        newCl := newCl + [flag];
      }
    }
    assert fields[..|fields|] == fields;
    r := Join(newCl);
  }

  /** What is kept: the flags that are not listed. */
  lemma {:induction false} KeepMembers(ts: seq<string>, variables: seq<string>, t: string)
    ensures t in Keep(ts, variables) <==> t in ts && !Listed(variables, t)
  {
    if ts != [] {
      var init, last := ts[..|ts| - 1], ts[|ts| - 1];
      KeepMembers(init, variables, t);
      assert ts == init + [last];
      hide Listed;
    }
  }

  /** Still well formed, and the last one is balanced unless it was the last one before. */
  lemma {:induction false} KeepIsWell(ts: seq<string>, variables: seq<string>)
    requires WellTokenized(ts)
    ensures var r := Keep(ts, variables);
            && WellTokenized(r)
            && (r != [] ==> !Listed(variables, ts[|ts| - 1]) || QuoteAfter(NONE, r[|r| - 1]) == NONE)
  {
    hide Listed, Solid, QuoteAfter;
    if ts != [] {
      var init, last := ts[..|ts| - 1], ts[|ts| - 1];
      assert WellTokenized(init) && AllBalanced(init) by {
        assert forall i :: 0 <= i < |init| ==> init[i] == ts[i];
      }
      KeepBalanced(init, variables);
      KeepIsWell(init, variables);
      var k := Keep(init, variables);
      WellMore(k, last);
    }
  }

  predicate AllBalanced(ts: seq<string>) {
    forall t :: t in ts ==> QuoteAfter(NONE, t) == NONE
  }

  lemma {:induction false} KeepBalanced(ts: seq<string>, variables: seq<string>)
    requires AllBalanced(ts)
    ensures AllBalanced(Keep(ts, variables))
  {
    forall t | t in Keep(ts, variables) ensures QuoteAfter(NONE, t) == NONE {
      KeepMembers(ts, variables, t);
    }
  }

  lemma WellMore(ts: seq<string>, t: string)
    requires WellTokenized(ts) && AllBalanced(ts) && t != [] && Solid(NONE, t)
    ensures WellTokenized(ts + [t])
    ensures ts != [] ==> QuoteAfter(NONE, ts[|ts| - 1]) == NONE
  {
    hide Solid, QuoteAfter;
  }

  lemma {:induction false} KeepTwice(ts: seq<string>, variables: seq<string>)
    ensures Keep(Keep(ts, variables), variables) == Keep(ts, variables)
  {
    if ts != [] {
      var init, last := ts[..|ts| - 1], ts[|ts| - 1];
      KeepTwice(init, variables);
      var k := Keep(init, variables);
      if !Listed(variables, last) {
        assert (k + [last])[..|k|] == k;
        assert Keep(ts, variables) == k + [last];
      } else {
        assert Keep(ts, variables) == k + [];
        assert k + [] == k;
      }
    }
  }

  /**
   Parsing the filtered line gives exactly the flags that are not listed, in
   order; filtering it again changes nothing.
   */
  lemma FilterExact(input: string, variables: seq<string>)
    ensures var out := Join(Keep(Tokens(input), variables));
            && Tokens(out) == Keep(Tokens(input), variables)
            && Join(Keep(Tokens(out), variables)) == out
  {
    FieldsAreWell(NONE, [], input);
    KeepIsWell(Tokens(input), variables);
    JoinThenSplit(Keep(Tokens(input), variables));
    KeepTwice(Tokens(input), variables);
  }

  /** The maps agree on the variables that are not listed, and the second one has no listed variable. */
  predicate FiltersKey(before: map<string, string>, after: map<string, string>, variables: seq<string>, key: string) {
    if key in variables then key !in after
    else (key in after <==> key in before) && (key in before ==> after[key] == before[key])
  }

  /** What `Flag` finds after filtering: nothing for a listed variable, the same as before for any other. */
  lemma FilteredFlags(input: string, variables: seq<string>, name: string)
    ensures var out := Join(Keep(Tokens(input), Canonicals(variables)));
            FiltersKey(Flags(Tokens(input)), Flags(Tokens(out)), Canonicals(variables), Canonical(name))
  {
    FilterExact(input, Canonicals(variables));
    KeptFlags(Tokens(input), Canonicals(variables), name);
  }

  lemma {:induction false} KeptFlags(ts: seq<string>, variables: seq<string>, name: string)
    ensures FiltersKey(Flags(ts), Flags(Keep(ts, variables)), variables, Canonical(name))
  {
    if ts != [] {
      var init, last := ts[..|ts| - 1], ts[|ts| - 1];
      KeepMore(ts, variables);
      hide Keep, Key, Value, Trim, FiltersKey;
      KeptFlags(init, variables, name);
      CanonicalTwice(name);
      hide Canonical, Flags;
      var k := Keep(init, variables);
      MoreFlags(init, last);
      MoreFlags(k, last);
      OneMoreFlag(Flags(init), Flags(k), variables, Canonical(name), Canonical(Key(last)), Key(last),
        Trim(Value(last)));
    }
  }

  lemma KeepMore(ts: seq<string>, variables: seq<string>)
    requires ts != []
    ensures var init, last := ts[..|ts| - 1], ts[|ts| - 1];
            && ts == init + [last]
            && Keep(ts, variables)
               == if Listed(variables, last) then Keep(init, variables) else Keep(init, variables) + [last]
  {
    hide Listed;
  }

  /** One more flag, stored under its canonical key c and under its key k. */
  lemma OneMoreFlag(before: map<string, string>, after: map<string, string>, variables: seq<string>,
                    key: string, c: string, k: string, value: string)
    requires FiltersKey(before, after, variables, key) && (k == key ==> c == key)
    ensures FiltersKey(before[c := value][k := value],
                       if c in variables then after else after[c := value][k := value], variables, key)
  {
  }

  lemma MoreFlags(ts: seq<string>, t: string)
    ensures Flags(ts + [t]) == Flags(ts)[Canonical(Key(t)) := Trim(Value(t))][Key(t) := Trim(Value(t))]
  {
    assert (ts + [t])[..|ts|] == ts;
  }
}
