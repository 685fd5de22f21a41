/** Message templates: the substitution loop of `t` (telegram-bot/src/i18n/locales.ts). */
module Templates {
  import opened Wrappers
  import opened Text

  type Vars = seq<(string, string)>

  // ---------- the code ----------

  /** How `replaceAll` reads its replacement: `$$`, `$&`, "$`" and `$'` are special. */
  function Expand(v: string, matched: string, before: string, after: string): string {
    if |v| >= 2 && v[0] == '$' && v[1] in "$&`'" then
      (if v[1] == '$' then "$" else if v[1] == '&' then matched else if v[1] == '`' then before else after)
      + Expand(v[2..], matched, before, after)
    else if v == "" then ""
    else [v[0]] + Expand(v[1..], matched, before, after)
  }

  /** The part of `text.replaceAll(pattern, v)` that comes from `text[pos..]`. */
  function ReplaceFrom(text: string, pattern: string, v: string, pos: nat): string
    requires pattern != "" && pos <= |text|
    decreases |text| - pos
  {
    if HasPrefix(text[pos..], pattern) then
      var next := pos + |pattern|;
      Expand(v, pattern, text[..pos], text[next..]) + ReplaceFrom(text, pattern, v, next)
    else if pos == |text| then ""
    else [text[pos]] + ReplaceFrom(text, pattern, v, pos + 1)
  }

  function Placeholder(key: string): string {
    "{" + key + "}"
  }

  function ReplaceVar(text: string, key: string, v: string): string {
    ReplaceFrom(text, Placeholder(key), v, 0)
  }

  /** The variables substituted one after the other. */
  function Sequential(text: string, vars: Vars): string {
    if vars == [] then text
    else ReplaceVar(Sequential(text, vars[..|vars| - 1]), vars[|vars| - 1].0, vars[|vars| - 1].1)
  }

  // ---------- templates and their meaning ----------

  datatype Piece = Literal(text: string) | Hole(key: string)

  predicate BraceFree(s: string) {
    '{' !in s && '}' !in s
  }

  /** Every opening brace of the template begins a placeholder, and keys contain no braces. */
  predicate WellFormed(pieces: seq<Piece>) {
    forall p :: p in pieces ==> if p.Literal? then '{' !in p.text else BraceFree(p.key)
  }

  function Render(pieces: seq<Piece>): string {
    if pieces == [] then ""
    else (if pieces[0].Literal? then pieces[0].text else Placeholder(pieces[0].key)) + Render(pieces[1..])
  }

  /** All holes filled at once; holes without a value stay. */
  function Fill(pieces: seq<Piece>, values: map<string, string>): string {
    if pieces == [] then ""
    else
      var p := pieces[0];
      (if p.Literal? then p.text else if p.key in values then values[p.key] else Placeholder(p.key))
      + Fill(pieces[1..], values)
  }

  function Values(vars: Vars): map<string, string> {
    if vars == [] then map[]
    else Values(vars[..|vars| - 1])[vars[|vars| - 1].0 := vars[|vars| - 1].1]
  }

  predicate DistinctKeys(vars: Vars) {
    forall i, j :: 0 <= i < j < |vars| ==> vars[i].0 != vars[j].0
  }

  /** Distinct keys without braces; values without opening braces, but for the last one, which is
      never looked at again. */
  predicate Admissible(vars: Vars) {
    && DistinctKeys(vars)
    && (forall i :: 0 <= i < |vars| ==> BraceFree(vars[i].0))
    && (forall i :: 0 <= i < |vars| - 1 ==> '{' !in vars[i].1)
  }

  /** Nothing in a value that `replaceAll` interprets. */
  predicate NoDollarPattern(v: string) {
    forall i :: 0 <= i < |v| - 1 && v[i] == '$' ==> v[i + 1] !in "$&`'"
  }

  predicate NoDollarPatterns(vars: Vars) {
    forall i :: 0 <= i < |vars| ==> NoDollarPattern(vars[i].1)
  }

  /** Holes of one key turned into literals. */
  function Subst(pieces: seq<Piece>, key: string, v: string): seq<Piece> {
    if pieces == [] then []
    else [if pieces[0] == Hole(key) then Literal(v) else pieces[0]] + Subst(pieces[1..], key, v)
  }

  // ---------- one variable ----------

  /** Replacement by a value that is copied as it is, as a function of the remaining text alone. */
  function Rep(s: string, pattern: string, v: string): string
    requires pattern != ""
    decreases |s|
  {
    if HasPrefix(s, pattern) then v + Rep(s[|pattern|..], pattern, v)
    else if s == "" then ""
    else [s[0]] + Rep(s[1..], pattern, v)
  }

  lemma {:induction false} ExpandPlain(v: string, matched: string, before: string, after: string)
    requires NoDollarPattern(v)
    ensures Expand(v, matched, before, after) == v
  {
    if v != "" {
      assert forall i :: 0 <= i < |v| - 1 ==> v[1..][i] == v[i + 1];
      ExpandPlain(v[1..], matched, before, after);
    }
  }

  lemma {:induction false} ReplaceFromIsRep(text: string, pattern: string, v: string, pos: nat)
    requires pattern != "" && pos <= |text| && NoDollarPattern(v)
    ensures ReplaceFrom(text, pattern, v, pos) == Rep(text[pos..], pattern, v)
    decreases |text| - pos
  {
    hide Expand, NoDollarPattern;
    if HasPrefix(text[pos..], pattern) {
      var next := pos + |pattern|;
      ExpandPlain(v, pattern, text[..pos], text[next..]);
      ReplaceFromIsRep(text, pattern, v, next);
      assert text[pos..][|pattern|..] == text[next..];
    } else if pos < |text| {
      ReplaceFromIsRep(text, pattern, v, pos + 1);
      assert text[pos..][1..] == text[pos + 1..];
    }
  }

  /** No match begins inside text without an opening brace. */
  lemma {:induction false} RepSkips(s: string, rest: string, key: string, v: string)
    requires '{' !in s
    ensures Rep(s + rest, Placeholder(key), v) == s + Rep(rest, Placeholder(key), v)
  {
    if s == "" {
      assert s + rest == rest;
    } else {
      assert (s + rest)[0] == s[0];
      assert (s + rest)[1..] == s[1..] + rest;
      RepSkips(s[1..], rest, key, v);
    }
  }

  /** A placeholder is matched by its own pattern only. */
  lemma PlaceholderMatch(j: string, k: string, rest: string)
    requires BraceFree(j) && BraceFree(k)
    ensures HasPrefix(Placeholder(j) + rest, Placeholder(k)) <==> j == k
  {
    var s := Placeholder(j) + rest;
    assert s == ("{" + j) + ['}'] + rest;
    SplitCons("{" + j, '}', rest);
    if HasPrefix(s, Placeholder(k)) {
      var tail := s[|Placeholder(k)|..];
      assert s == ("{" + k) + ['}'] + tail;
      SplitCons("{" + k, '}', tail);
      assert j == Split(s, '}')[0][1..] == k;
    }
  }

  lemma RepHole(j: string, rest: string, key: string, v: string)
    requires BraceFree(j) && BraceFree(key)
    ensures Rep(Placeholder(j) + rest, Placeholder(key), v) ==
            (if j == key then v else Placeholder(j)) + Rep(rest, Placeholder(key), v)
  {
    PlaceholderMatch(j, key, rest);
    var s := Placeholder(j) + rest;
    if j == key {
      assert s[|Placeholder(key)|..] == rest;
    } else {
      assert s[1..] == (j + "}") + rest;
      RepSkips(j + "}", rest, key, v);
      assert Rep(s, Placeholder(key), v) == "{" + ((j + "}") + Rep(rest, Placeholder(key), v));
    }
  }

  lemma {:induction false} RepRender(pieces: seq<Piece>, key: string, v: string)
    requires WellFormed(pieces) && BraceFree(key)
    ensures Rep(Render(pieces), Placeholder(key), v) == Render(Subst(pieces, key, v))
  {
    if pieces != [] {
      var p := pieces[0];
      assert p in pieces && forall q :: q in pieces[1..] ==> q in pieces;
      RepRender(pieces[1..], key, v);
      assert Subst(pieces, key, v)[1..] == Subst(pieces[1..], key, v);
      if p.Literal? {
        RepSkips(p.text, Render(pieces[1..]), key, v);
      } else {
        RepHole(p.key, Render(pieces[1..]), key, v);
      }
    } else {
      assert !HasPrefix("", Placeholder(key));
    }
  }

  lemma {:induction false} SubstWellFormed(pieces: seq<Piece>, key: string, v: string)
    requires WellFormed(pieces) && '{' !in v
    ensures WellFormed(Subst(pieces, key, v))
  {
    if pieces != [] {
      assert pieces[0] in pieces && forall q :: q in pieces[1..] ==> q in pieces;
      SubstWellFormed(pieces[1..], key, v);
    }
  }

  // ---------- all variables ----------

  /** The template with the variables turned into literals one after the other. */
  function SubstAll(pieces: seq<Piece>, vars: Vars): seq<Piece> {
    if vars == [] then pieces
    else Subst(SubstAll(pieces, vars[..|vars| - 1]), vars[|vars| - 1].0, vars[|vars| - 1].1)
  }

  lemma {:induction false} SequentialSubsts(pieces: seq<Piece>, vars: Vars)
    requires WellFormed(pieces) && Admissible(vars) && NoDollarPatterns(vars)
    ensures Sequential(Render(pieces), vars) == Render(SubstAll(pieces, vars))
    ensures vars == [] || '{' !in vars[|vars| - 1].1 ==> WellFormed(SubstAll(pieces, vars))
  {
    if vars != [] {
      hide ReplaceFrom, Subst, Render, NoDollarPattern, WellFormed;
      var init, last := vars[..|vars| - 1], vars[|vars| - 1];
      SequentialSubsts(pieces, init);
      var text := Render(SubstAll(pieces, init));
      assert text[0..] == text;
      ReplaceFromIsRep(text, Placeholder(last.0), last.1, 0);
      RepRender(SubstAll(pieces, init), last.0, last.1);
      if '{' !in last.1 {
        SubstWellFormed(SubstAll(pieces, init), last.0, last.1);
      }
    }
  }

  lemma {:induction false} SubstSplits(p: Piece, rest: seq<Piece>, vars: Vars)
    ensures SubstAll([p] + rest, vars) == SubstAll([p], vars) + SubstAll(rest, vars)
    ensures |SubstAll([p], vars)| == 1
  {
    if vars != [] {
      var init, last := vars[..|vars| - 1], vars[|vars| - 1];
      SubstSplits(p, rest, init);
      var head, tail := SubstAll([p], init), SubstAll(rest, init);
      assert (head + tail)[1..] == tail && head[1..] == [];
      assert Subst(head, last.0, last.1) == [Subst(head + tail, last.0, last.1)[0]];
    }
  }

  lemma {:induction false} ValuesKeys(vars: Vars)
    ensures forall k :: k in Values(vars) <==> exists i :: 0 <= i < |vars| && vars[i].0 == k
  {
    if vars != [] {
      var n := |vars| - 1;
      ValuesKeys(vars[..n]);
      forall k
        ensures k in Values(vars) <==> exists i :: 0 <= i < |vars| && vars[i].0 == k
      {
        if k in Values(vars[..n]) {
          var i :| 0 <= i < n && vars[..n][i].0 == k;
          assert vars[i].0 == k;
        }
        if i :| 0 <= i < n && vars[i].0 == k {
          assert vars[..n][i].0 == k;
        }
      }
    }
  }

  lemma SubstSingle(p: Piece, key: string, v: string)
    ensures Subst([p], key, v) == [if p == Hole(key) then Literal(v) else p]
  {
    assert Subst([p][1..], key, v) == [];
  }

  /** With distinct keys a hole ends as its own value, whatever the order. */
  lemma {:induction false} SubstOne(p: Piece, vars: Vars)
    requires DistinctKeys(vars)
    ensures var values := Values(vars);
            SubstAll([p], vars) == [if p.Hole? && p.key in values then Literal(values[p.key]) else p]
  {
    if vars != [] {
      var n := |vars| - 1;
      var init, last := vars[..n], vars[n];
      ValuesKeys(init);
      assert last.0 !in Values(init);
      SubstOne(p, init);
      SubstSingle(SubstAll([p], init)[0], last.0, last.1);
    }
  }

  lemma {:induction false} SubstAllEmpty(vars: Vars)
    ensures SubstAll([], vars) == []
  {
    if vars != [] {
      SubstAllEmpty(vars[..|vars| - 1]);
    }
  }

  lemma {:induction false} SubstAllFills(pieces: seq<Piece>, vars: Vars)
    requires DistinctKeys(vars)
    ensures Render(SubstAll(pieces, vars)) == Fill(pieces, Values(vars))
  {
    if pieces == [] {
      SubstAllEmpty(vars);
    } else {
      var p, rest := pieces[0], pieces[1..];
      assert pieces == [p] + rest;
      SubstSplits(p, rest, vars);
      SubstOne(p, vars);
      SubstAllFills(rest, vars);
      assert SubstAll(pieces, vars)[1..] == SubstAll(rest, vars);
    }
  }

  /** The loop fills all holes as if at once, when no value has a dollar pattern. */
  lemma SequentialIsSimultaneous(pieces: seq<Piece>, vars: Vars)
    requires WellFormed(pieces) && Admissible(vars) && NoDollarPatterns(vars)
    ensures Sequential(Render(pieces), vars) == Fill(pieces, Values(vars))
  {
    SequentialSubsts(pieces, vars);
    SubstAllFills(pieces, vars);
  }

  lemma {:induction false} ValuesAt(vars: Vars, i: nat)
    requires DistinctKeys(vars) && i < |vars|
    ensures vars[i].0 in Values(vars) && Values(vars)[vars[i].0] == vars[i].1
  {
    var n := |vars| - 1;
    if i < n {
      ValuesAt(vars[..n], i);
    }
  }

  /** The order of the entries does not matter. */
  lemma OrderIrrelevant(pieces: seq<Piece>, a: Vars, b: Vars)
    requires WellFormed(pieces) && Admissible(a) && Admissible(b)
    requires NoDollarPatterns(a) && multiset(a) == multiset(b)
    ensures Sequential(Render(pieces), a) == Sequential(Render(pieces), b)
  {
    forall i | 0 <= i < |b|
      ensures NoDollarPattern(b[i].1)
    {
      assert b[i] in multiset(b);
      assert b[i] in multiset(a);
    }
    assert Values(a) == Values(b) by {
      SameValues(a, b);
      SameValues(b, a);
    }
    SequentialIsSimultaneous(pieces, a);
    SequentialIsSimultaneous(pieces, b);
  }

  lemma SameValues(a: Vars, b: Vars)
    requires DistinctKeys(a) && DistinctKeys(b) && multiset(a) == multiset(b)
    ensures forall k :: k in Values(a) ==> k in Values(b) && Values(b)[k] == Values(a)[k]
  {
    ValuesKeys(a);
    forall k | k in Values(a)
      ensures k in Values(b) && Values(b)[k] == Values(a)[k]
    {
      var i :| 0 <= i < |a| && a[i].0 == k;
      assert a[i] in multiset(b);
      var j :| 0 <= j < |b| && b[j] == a[i];
      ValuesAt(a, i);
      ValuesAt(b, j);
    }
  }

  // ---------- dollar patterns are what must not occur ----------

  function CountOpen(s: string): nat {
    if s == "" then 0 else (if s[0] == '{' then 1 else 0) + CountOpen(s[1..])
  }

  lemma {:induction false} CountOpenConcat(a: string, b: string)
    ensures CountOpen(a + b) == CountOpen(a) + CountOpen(b)
  {
    if a == "" {
      assert a + b == b;
    } else {
      assert (a + b)[1..] == a[1..] + b;
      CountOpenConcat(a[1..], b);
    }
  }

  /** A value that is expanded in front of nothing and after nothing gets an opening brace more or
      becomes shorter, unless it has no dollar pattern. */
  lemma {:induction false} ExpandMeasure(v: string, matched: string)
    requires matched != "" && matched[0] == '{'
    ensures var e := Expand(v, matched, "", "");
            CountOpen(e) > CountOpen(v)
            || (CountOpen(e) == CountOpen(v) && |e| <= |v| && (|e| == |v| ==> NoDollarPattern(v)))
  {
    var e := Expand(v, matched, "", "");
    if |v| >= 2 && v[0] == '$' && v[1] in "$&`'" {
      ExpandMeasure(v[2..], matched);
      var head := if v[1] == '$' then "$" else if v[1] == '&' then matched else "";
      CountOpenConcat(head, Expand(v[2..], matched, "", ""));
      assert v == v[..2] + v[2..] && v[..2] == [v[0], v[1]];
      CountOpenConcat(v[..2], v[2..]);
      assert CountOpen(v[..2]) == 0 by { assert v[..2][1..] == [v[1]] && [v[1]][1..] == ""; }
      assert v[1] == '$' ==> CountOpen(head) == 0 by { assert "$"[1..] == ""; }
    } else if v != "" {
      var t := v[1..];
      ExpandMeasure(t, matched);
      assert e[1..] == Expand(t, matched, "", "");
      if NoDollarPattern(t) {
        forall i | 0 <= i < |v| - 1 && v[i] == '$'
          ensures v[i + 1] !in "$&`'"
        {
          if i > 0 { assert t[i - 1] == v[i] && t[i] == v[i + 1]; }
        }
      }
    }
  }

  lemma ExpandFixedIff(v: string, key: string)
    ensures Expand(v, Placeholder(key), "", "") == v <==> NoDollarPattern(v)
  {
    ExpandMeasure(v, Placeholder(key));
    if NoDollarPattern(v) {
      ExpandPlain(v, Placeholder(key), "", "");
    }
  }

  // ---------- text without a placeholder of the key ----------

  lemma {:induction false} AbsentKeeps(text: string, pattern: string, v: string, pos: nat)
    requires pattern != "" && pos <= |text| && !Contains(text[pos..], pattern)
    ensures ReplaceFrom(text, pattern, v, pos) == text[pos..]
    decreases |text| - pos
  {
    if pos < |text| {
      assert text[pos..][1..] == text[pos + 1..];
      AbsentKeeps(text, pattern, v, pos + 1);
    }
  }

  lemma {:induction false} ContainsSkips(s: string, rest: string, key: string)
    requires '{' !in s
    ensures Contains(s + rest, Placeholder(key)) == Contains(rest, Placeholder(key))
  {
    if s == "" {
      assert s + rest == rest;
    } else {
      assert (s + rest)[0] == s[0];
      assert (s + rest)[1..] == s[1..] + rest;
      ContainsSkips(s[1..], rest, key);
    }
  }

  lemma {:induction false} NoHoleAbsent(pieces: seq<Piece>, key: string)
    requires WellFormed(pieces) && BraceFree(key) && Hole(key) !in pieces
    ensures !Contains(Render(pieces), Placeholder(key))
  {
    if pieces != [] {
      var p, rest := pieces[0], Render(pieces[1..]);
      NoHoleAbsent(pieces[1..], key);
      if p.Literal? {
        ContainsSkips(p.text, rest, key);
      } else {
        PlaceholderMatch(p.key, key, rest);
        assert (Placeholder(p.key) + rest)[1..] == (p.key + "}") + rest;
        ContainsSkips(p.key + "}", rest, key);
      }
    }
  }

  /** Variables that occur in no placeholder leave the text alone, whatever their values are. */
  lemma {:induction false} NoHoleKeeps(pieces: seq<Piece>, vars: Vars)
    requires WellFormed(pieces)
    requires forall i :: 0 <= i < |vars| ==> BraceFree(vars[i].0) && Hole(vars[i].0) !in pieces
    ensures Sequential(Render(pieces), vars) == Render(pieces)
  {
    hide WellFormed, ReplaceFrom, Contains;
    if vars != [] {
      var n := |vars| - 1;
      NoHoleKeeps(pieces, vars[..n]);
      NoHoleAbsent(pieces, vars[n].0);
      assert Render(pieces)[0..] == Render(pieces);
      AbsentKeeps(Render(pieces), Placeholder(vars[n].0), vars[n].1, 0);
    }
  }

  /** What a value in place of a lone placeholder expands to, as a template. */
  function ExpandPieces(v: string, key: string): seq<Piece> {
    if |v| >= 2 && v[0] == '$' && v[1] in "$&`'" then
      (if v[1] == '$' then [Literal("$")] else if v[1] == '&' then [Hole(key)] else []) + ExpandPieces(v[2..], key)
    else if v == "" then []
    else [Literal([v[0]])] + ExpandPieces(v[1..], key)
  }

  lemma {:induction false} ExpandRenders(v: string, key: string)
    requires '{' !in v && BraceFree(key)
    ensures WellFormed(ExpandPieces(v, key))
    ensures Render(ExpandPieces(v, key)) == Expand(v, Placeholder(key), "", "")
    ensures forall k :: k != key ==> Hole(k) !in ExpandPieces(v, key)
  {
    var pieces := ExpandPieces(v, key);
    if |v| >= 2 && v[0] == '$' && v[1] in "$&`'" {
      ExpandRenders(v[2..], key);
      if v[1] == '$' || v[1] == '&' {
        assert pieces[1..] == ExpandPieces(v[2..], key);
      } else {
        assert pieces == ExpandPieces(v[2..], key);
      }
    } else if v != "" {
      ExpandRenders(v[1..], key);
      assert pieces[1..] == ExpandPieces(v[1..], key);
    }
  }

  lemma {:induction false} SequentialSplits(text: string, a: Vars, b: Vars)
    ensures Sequential(text, a + b) == Sequential(Sequential(text, a), b)
  {
    hide ReplaceVar;
    if b == [] {
      assert a + b == a;
    } else {
      var n := |b| - 1;
      SequentialSplits(text, a, b[..n]);
      assert (a + b)[..|a + b| - 1] == a + b[..n];
    }
  }

  lemma LoneHole(key: string)
    ensures Render([Hole(key)]) == Placeholder(key)
  {
    assert Render([Hole(key)][1..]) == "";
  }

  lemma {:induction false} ReplaceLone(key: string, v: string)
    ensures ReplaceVar(Placeholder(key), key, v) == Expand(v, Placeholder(key), "", "")
  {
    hide Expand;
    var text := Placeholder(key);
    assert text[0..] == text && text[..|text|] == text && text[|text|..] == "" && text[..0] == "";
    assert ReplaceFrom(text, text, v, |text|) == "" by { assert !HasPrefix("", text); }
    assert ReplaceFrom(text, text, v, 0) ==
           Expand(v, text, text[..0], text[|text|..]) + ReplaceFrom(text, text, v, |text|);
  }

  /** A lone placeholder ends as the expansion of its value. */
  lemma {:induction false} LonePlaceholder(vars: Vars, i: nat)
    requires Admissible(vars) && i < |vars|
    ensures Sequential(Render([Hole(vars[i].0)]), vars) == Expand(vars[i].1, Placeholder(vars[i].0), "", "")
  {
    hide ReplaceVar, Expand, Render, NoDollarPattern;
    var key, v := vars[i].0, vars[i].1;
    var before, after := vars[..i], vars[i + 1..];
    assert vars == before + [vars[i]] + after;
    var text := Render([Hole(key)]);
    NoHoleKeeps([Hole(key)], before);
    LoneHole(key);
    SequentialSplits(text, before + [vars[i]], after);
    SequentialSplits(text, before, [vars[i]]);
    assert Sequential(text, [vars[i]]) == ReplaceVar(text, key, v) by {
      assert [vars[i]][..0] == [];
    }
    ReplaceLone(key, v);
    if after != [] {
      ExpandRenders(v, key);
      NoHoleKeeps(ExpandPieces(v, key), after);
    }
  }

  /** For distinct keys without braces and values without opening braces, the loop fills the holes
      of every template as if at once exactly when no value has a dollar sign before one of the
      characters that `replaceAll` interprets after it. */
  lemma {:induction false} SimultaneousIff(vars: Vars)
    requires Admissible(vars)
    ensures (forall pieces :: WellFormed(pieces) ==> Sequential(Render(pieces), vars) == Fill(pieces, Values(vars)))
            <==> NoDollarPatterns(vars)
  {
    hide Sequential, Render, Fill, Expand, NoDollarPattern;
    if NoDollarPatterns(vars) {
      forall pieces | WellFormed(pieces)
        ensures Sequential(Render(pieces), vars) == Fill(pieces, Values(vars))
      {
        SequentialIsSimultaneous(pieces, vars);
      }
    } else {
      var i :| 0 <= i < |vars| && !NoDollarPattern(vars[i].1);
      var pieces := [Hole(vars[i].0)];
      assert WellFormed(pieces);
      LonePlaceholder(vars, i);
      ExpandFixedIff(vars[i].1, vars[i].0);
      ValuesAt(vars, i);
      FillLone(vars[i].0, Values(vars));
    }
  }

  lemma FillLone(key: string, values: map<string, string>)
    requires key in values
    ensures Fill([Hole(key)], values) == values[key]
  {
    assert Fill([Hole(key)][1..], values) == "";
  }

  // ---------- opening braces in values ----------

  /** A value that looks like a later placeholder is substituted again, and the order of the entries
      becomes visible. */
  lemma {:induction false} BracesMatter()
    ensures Sequential("{a}", [("a", "{b}"), ("b", "x")]) == "x"
    ensures Sequential("{a}", [("b", "x"), ("a", "{b}")]) == "{b}"
  {
    hide ReplaceVar, Expand;
    var v, w := [("a", "{b}"), ("b", "x")], [("b", "x"), ("a", "{b}")];
    assert Placeholder("a") == "{a}" && Placeholder("b") == "{b}";
    LoneHole("a");
    ReplaceLone("a", "{b}");
    ReplaceLone("b", "x");
    ExpandPlain("{b}", "{a}", "", "");
    ExpandPlain("x", "{b}", "", "");
    NoHoleKeeps([Hole("a")], w[..1]);
    assert v[..1] == [("a", "{b}")] && v[..1][..0] == [];
  }

  /** The smallest dollar pattern: two dollar signs are shown as one. */
  lemma DollarMatters()
    ensures Sequential("{a}", [("a", "$$")]) == "$"
  {
    assert Placeholder("a") == "{a}";
    ReplaceLone("a", "$$");
    assert "$$"[2..] == "";
    assert Expand("$$", "{a}", "", "") == "$";
    assert [("a", "$$")][..0] == [];
  }

  lemma {:induction false} CopiesUpTo(a: string, rest: string, key: string, v: string, pos: nat)
    requires pos <= |a| && '{' !in a
    ensures var text := a + rest;
            ReplaceFrom(text, Placeholder(key), v, pos) == a[pos..] + ReplaceFrom(text, Placeholder(key), v, |a|)
    decreases |a| - pos
  {
    if pos == |a| {
      assert a[pos..] == "";
    } else {
      var text := a + rest;
      assert text[pos..][0] == a[pos] && Placeholder(key)[0] == '{';
      CopiesUpTo(a, rest, key, v, pos + 1);
      assert a[pos..] == [a[pos]] + a[pos + 1..];
    }
  }

  lemma {:induction false} NoBraceAbsent(s: string, key: string)
    requires '{' !in s
    ensures !Contains(s, Placeholder(key))
  {
    ContainsSkips(s, "", key);
    assert s + "" == s;
  }

  lemma {:induction false} ReplaceHere(a: string, key: string, b: string, v: string)
    requires '{' !in b
    ensures ReplaceFrom(a + Placeholder(key) + b, Placeholder(key), v, |a|) == Expand(v, Placeholder(key), a, b) + b
  {
    hide Expand, Placeholder, Contains;
    var p := Placeholder(key);
    assert p != "" by { PlaceholderNotEmpty(key); }
    var text := a + p + b;
    var next := |a| + |p|;
    assert text[next..] == b && text[..|a|] == a && text[|a|..] == p + b;
    NoBraceAbsent(b, key);
    AbsentKeeps(text, p, v, next);
  }

  lemma PlaceholderNotEmpty(key: string)
    ensures Placeholder(key) != ""
  {
  }

  /** A placeholder between two texts is replaced by what its value expands to there. */
  lemma {:induction false} ReplaceBetween(a: string, key: string, b: string, v: string)
    requires '{' !in a && '{' !in b
    ensures ReplaceVar(a + Placeholder(key) + b, key, v) == a + (Expand(v, Placeholder(key), a, b) + b)
  {
    hide Expand, ReplaceFrom, Placeholder;
    PlaceholderNotEmpty(key);
    assert a + Placeholder(key) + b == a + (Placeholder(key) + b) && a[0..] == a;
    CopiesUpTo(a, Placeholder(key) + b, key, v, 0);
    ReplaceHere(a, key, b, v);
  }

  lemma ExpandForms(m: string, a: string, b: string)
    ensures Expand("$$", m, a, b) == "$" && Expand("$&", m, a, b) == m
    ensures Expand("$`", m, a, b) == a && Expand("$'", m, a, b) == b
  {
    assert "$$"[2..] == "" && "$&"[2..] == "" && "$`"[2..] == "" && "$'"[2..] == "";
    assert m + "" == m && a + "" == a && b + "" == b;
  }

  /** What the four dollar patterns are shown as: a dollar sign, the placeholder, the text before it, the
      text after it. */
  lemma {:induction false} DollarForms(a: string, key: string, b: string)
    requires '{' !in a && '{' !in b
    ensures var text := a + ("{" + key + "}") + b;
            && ReplaceVar(text, key, "$$") == a + ("$" + b)
            && ReplaceVar(text, key, "$&") == a + (("{" + key + "}") + b)
            && ReplaceVar(text, key, "$`") == a + (a + b)
            && ReplaceVar(text, key, "$'") == a + (b + b)
  {
    ReplaceBetween(a, key, b, "$$");
    ReplaceBetween(a, key, b, "$&");
    ReplaceBetween(a, key, b, "$`");
    ReplaceBetween(a, key, b, "$'");
    ExpandForms(Placeholder(key), a, b);
    hide ReplaceVar, Expand;
  }

  /** `t`: looks the template up, in English when the language has none and as the key itself when English
      has none either, and substitutes the variables in a loop. */
  method T(locales: map<string, map<string, string>>, lang: string, key: string, vars: Option<Vars>)
    returns (text: string)
    ensures var template := if lang in locales && key in locales[lang] then locales[lang][key]
                            else if "en" in locales && key in locales["en"] then locales["en"][key]
                            else key;
            && text == Sequential(template, if vars.Some? then vars.value else [])
            && (vars.None? ==> text == template)
            && forall pieces :: vars.Some? && Admissible(vars.value) && NoDollarPatterns(vars.value)
                                && WellFormed(pieces) && Render(pieces) == template ==>
                 text == Fill(pieces, Values(vars.value))
  {
    hide ReplaceVar;
    text := if lang in locales && key in locales[lang] then locales[lang][key]
            else if "en" in locales && key in locales["en"] then locales["en"][key]
            else key;
    ghost var template := text;
    if vars.Some? {
      var entries := vars.value;
      for i := 0 to |entries|
        invariant text == Sequential(template, entries[..i])
      {
        assert entries[..i + 1][..i] == entries[..i];
        text := ReplaceVar(text, entries[i].0, entries[i].1);
      }
      assert entries[..|entries|] == entries;
      forall pieces | Admissible(entries) && NoDollarPatterns(entries) && WellFormed(pieces) && Render(pieces) == template
        ensures text == Fill(pieces, Values(entries))
      {
        SequentialIsSimultaneous(pieces, entries);
      }
    }
  }
}
