/**
 * Placeholder substitution: a chain of `replace` calls, one per `@@NAME@@`, meant to act as one
 * simultaneous substitution.
 *
 * A template is read as literals separated by holes.  Replacing one name can go wrong only where a
 * literal between two other holes spells that name, because the literal then lends its neighbours'
 * delimiters: `@@A@@` `NAME` `@@B@@` contains `@@NAME@@`.  The literal may have become that name by an
 * earlier replacement.  `Clashes` says when this happens for values that no name can span, `Rescanning`
 * what becomes of arbitrary values on templates that keep their holes apart.
 */
module Placeholders {
  import opened Replacing
  import opened Text

  datatype Template = End(lit: string) | Hole(lit: string, name: string, rest: Template)

  const DELIMITER := "@@"

  function Key(name: string): (key: string)
    ensures key != ""
  {
    DELIMITER + name + DELIMITER
  }

  function Render(t: Template): string {
    match t
    case End(lit) => lit
    case Hole(lit, name, rest) => lit + Key(name) + Render(rest)
  }

  /** Puts text in front of a template's first literal. */
  function Prepend(text: string, t: Template): Template {
    match t
    case End(lit) => End(text + lit)
    case Hole(lit, name, rest) => Hole(text + lit, name, rest)
  }

  /** Fills every hole called `name`; the value merges with the literals around it. */
  function Fill(t: Template, name: string, value: string): Template {
    match t
    case End(_) => t
    case Hole(lit, n, rest) =>
      var filled := Fill(rest, name, value);
      if n == name then Prepend(lit + value, filled) else Hole(lit, n, filled)
  }

  // ----- Templates whose delimiters are unambiguous -----

  predicate NoDelimiter(s: string) {
    forall i, j :: 0 <= i < |s| && j == i + 1 && j < |s| ==> s[i] != '@' || s[j] != '@'
  }

  predicate StartsWithAt(s: string) { s != "" && s[0] == '@' }

  predicate EndsWithAt(s: string) { s != "" && s[|s| - 1] == '@' }

  predicate IsName(name: string) { name != "" && '@' !in name }

  /** A value to substitute: single `@` inside is fine, as in a style sheet's `@media`. */
  predicate IsValue(value: string) {
    NoDelimiter(value) && !StartsWithAt(value) && !EndsWithAt(value)
  }

  /** Every `@@` in the rendered template belongs to a hole, and no literal touches a hole with an `@`. */
  predicate Separated(t: Template, afterHole: bool) {
    && NoDelimiter(t.lit)
    && (afterHole ==> !StartsWithAt(t.lit))
    && (t.Hole? ==> !EndsWithAt(t.lit) && IsName(t.name) && Separated(t.rest, true))
  }

  /** No literal between two holes, the first of another name, spells `name`. */
  predicate NothingSpells(t: Template, name: string) {
    t.Hole? ==>
      && (t.name != name && t.rest.Hole? ==> t.rest.lit != name)
      && NothingSpells(t.rest, name)
  }

  // ----- One replacement -----

  /** The scan passes over a literal. */
  lemma {:induction false} SkipLiteral(lit: string, rest: string, name: string, value: string)
    requires NoDelimiter(lit) && (EndsWithAt(lit) ==> !StartsWithAt(rest))
    ensures Replace(lit + rest, Key(name), value) == lit + Replace(rest, Key(name), value)
    decreases |lit|
  {
    if lit == "" {
      assert lit + rest == rest;
    } else {
      var s := lit + rest;
      assert Key(name)[0] == '@' && Key(name)[1] == '@';
      assert s[0] == lit[0] && (|lit| > 1 ==> s[1] == lit[1]) && (|lit| == 1 ==> s[1..] == rest);
      assert !(Key(name) <= s);
      assert s[1..] == lit[1..] + rest;
      assert NoDelimiter(lit[1..]) by {
        forall i, j | 0 <= i < |lit[1..]| && j == i + 1 && j < |lit[1..]|
          ensures lit[1..][i] != '@' || lit[1..][j] != '@'
        {
          assert lit[1..][i] == lit[i + 1] && lit[1..][j] == lit[j + 1];
        }
      }
      SkipLiteral(lit[1..], rest, name, value);
    }
  }

  lemma {:induction false} TakeKey(rest: string, name: string, value: string)
    ensures Replace(Key(name) + rest, Key(name), value) == value + Replace(rest, Key(name), value)
  {
    var s := Key(name) + rest;
    assert Key(name) <= s && s[|Key(name)|..] == rest;
  }

  /** Text before an `@` tells two names apart. */
  lemma {:induction false} NamePrefix(a: string, b: string, x: string, y: string)
    requires '@' !in a && '@' !in b && StartsWithAt(x) && StartsWithAt(y)
    ensures a + x <= b + y ==> a == b
  {
    if |a| < |b| {
      assert (b + y)[|a|] == b[|a|] && (a + x)[|a|] == x[0];
      assert b[|a|] in b;
    } else if |b| < |a| {
      assert (a + x)[|b|] == a[|b|] && (b + y)[|b|] == y[0];
      assert a[|b|] in a;
    } else {
      assert a == (a + x)[..|a|] && b == (b + y)[..|a|];
    }
  }

  /** The scan passes over the opening delimiter and the name of a hole of another name. */
  lemma {:induction false} SkipOpening(n: string, rest: string, name: string, value: string)
    requires IsName(n) && IsName(name) && n != name && StartsWithAt(rest)
    ensures Replace(DELIMITER + n + rest, Key(name), value) == DELIMITER + n + Replace(rest, Key(name), value)
  {
    var s := DELIMITER + n + rest;
    OtherKey(n, rest, name);
    assert s[1..][1..] == n + rest && s[0] == s[1..][0] == '@';
    assert NoDelimiter(n) && !EndsWithAt(n) by {
      assert forall i :: 0 <= i < |n| ==> n[i] in n;
    }
    SkipLiteral(n, rest, name, value);
    hide Key;
    assert [s[0]] + ([s[1..][0]] + (n + Replace(rest, Key(name), value)))
        == DELIMITER + n + Replace(rest, Key(name), value);
  }

  /** Neither the opening delimiter of a hole of another name nor its second half starts the key. */
  lemma {:induction false} OtherKey(n: string, rest: string, name: string)
    requires IsName(n) && IsName(name) && n != name && StartsWithAt(rest)
    ensures !(Key(name) <= DELIMITER + n + rest) && !(Key(name) <= (DELIMITER + n + rest)[1..])
  {
    var s := DELIMITER + n + rest;
    assert Key(name)[2..] == name + DELIMITER && s[2..] == n + rest;
    NamePrefix(name, n, DELIMITER, rest);
    assert n[0] in n && s[1..][1] == n[0] && Key(name)[1] == '@';
  }

  /** At a closing delimiter the key matches exactly when a literal spelling the name follows, then a hole. */
  lemma {:induction false} ClosingMatches(t: Template, name: string)
    requires Separated(t, true) && IsName(name)
    ensures Key(name) <= DELIMITER + Render(t) <==> t.Hole? && t.lit == name
  {
    var s := DELIMITER + Render(t);
    if t.Hole? && t.lit == name {
      assert s == Key(name) + (t.name + DELIMITER + Render(t.rest));
    } else {
      assert Key(name)[2..] == name + DELIMITER && s[2..] == Render(t);
      assert !(name + DELIMITER <= Render(t)) by {
        LiteralEnds(t, name);
      }
    }
  }

  /** The first `@@` of a rendered template is where its first literal ends. */
  lemma {:induction false} LiteralEnds(t: Template, name: string)
    requires Separated(t, true) && IsName(name)
    ensures name + DELIMITER <= Render(t) ==> t.Hole? && t.lit == name
  {
    var n := |name|;
    var text := Render(t);
    assert (name + DELIMITER)[n] == '@' && (name + DELIMITER)[n + 1] == '@';
    assert forall i :: 0 <= i < n ==> (name + DELIMITER)[i] == name[i] && name[i] in name;
    assert forall i :: 0 <= i < |t.lit| ==> text[i] == t.lit[i];
    if t.Hole? {
      assert text[|t.lit|] == Key(t.name)[0] == '@';
      assert n + 1 < |t.lit| ==> t.lit[n] != '@' || t.lit[n + 1] != '@';
      assert name + DELIMITER <= text ==> n == |t.lit|;
      assert name + DELIMITER <= text ==> t.lit == text[..n] == name;
    } else {
      assert n + 1 < |t.lit| ==> t.lit[n] != '@' || t.lit[n + 1] != '@';
    }
  }

  /** After a closing delimiter that does not match, the scan reaches the text behind it. */
  lemma {:induction false} SkipClosing(t: Template, name: string, value: string)
    requires Separated(t, true) && IsName(name) && !(t.Hole? && t.lit == name)
    ensures Replace(DELIMITER + Render(t), Key(name), value) == DELIMITER + Replace(Render(t), Key(name), value)
  {
    ClosingMatches(t, name);
    var s := DELIMITER + Render(t);
    assert s[1..] == "@" + Render(t);
    assert name[0] in name && Key(name)[1] == '@' && Key(name)[2] == name[0];
    assert |Render(t)| > 1 && Render(t)[0] == '@' ==> Render(t)[1] != name[0] by {
      if StartsWithAt(Render(t)) {
        assert t.Hole? && t.lit == "";
        assert Render(t)[1] == Key(t.name)[1];
      }
    }
    assert !(Key(name) <= s[1..]);
    assert s[1..][1..] == Render(t);
    assert [s[0]] + ([s[1..][0]] + Replace(Render(t), Key(name), value))
        == DELIMITER + Replace(Render(t), Key(name), value);
  }

  lemma {:induction false} RenderPrepend(text: string, t: Template)
    ensures Render(Prepend(text, t)) == text + Render(t)
  {
  }

  /** One hole, seen by the scan. */
  lemma {:induction false} ReplaceHole(t: Template, afterHole: bool, name: string, value: string)
    requires t.Hole? && Separated(t, afterHole) && IsName(name)
    ensures t.name == name ==>
      Replace(Render(t), Key(name), value) == t.lit + value + Replace(Render(t.rest), Key(name), value)
    ensures t.name != name ==>
      Replace(Render(t), Key(name), value)
      == t.lit + (DELIMITER + t.name + Replace(DELIMITER + Render(t.rest), Key(name), value))
  {
    hide Replace, Render;
    var tail := Key(t.name) + Render(t.rest);
    RenderHole(t);
    SkipLiteral(t.lit, tail, name, value);
    if t.name == name {
      TakeKey(Render(t.rest), name, value);
      hide Key;
      ConcatAssociative(t.lit, value, Replace(Render(t.rest), Key(name), value));
    } else {
      SkipOpening(t.name, DELIMITER + Render(t.rest), name, value);
      KeyThen(t.name, Render(t.rest));
    }
  }

  lemma {:induction false} RenderHole(t: Template)
    requires t.Hole?
    ensures Render(t) == t.lit + (Key(t.name) + Render(t.rest))
  {
    ConcatAssociative(t.lit, Key(t.name), Render(t.rest));
  }

  lemma {:induction false} KeyThen(name: string, rest: string)
    ensures Key(name) + rest == DELIMITER + name + (DELIMITER + rest)
  {
  }

  lemma {:induction false} FillHole(t: Template, name: string, value: string)
    requires t.Hole?
    ensures t.name == name ==>
      Render(Fill(t, name, value)) == t.lit + value + Render(Fill(t.rest, name, value))
    ensures t.name != name ==>
      Render(Fill(t, name, value))
      == t.lit + (DELIMITER + t.name + (DELIMITER + Render(Fill(t.rest, name, value))))
  {
    if t.name == name {
      RenderPrepend(t.lit + value, Fill(t.rest, name, value));
    } else {
      var filled := Render(Fill(t.rest, name, value));
      assert t.lit + Key(t.name) + filled == t.lit + (DELIMITER + t.name + (DELIMITER + filled));
    }
  }

  /** A replacement fills exactly the holes of its name if nothing else spells that name. */
  lemma {:induction false} ReplaceFills(t: Template, afterHole: bool, name: string, value: string)
    requires Separated(t, afterHole) && IsName(name) && NothingSpells(t, name)
    ensures Replace(Render(t), Key(name), value) == Render(Fill(t, name, value))
    decreases t
  {
    match t
    case End(lit) =>
      SkipLiteral(lit, "", name, value);
      assert lit + "" == lit;
    case Hole(lit, n, rest) =>
      ReplaceFills(rest, true, name, value);
      ReplaceHole(t, afterHole, name, value);
      if n != name {
        SkipClosing(rest, name, value);
      }
      FillHole(t, name, value);
      hide Replace, Render, Fill, Key;
  }

  /** A literal that spells the name is taken for a hole, and the result differs where its first delimiter was. */
  lemma {:induction false} SpelledNameIsReplaced(t: Template, name: string, value: string)
    requires Separated(t, true) && IsName(name) && !StartsWithAt(value) && t.Hole? && t.lit == name
    ensures !StartsWithAt(Replace(DELIMITER + Render(t), Key(name), value))
  {
    var behind := t.name + DELIMITER + Render(t.rest);
    assert DELIMITER + Render(t) == Key(name) + behind;
    TakeKey(behind, name, value);
    if value == "" {
      assert t.name[0] in t.name && behind[0] == t.name[0] && Key(name)[0] == '@';
      assert !(Key(name) <= behind);
    }
  }

  /** Exactly: one replacement fills the holes of its name and nothing else, or some literal spells the name. */
  lemma {:induction false} ReplaceFillsIff(t: Template, afterHole: bool, name: string, value: string)
    requires Separated(t, afterHole) && IsName(name) && !StartsWithAt(value)
    ensures Replace(Render(t), Key(name), value) == Render(Fill(t, name, value)) <==> NothingSpells(t, name)
    decreases t
  {
    if NothingSpells(t, name) {
      ReplaceFills(t, afterHole, name, value);
    } else {
      ReplaceHole(t, afterHole, name, value);
      FillHole(t, name, value);
      ReplaceFillsIff(t.rest, true, name, value);
      var after := Replace(Render(t.rest), Key(name), value);
      var filled := Render(Fill(t.rest, name, value));
      if t.name == name {
        SameTail(t.lit + value, after, filled);
      } else {
        hide Replace, Render, Fill, Key;
        var scanned := Replace(DELIMITER + Render(t.rest), Key(name), value);
        SameTail(DELIMITER + t.name, scanned, DELIMITER + filled);
        SameTail(t.lit, DELIMITER + t.name + scanned, DELIMITER + t.name + (DELIMITER + filled));
        if t.rest.Hole? && t.rest.lit == name {
          SpelledNameIsReplaced(t.rest, name, value);
          assert StartsWithAt(DELIMITER + filled);
        } else {
          SkipClosing(t.rest, name, value);
          SameTail(DELIMITER, after, filled);
        }
      }
    }
  }

  // ----- The whole chain -----

  datatype Binding = Binding(name: string, value: string)

  /** The chain of calls, first binding first. */
  function ReplaceChain(s: string, bindings: seq<Binding>): string
    decreases |bindings|
  {
    if bindings == [] then s
    else ReplaceChain(Replace(s, Key(bindings[0].name), bindings[0].value), bindings[1..])
  }

  predicate Substitutable(bindings: seq<Binding>) {
    forall i :: 0 <= i < |bindings| ==> IsName(bindings[i].name) && IsValue(bindings[i].value)
  }

  function FillChain(t: Template, bindings: seq<Binding>): Template
    decreases |bindings|
  {
    if bindings == [] then t
    else FillChain(Fill(t, bindings[0].name, bindings[0].value), bindings[1..])
  }

  /** At no stage of the chain does a literal between two holes spell the name about to be replaced. */
  predicate NeverSpelled(t: Template, bindings: seq<Binding>)
    decreases |bindings|
  {
    bindings != [] ==>
      && NothingSpells(t, bindings[0].name)
      && NeverSpelled(Fill(t, bindings[0].name, bindings[0].value), bindings[1..])
  }

  lemma {:induction false} JoinedLiteral(a: string, b: string)
    requires NoDelimiter(a) && NoDelimiter(b) && (!EndsWithAt(a) || !StartsWithAt(b))
    ensures NoDelimiter(a + b)
  {
    forall i, j | 0 <= i < |a + b| && j == i + 1 && j < |a + b|
      ensures (a + b)[i] != '@' || (a + b)[j] != '@'
    {
      if j < |a| {
        assert (a + b)[i] == a[i] && (a + b)[j] == a[j];
      } else if |a| <= i {
        assert (a + b)[i] == b[i - |a|] && (a + b)[j] == b[j - |a|];
      }
    }
  }

  lemma {:induction false} FillKeepsSeparated(t: Template, afterHole: bool, name: string, value: string)
    requires Separated(t, afterHole) && IsValue(value)
    ensures Separated(Fill(t, name, value), afterHole)
    decreases t
  {
    if t.Hole? {
      FillKeepsSeparated(t.rest, true, name, value);
      if t.name == name {
        var filled := Fill(t.rest, name, value);
        JoinedLiteral(t.lit, value);
        assert !EndsWithAt(t.lit + value);
        JoinedLiteral(t.lit + value, filled.lit);
        JoinedEnds(t.lit, value);
        JoinedEnds(t.lit + value, filled.lit);
        assert Prepend(t.lit + value, filled).lit == t.lit + value + filled.lit;
      }
    }
  }

  lemma {:induction false} JoinedEnds(a: string, b: string)
    ensures StartsWithAt(a + b) ==> StartsWithAt(a) || (a == "" && StartsWithAt(b))
    ensures EndsWithAt(a + b) ==> EndsWithAt(b) || (b == "" && EndsWithAt(a))
  {
    assert a != "" ==> (a + b)[0] == a[0];
    assert b != "" ==> (a + b)[|a + b| - 1] == b[|b| - 1];
  }

  lemma {:induction false} ChainFills(t: Template, bindings: seq<Binding>)
    requires Separated(t, false) && Substitutable(bindings) && NeverSpelled(t, bindings)
    ensures ReplaceChain(Render(t), bindings) == Render(FillChain(t, bindings))
    ensures Separated(FillChain(t, bindings), false)
    decreases |bindings|
  {
    if bindings != [] {
      var b := bindings[0];
      ReplaceFills(t, false, b.name, b.value);
      FillKeepsSeparated(t, false, b.name, b.value);
      ChainFills(Fill(t, b.name, b.value), bindings[1..]);
    }
  }

  // ----- Simultaneous substitution -----

  function Lookup(name: string, bindings: seq<Binding>): (value: string)
  {
    if bindings == [] then Key(name)
    else if bindings[0].name == name then bindings[0].value
    else Lookup(name, bindings[1..])
  }

  /** The first binding of a name counts. */
  lemma {:induction false} LookupAt(bindings: seq<Binding>, i: nat)
    requires i < |bindings| && forall j :: 0 <= j < i ==> bindings[j].name != bindings[i].name
    ensures Lookup(bindings[i].name, bindings) == bindings[i].value
    decreases i
  {
    if i > 0 {
      assert bindings[1..][i - 1] == bindings[i];
      assert forall j :: 0 <= j < i - 1 ==> bindings[1..][j] == bindings[j + 1];
      LookupAt(bindings[1..], i - 1);
    }
  }

  /** Each hole gets its value at once; literals and values are never looked at again. */
  function Simultaneous(t: Template, bindings: seq<Binding>): string {
    match t
    case End(lit) => lit
    case Hole(lit, name, rest) => lit + Lookup(name, bindings) + Simultaneous(rest, bindings)
  }

  predicate Covered(t: Template, bindings: seq<Binding>) {
    t.Hole? ==> (exists i :: 0 <= i < |bindings| && bindings[i].name == t.name) && Covered(t.rest, bindings)
  }

  lemma {:induction false} SimultaneousPrepend(text: string, t: Template, bindings: seq<Binding>)
    ensures Simultaneous(Prepend(text, t), bindings) == text + Simultaneous(t, bindings)
  {
  }

  lemma {:induction false} FillThenSimultaneous(t: Template, bindings: seq<Binding>)
    requires bindings != []
    ensures Simultaneous(Fill(t, bindings[0].name, bindings[0].value), bindings[1..]) == Simultaneous(t, bindings)
    decreases t
  {
    if t.Hole? {
      var b := bindings[0];
      FillThenSimultaneous(t.rest, bindings);
      if t.name == b.name {
        SimultaneousPrepend(t.lit + b.value, Fill(t.rest, b.name, b.value), bindings[1..]);
      }
    }
  }

  lemma {:induction false} FillChainIsSimultaneous(t: Template, bindings: seq<Binding>)
    ensures Render(FillChain(t, bindings)) == Simultaneous(t, bindings)
    decreases |bindings|
  {
    if bindings == [] {
      NothingBound(t);
    } else {
      FillChainIsSimultaneous(Fill(t, bindings[0].name, bindings[0].value), bindings[1..]);
      FillThenSimultaneous(t, bindings);
    }
  }

  lemma {:induction false} NothingBound(t: Template)
    ensures Render(t) == Simultaneous(t, [])
    decreases t
  {
    if t.Hole? { NothingBound(t.rest); }
  }

  lemma {:induction false} FillCovers(t: Template, bindings: seq<Binding>)
    requires bindings != [] && Covered(t, bindings)
    ensures Covered(Fill(t, bindings[0].name, bindings[0].value), bindings[1..])
    decreases t
  {
    if t.Hole? {
      FillCovers(t.rest, bindings);
      var i :| 0 <= i < |bindings| && bindings[i].name == t.name;
      if i > 0 {
        assert bindings[1..][i - 1].name == t.name;
      }
    }
  }

  lemma {:induction false} CoveredLeavesNoHole(t: Template, bindings: seq<Binding>)
    requires Covered(t, bindings)
    ensures FillChain(t, bindings).End?
    decreases |bindings|
  {
    if bindings != [] {
      FillCovers(t, bindings);
      CoveredLeavesNoHole(Fill(t, bindings[0].name, bindings[0].value), bindings[1..]);
    }
  }

  /**
   * The chain of replacements is one simultaneous substitution and, when every hole has a binding,
   * leaves no delimiter.
   */
  lemma {:induction false} ChainIsSimultaneous(t: Template, bindings: seq<Binding>)
    requires Separated(t, false) && Substitutable(bindings) && NeverSpelled(t, bindings)
    ensures ReplaceChain(Render(t), bindings) == Simultaneous(t, bindings)
    ensures Covered(t, bindings) ==> NoDelimiter(ReplaceChain(Render(t), bindings))
  {
    ChainFills(t, bindings);
    FillChainIsSimultaneous(t, bindings);
    if Covered(t, bindings) {
      CoveredLeavesNoHole(t, bindings);
    }
  }

  // ----- Names and other text -----

  /** The names in use are made of capital letters and underscores. */
  predicate IsNameCharacter(c: char) {
    'A' <= c <= 'Z' || c == '_'
  }

  predicate IsPlaceholder(name: string) {
    name != "" && forall k :: 0 <= k < |name| ==> IsNameCharacter(name[k])
  }

  predicate ArePlaceholders(bindings: seq<Binding>) {
    forall i :: 0 <= i < |bindings| ==> IsPlaceholder(bindings[i].name)
  }

  /** Some character of `s` occurs in no name. */
  predicate HasForeign(s: string, names: char -> bool) {
    exists i :: 0 <= i < |s| && !names(s[i])
  }

  /** Every character of every name is in the alphabet. */
  predicate NamesWithin(bindings: seq<Binding>, names: char -> bool) {
    forall i, k :: 0 <= i < |bindings| && 0 <= k < |bindings[i].name| ==> names(bindings[i].name[k])
  }

  /** The order of the calls is irrelevant: only what each name is bound to matters. */
  lemma {:induction false} OrderIsIrrelevant(t: Template, bindings: seq<Binding>, others: seq<Binding>)
    requires Separated(t, false)
    requires Substitutable(bindings) && NeverSpelled(t, bindings)
    requires Substitutable(others) && NeverSpelled(t, others)
    requires forall name :: Lookup(name, bindings) == Lookup(name, others)
    ensures ReplaceChain(Render(t), bindings) == ReplaceChain(Render(t), others)
  {
    ChainIsSimultaneous(t, bindings);
    ChainIsSimultaneous(t, others);
    SameLookups(t, bindings, others);
  }

  lemma {:induction false} SameLookups(t: Template, bindings: seq<Binding>, others: seq<Binding>)
    requires forall name :: Lookup(name, bindings) == Lookup(name, others)
    ensures Simultaneous(t, bindings) == Simultaneous(t, others)
    decreases t
  {
    if t.Hole? { SameLookups(t.rest, bindings, others); }
  }
}
