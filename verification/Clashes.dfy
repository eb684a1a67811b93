/**
 * When a chain of replacements goes wrong on a template whose literals are allowed to spell names.
 *
 * The values are those no name can span: each has a character that occurs in no name.  Then the chain
 * is the simultaneous substitution exactly if no literal between two holes spells a name that is
 * replaced while both holes are still open.  A literal that is taken for a name leaves an odd number of
 * delimiters on each side of the value put there, and later calls take delimiters away in pairs only.
 */
module Clashes {
  import opened Placeholders
  import opened Replacing
  import opened Text

  // ----- What a caller can check -----

  predicate ForeignValues(bindings: seq<Binding>, names: char -> bool) {
    forall i :: 0 <= i < |bindings| ==> HasForeign(bindings[i].value, names)
  }

  /** Between holes `left` and `right`, `lit` is replaced as a name before either hole is filled. */
  predicate Clash(left: string, lit: string, right: string, bindings: seq<Binding>) {
    && bindings != []
    && bindings[0].name != left
    && (bindings[0].name == lit || (bindings[0].name != right && Clash(left, lit, right, bindings[1..])))
  }

  predicate ClashFree(t: Template, bindings: seq<Binding>) {
    t.Hole? ==>
      && (t.rest.Hole? ==> !Clash(t.name, t.rest.lit, t.rest.name, bindings))
      && ClashFree(t.rest, bindings)
  }

  lemma {:induction false} ForeignIsNoClash(left: string, lit: string, right: string, bindings: seq<Binding>,
                                            names: char -> bool)
    requires NamesWithin(bindings, names) && HasForeign(lit, names)
    ensures !Clash(left, lit, right, bindings)
    decreases |bindings|
  {
    if bindings != [] {
      var k :| 0 <= k < |lit| && !names(lit[k]);
      assert bindings[0].name != lit;
      ForeignIsNoClash(left, lit, right, bindings[1..], names);
    }
  }

  lemma {:induction false} ForeignInside(before: string, value: string, after: string, names: char -> bool)
    requires HasForeign(value, names)
    ensures HasForeign(before + value + after, names)
  {
    var k :| 0 <= k < |value| && !names(value[k]);
    assert (before + value + after)[|before| + k] == value[k];
  }

  /** One stage of the chain decides the clashes of its own name and keeps all others. */
  lemma {:induction false} ClashFreeStep(t: Template, bindings: seq<Binding>, names: char -> bool)
    requires bindings != [] && NamesWithin(bindings, names) && ForeignValues(bindings, names)
    ensures ClashFree(t, bindings) <==>
      NothingSpells(t, bindings[0].name) && ClashFree(Fill(t, bindings[0].name, bindings[0].value), bindings[1..])
    decreases t
  {
    if t.Hole? {
      var b := bindings[0];
      ClashFreeStep(t.rest, bindings, names);
      var filled := Fill(t.rest, b.name, b.value);
      assert HasForeign(b.value, names);
      PrependClashFree(t.lit + b.value, filled, bindings[1..]);
      if t.rest.Hole? && t.rest.name == b.name && filled.Hole? {
        FilledRest(t.rest, b.name, b.value);
        ForeignInside(t.rest.lit, b.value, Fill(t.rest.rest, b.name, b.value).lit, names);
        ForeignIsNoClash(t.name, filled.lit, filled.name, bindings[1..], names);
      }
    }
  }

  lemma {:induction false} PrependClashFree(text: string, t: Template, bindings: seq<Binding>)
    ensures ClashFree(Prepend(text, t), bindings) == ClashFree(t, bindings)
  {
  }

  lemma {:induction false} FilledRest(t: Template, name: string, value: string)
    requires t.Hole? && t.name == name
    ensures Fill(t, name, value).lit == t.lit + value + Fill(t.rest, name, value).lit
  {
  }

  /** The stages of the chain go well exactly if the template is free of clashes. */
  lemma {:induction false} NeverSpelledIff(t: Template, bindings: seq<Binding>, names: char -> bool)
    requires NamesWithin(bindings, names) && ForeignValues(bindings, names)
    ensures NeverSpelled(t, bindings) <==> ClashFree(t, bindings)
    decreases |bindings|
  {
    if bindings == [] {
      NoBindingsNoClash(t);
    } else {
      ClashFreeStep(t, bindings, names);
      NeverSpelledIff(Fill(t, bindings[0].name, bindings[0].value), bindings[1..], names);
    }
  }

  lemma {:induction false} NoBindingsNoClash(t: Template)
    ensures ClashFree(t, [])
    decreases t
  {
    if t.Hole? { NoBindingsNoClash(t.rest); }
  }

  // ----- Counting delimiters -----

  /** The delimiters of `s`, two by two from the left; `pending` says that a single `@` precedes `s`. */
  function Delimiters(s: string, pending: bool): nat {
    if s == "" then 0
    else if s[0] != '@' then Delimiters(s[1..], false)
    else if pending then 1 + Delimiters(s[1..], false)
    else Delimiters(s[1..], true)
  }

  lemma {:induction false} NoneBefore(s: string, rest: string, pending: bool)
    requires NoDelimiter(s) && s != "" && !StartsWithAt(s) && !EndsWithAt(s)
    ensures Delimiters(s + rest, pending) == Delimiters(rest, false)
  {
    assert (s + rest)[1..] == s[1..] + rest;
    NoneInside(s, rest, 1);
  }

  /** A single `@` within `s` is followed by another character of `s`. */
  lemma {:induction false} NoneInside(s: string, rest: string, i: nat)
    requires NoDelimiter(s) && !EndsWithAt(s) && i <= |s|
    ensures Delimiters(s[i..] + rest, false) == Delimiters(rest, false)
    decreases |s| - i
  {
    if i == |s| {
      assert s[i..] + rest == rest;
    } else {
      assert (s[i..] + rest)[1..] == s[i + 1..] + rest;
      if s[i] == '@' {
        assert i + 1 < |s| && s[i + 1] != '@';
        assert (s[i + 1..] + rest)[1..] == s[i + 2..] + rest && (s[i + 1..] + rest)[0] == s[i + 1];
        NoneInside(s, rest, i + 2);
      } else {
        NoneInside(s, rest, i + 1);
      }
    }
  }

  lemma {:induction false} OneMore(rest: string)
    ensures Delimiters(DELIMITER + rest, false) == 1 + Delimiters(rest, false)
  {
    assert (DELIMITER + rest)[1..] == "@" + rest && ("@" + rest)[1..] == rest;
  }

  lemma {:induction false} NameHasNone(name: string)
    requires IsName(name)
    ensures NoDelimiter(name) && !StartsWithAt(name) && !EndsWithAt(name)
  {
    assert forall i :: 0 <= i < |name| ==> name[i] in name;
  }

  lemma {:induction false} KeyHasTwo(name: string, rest: string, pending: bool)
    requires IsName(name)
    ensures Delimiters(Key(name) + rest, pending) == 2 + Delimiters(rest, false)
  {
    NameHasNone(name);
    var behind := name + (DELIMITER + rest);
    assert Key(name) + rest == DELIMITER + behind;
    assert (DELIMITER + behind)[1..] == "@" + behind && ("@" + behind)[1..] == behind;
    assert behind[0] == name[0] && behind[1..] == name[1..] + (DELIMITER + rest);
    NoneBefore(name, DELIMITER + rest, true);
    NoneBefore(name, DELIMITER + rest, false);
    OneMore(rest);
  }

  /** A replacement takes delimiters away two at a time. */
  lemma {:induction false} ParityKept(s: string, name: string, value: string, pending: bool)
    requires IsName(name) && IsValue(value) && value != ""
    ensures Delimiters(Replace(s, Key(name), value), pending) % 2 == Delimiters(s, pending) % 2
    decreases |s|
  {
    if s == "" {
    } else if Key(name) <= s {
      var rest := s[|Key(name)|..];
      assert s == Key(name) + rest;
      KeyHasTwo(name, rest, pending);
      NoneBefore(value, Replace(rest, Key(name), value), pending);
      ParityKept(rest, name, value, false);
    } else {
      var replaced := Replace(s[1..], Key(name), value);
      assert ([s[0]] + replaced)[1..] == replaced;
      ParityKept(s[1..], name, value, s[0] == '@' && !pending);
    }
  }

  lemma {:induction false} ChainKeepsParity(s: string, bindings: seq<Binding>, names: char -> bool)
    requires Substitutable(bindings) && ForeignValues(bindings, names)
    ensures Delimiters(ReplaceChain(s, bindings), false) % 2 == Delimiters(s, false) % 2
    decreases |bindings|
  {
    if bindings != [] {
      var b := bindings[0];
      assert HasForeign(b.value, names);
      ParityKept(s, b.name, b.value, false);
      ChainKeepsParity(Replace(s, Key(b.name), b.value), bindings[1..], names);
    }
  }

  lemma {:induction false} NoDelimiterCountsNone(s: string, pending: bool)
    requires NoDelimiter(s) && (pending ==> !StartsWithAt(s))
    ensures Delimiters(s, pending) == 0
    decreases |s|
  {
    if s != "" {
      assert forall i :: 0 <= i < |s[1..]| ==> s[1..][i] == s[i + 1];
      NoDelimiterCountsNone(s[1..], s[0] == '@' && !pending);
    }
  }

  // ----- Texts no name spans -----

  /** A character of no name, with its neighbours if it is a single `@`. */
  predicate IsBarrier(m: string, names: char -> bool) {
    || (|m| == 1 && m[0] != '@' && !names(m[0]))
    || (|m| == 3 && m[0] != '@' && m[1] == '@' && m[2] != '@')
  }

  lemma {:induction false} BarrierIn(value: string, names: char -> bool) returns (a: string, m: string, b: string)
    requires IsValue(value) && HasForeign(value, names)
    ensures value == a + m + b && IsBarrier(m, names)
    ensures NoDelimiter(a)
  {
    var k :| 0 <= k < |value| && !names(value[k]);
    if value[k] == '@' {
      a, m, b := value[..k - 1], value[k - 1..k + 2], value[k + 2..];
    } else {
      a, m, b := value[..k], [value[k]], value[k + 1..];
    }
  }

  /** No key starts in front of a barrier and ends in it or behind it, or starts in it. */
  lemma {:induction false} NoKeyAcross(x: string, m: string, y: string, name: string, names: char -> bool)
    requires IsName(name) && IsBarrier(m, names) && (forall k :: 0 <= k < |name| ==> names(name[k]))
    ensures x != "" ==> (Key(name) <= x + m + y <==> Key(name) <= x)
    ensures x == "" ==> forall i :: 0 <= i < |m| ==> !(Key(name) <= (m + y)[i..])
  {
    var n, key := |name|, Key(name);
    assert key[0] == '@' && key[1] == '@' && key[n + 2] == '@' && key[n + 3] == '@';
    assert forall i :: 2 <= i < n + 2 ==> key[i] == name[i - 2] && key[i] in name;
    var s := x + m + y;
    if x == "" {
      forall i | 0 <= i < |m| ensures !(key <= (m + y)[i..]) {
        assert (m + y)[i..] != "" && (m + y)[i..][0] == m[i];
        assert |m| == 3 && i == 1 ==> (m + y)[i..][1] == m[2];
      }
    } else if |key| <= |x| {
      assert s[..|key|] == x[..|key|];
    } else {
      assert s[|x|] == m[0];
      assert |m| == 3 ==> s[|x| + 1] == '@' && s[|x| + 2] == m[2];
    }
  }

  /** A replacement acts on the text before and behind a barrier separately. */
  lemma {:induction false} SplitAtBarrier(x: string, m: string, y: string, name: string, value: string,
                                          names: char -> bool)
    requires IsName(name) && IsBarrier(m, names) && (forall k :: 0 <= k < |name| ==> names(name[k]))
    ensures Replace(x + m + y, Key(name), value) == Replace(x, Key(name), value) + m + Replace(y, Key(name), value)
    decreases |x|
  {
    hide IsBarrier, Key, Replace;
    NoKeyAcross(x, m, y, name, names);
    var key, s := Key(name), x + m + y;
    ReplaceStep(x, key, value);
    if x == "" {
      PassOver(m, y, 0, key, value);
      assert s == m[0..] + y && m[0..] == m;
      assert "" + m + Replace(y, key, value) == m + Replace(y, key, value);
    } else {
      ReplaceStep(s, key, value);
      var skipped := if key <= x then |key| else 1;
      var put, rest := if key <= x then value else [x[0]], x[skipped..];
      SkipFront(x, m, y, skipped);
      SplitAtBarrier(rest, m, y, name, value, names);
      Regroup(put, Replace(rest, key, value), m, Replace(y, key, value));
      hide *;
    }
  }

  lemma ReplaceStep(s: string, key: string, value: string)
    requires key != ""
    ensures Replace(s, key, value) ==
      if s == "" then ""
      else if key <= s then value + Replace(s[|key|..], key, value)
      else [s[0]] + Replace(s[1..], key, value)
  {
  }

  lemma SkipFront(x: string, m: string, y: string, n: nat)
    requires 0 < n <= |x|
    ensures (x + m + y)[n..] == x[n..] + m + y && (x + m + y)[0] == x[0]
  {
  }

  lemma Regroup(a: string, b: string, c: string, d: string)
    ensures a + (b + c + d) == a + b + c + d
  {
  }

  lemma {:induction false} PassOver(m: string, y: string, i: nat, key: string, value: string)
    requires key != "" && i <= |m| && forall k :: i <= k < |m| ==> !(key <= (m + y)[k..])
    ensures Replace(m[i..] + y, key, value) == m[i..] + Replace(y, key, value)
    decreases |m| - i
  {
    if i == |m| {
      assert m[i..] + y == y;
    } else {
      var s := m[i..] + y;
      assert s == (m + y)[i..] && s[1..] == m[i + 1..] + y && s[0] == m[i];
      PassOver(m, y, i + 1, key, value);
      assert m[i..] == [m[i]] + m[i + 1..];
    }
  }

  lemma {:induction false} ChainSplits(x: string, m: string, y: string, bindings: seq<Binding>, names: char -> bool)
    requires Substitutable(bindings) && NamesWithin(bindings, names) && IsBarrier(m, names)
    ensures ReplaceChain(x + m + y, bindings) == ReplaceChain(x, bindings) + m + ReplaceChain(y, bindings)
    decreases |bindings|
  {
    if bindings != [] {
      var b := bindings[0];
      SplitAtBarrier(x, m, y, b.name, b.value, names);
      ChainSplits(Replace(x, Key(b.name), b.value), m, Replace(y, Key(b.name), b.value), bindings[1..], names);
    }
  }

  // ----- A clash is never repaired -----

  /** A literal taken for a name leaves an odd number of delimiters in front of the value put there. */
  lemma {:induction false} SpelledLeavesStray(t: Template, afterHole: bool, name: string, a: string, m: string,
                                              b: string) returns (p: string, q: string)
    requires Separated(t, afterHole) && IsName(name) && !NothingSpells(t, name)
    requires IsValue(a + m + b) && NoDelimiter(a)
    ensures Replace(Render(t), Key(name), a + m + b) == p + m + q
    ensures Delimiters(p, false) % 2 == 1
    decreases t
  {
    if t.name != name && t.rest.Hole? && t.rest.lit == name {
      p, q := StrayHere(t, afterHole, name, a, m, b);
    } else {
      p, q := SpelledLeavesStray(t.rest, true, name, a, m, b);
      p := StrayLater(t, afterHole, name, a, m, b, p, q);
    }
  }

  lemma {:induction false} StrayHere(t: Template, afterHole: bool, name: string, a: string, m: string, b: string)
    returns (p: string, q: string)
    requires Separated(t, afterHole) && IsName(name) && NoDelimiter(a)
    requires t.Hole? && t.name != name && t.rest.Hole? && t.rest.lit == name
    ensures Replace(Render(t), Key(name), a + m + b) == p + m + q
    ensures Delimiters(p, false) % 2 == 1
  {
    var value, behind := a + m + b, t.rest.name + DELIMITER + Render(t.rest.rest);
    SpelledText(t.rest, behind);
    hide Replace, Render, Key, Delimiters, NoDelimiter;
    ReplaceHole(t, afterHole, name, value);
    TakeKey(behind, name, value);
    var after := Replace(behind, Key(name), value);
    p, q := t.lit + (DELIMITER + (t.name + a)), b + after;
    StrayInFront(t.lit, t.name, a);
    NoDelimiterCountsNone(a, false);
    hide *;
    Regather(t.lit, t.name, a, m, b, after);
  }

  lemma {:induction false} Regather(lit: string, name: string, a: string, m: string, b: string, after: string)
    ensures lit + (DELIMITER + name + (a + m + b + after)) == lit + (DELIMITER + (name + a)) + m + (b + after)
  {
    ConcatAssociative(a + m, b, after);
    Regroup(DELIMITER + name, a, m, b + after);
    ConcatAssociative(DELIMITER, name, a);
    Regroup(lit, DELIMITER + (name + a), m, b + after);
  }

  lemma {:induction false} SpelledText(t: Template, behind: string)
    requires t.Hole? && behind == t.name + DELIMITER + Render(t.rest)
    ensures DELIMITER + Render(t) == Key(t.lit) + behind
  {
  }

  lemma {:induction false} StrayLater(t: Template, afterHole: bool, name: string, a: string, m: string, b: string,
                                      p': string, q: string) returns (p: string)
    requires Separated(t, afterHole) && IsName(name) && IsValue(a + m + b)
    requires t.Hole? && !(t.name != name && t.rest.Hole? && t.rest.lit == name)
    requires Replace(Render(t.rest), Key(name), a + m + b) == p' + m + q
    ensures Replace(Render(t), Key(name), a + m + b) == p + m + q
    ensures Delimiters(p, false) % 2 == Delimiters(p', false) % 2
  {
    hide Replace, Render, Key, NothingSpells, Delimiters;
    var value := a + m + b;
    ReplaceHole(t, afterHole, name, value);
    if t.name == name {
      p := t.lit + (value + p');
      PassLiteral(t.lit, value + p');
      PassLiteral(value, p');
      Regroup(t.lit + value, p', m, q);
      ConcatAssociative(t.lit, value, p');
    } else {
      SkipClosing(t.rest, name, value);
      p := t.lit + (DELIMITER + (t.name + (DELIMITER + p')));
      StrayInFront(t.lit, t.name, DELIMITER + p');
      OneMore(p');
      hide *;
      StrayBehind(t.lit, t.name, p', m, q);
    }
  }

  lemma StrayBehind(lit: string, name: string, p: string, m: string, q: string)
    ensures lit + (DELIMITER + name + (DELIMITER + (p + m + q)))
         == lit + (DELIMITER + (name + (DELIMITER + p))) + m + q
  {
  }

  lemma {:induction false} PassLiteral(lit: string, rest: string)
    requires NoDelimiter(lit) && !EndsWithAt(lit)
    ensures Delimiters(lit + rest, false) == Delimiters(rest, false)
  {
    assert lit[0..] == lit;
    NoneInside(lit, rest, 0);
  }

  lemma {:induction false} StrayInFront(lit: string, name: string, rest: string)
    requires NoDelimiter(lit) && !EndsWithAt(lit) && IsName(name)
    ensures Delimiters(lit + (DELIMITER + (name + rest)), false) == 1 + Delimiters(rest, false)
  {
    NameHasNone(name);
    PassLiteral(lit, DELIMITER + (name + rest));
    OneMore(name + rest);
    PassLiteral(name, rest);
  }

  /** Once a literal was taken for a name, an odd number of delimiters stays in front of some barrier. */
  lemma {:induction false} ClashLeavesStray(t: Template, bindings: seq<Binding>, names: char -> bool)
    returns (p: string, m: string, q: string)
    requires Separated(t, false) && Substitutable(bindings) && NamesWithin(bindings, names)
    requires ForeignValues(bindings, names) && !NeverSpelled(t, bindings)
    ensures ReplaceChain(Render(t), bindings) == p + m + q && IsBarrier(m, names)
    ensures Delimiters(p, false) % 2 == 1
    decreases |bindings|
  {
    var b := bindings[0];
    if NothingSpells(t, b.name) {
      ReplaceFills(t, false, b.name, b.value);
      FillKeepsSeparated(t, false, b.name, b.value);
      p, m, q := ClashLeavesStray(Fill(t, b.name, b.value), bindings[1..], names);
    } else {
      assert HasForeign(b.value, names);
      var front, middle, back := BarrierIn(b.value, names);
      p, q := SpelledLeavesStray(t, false, b.name, front, middle, back);
      ChainSplits(p, middle, q, bindings[1..], names);
      ChainKeepsParity(p, bindings[1..], names);
      p, m, q := ReplaceChain(p, bindings[1..]), middle, ReplaceChain(q, bindings[1..]);
    }
  }

  lemma {:induction false} ClashLeavesDelimiter(t: Template, bindings: seq<Binding>, names: char -> bool)
    requires Separated(t, false) && Substitutable(bindings) && NamesWithin(bindings, names)
    requires ForeignValues(bindings, names) && !NeverSpelled(t, bindings)
    ensures !NoDelimiter(ReplaceChain(Render(t), bindings))
  {
    var p, m, q := ClashLeavesStray(t, bindings, names);
    StrayRemains(p, m + q);
    ConcatAssociative(p, m, q);
  }

  lemma {:induction false} StrayRemains(p: string, rest: string)
    requires Delimiters(p, false) % 2 == 1
    ensures !NoDelimiter(p + rest)
  {
    if NoDelimiter(p + rest) {
      assert forall i :: 0 <= i < |p| ==> (p + rest)[i] == p[i];
      NoDelimiterCountsNone(p, false);
    }
  }

  /** Every character of every hole's name is in the alphabet, whether the hole is bound or not. */
  predicate HolesWithin(t: Template, names: char -> bool) {
    t.Hole? ==> (forall k :: 0 <= k < |t.name| ==> names(t.name[k])) && HolesWithin(t.rest, names)
  }

  lemma {:induction false} FillHolesWithin(t: Template, name: string, value: string, names: char -> bool)
    requires HolesWithin(t, names)
    ensures HolesWithin(Fill(t, name, value), names)
    decreases t
  {
    if t.Hole? {
      FillHolesWithin(t.rest, name, value, names);
    }
  }

  lemma {:induction false} FillChainHolesWithin(t: Template, bindings: seq<Binding>, names: char -> bool)
    requires HolesWithin(t, names)
    ensures HolesWithin(FillChain(t, bindings), names)
    decreases |bindings|
  {
    if bindings != [] {
      FillHolesWithin(t, bindings[0].name, bindings[0].value, names);
      FillChainHolesWithin(Fill(t, bindings[0].name, bindings[0].value), bindings[1..], names);
    }
  }

  /** A barrier does not start inside a key. */
  lemma {:induction false} NoBarrierInKey(name: string, j: nat, m: string, rest: string, names: char -> bool)
    requires IsName(name) && (forall k :: 0 <= k < |name| ==> names(name[k])) && IsBarrier(m, names)
    requires j < |Key(name)|
    ensures !(m <= (Key(name) + rest)[j..])
  {
    var key, s := Key(name), Key(name) + rest;
    assert forall i :: 0 <= i < |s[j..]| ==> s[j..][i] == s[j + i];
    assert forall i :: 2 <= i < |name| + 2 ==> s[i] == key[i] == name[i - 2] && name[i - 2] in name;
    assert s[0] == '@' && s[1] == '@' && s[|name| + 2] == '@' && s[|name| + 3] == '@';
  }

  /** In a rendered template the delimiters in front of a barrier come in pairs. */
  lemma {:induction false} PairsBeforeBarrier(t: Template, afterHole: bool, names: char -> bool, p: string, m: string,
                                              q: string)
    requires Separated(t, afterHole) && HolesWithin(t, names) && IsBarrier(m, names)
    requires Render(t) == p + m + q
    ensures Delimiters(p, false) % 2 == 0
    decreases t
  {
    var lit := t.lit;
    if |p| <= |lit| {
      LiteralFirst(t);
      assert p == Render(t)[..|p|] == lit[..|p|];
      NoDelimiterCountsNone(p, false);
    } else if t.Hole? {
      var n := |lit| + |Key(t.name)|;
      RenderHole(t);
      if |p| < n {
        BarrierBehind(lit, Key(t.name) + Render(t.rest), p, m, q);
        NoBarrierInKey(t.name, |p| - |lit|, m, Render(t.rest), names);
      } else {
        PairsSplit(lit, Key(t.name), Render(t.rest), p, m, q);
        PairsBeforeBarrier(t.rest, true, names, p[n..], m, q);
        hide Key, Render, Delimiters;
        PassLiteral(lit, Key(t.name) + p[n..]);
        KeyHasTwo(t.name, p[n..], false);
      }
    }
  }

  lemma {:induction false} LiteralFirst(t: Template)
    ensures t.lit <= Render(t)
  {
  }

  lemma {:induction false} BarrierBehind(lit: string, behind: string, p: string, m: string, q: string)
    requires lit + behind == p + m + q && |lit| <= |p|
    ensures m <= behind[|p| - |lit|..]
  {
    assert behind[|p| - |lit|..] == (lit + behind)[|p|..] == (p + m + q)[|p|..] == m + q;
  }

  lemma {:induction false} PairsSplit(lit: string, key: string, behind: string, p: string, m: string, q: string)
    requires lit + (key + behind) == p + m + q && |lit| + |key| <= |p|
    ensures p == lit + (key + p[|lit| + |key|..]) && behind == p[|lit| + |key|..] + m + q
  {
    var n, s := |lit| + |key|, p + m + q;
    assert s[..n] == lit + key && s[..n] == p[..n] && p == p[..n] + p[n..];
    assert s[n..] == behind && s[n..] == p[n..] + m + q;
  }

  // ----- Main results -----

  /**
   * The chain is one simultaneous substitution if and only if the template is free of clashes; and, when
   * all holes are bound, if and only if no delimiter is left.
   */
  lemma {:induction false} ChainIff(t: Template, bindings: seq<Binding>, names: char -> bool)
    requires Separated(t, false) && HolesWithin(t, names)
    requires Substitutable(bindings) && NamesWithin(bindings, names) && ForeignValues(bindings, names)
    ensures ReplaceChain(Render(t), bindings) == Simultaneous(t, bindings) <==> ClashFree(t, bindings)
    ensures Covered(t, bindings) ==>
      (ReplaceChain(Render(t), bindings) == Simultaneous(t, bindings)
       <==> NoDelimiter(ReplaceChain(Render(t), bindings)))
  {
    NeverSpelledIff(t, bindings, names);
    if NeverSpelled(t, bindings) {
      ChainIsSimultaneous(t, bindings);
    } else {
      ClashIsSeen(t, bindings, names);
    }
    if Covered(t, bindings) {
      SimultaneousHasNone(t, bindings);
      if !NeverSpelled(t, bindings) { ClashLeavesDelimiter(t, bindings, names); }
    }
  }

  lemma {:induction false} ClashIsSeen(t: Template, bindings: seq<Binding>, names: char -> bool)
    requires Separated(t, false) && HolesWithin(t, names) && !NeverSpelled(t, bindings)
    requires Substitutable(bindings) && NamesWithin(bindings, names) && ForeignValues(bindings, names)
    ensures ReplaceChain(Render(t), bindings) != Simultaneous(t, bindings)
  {
    var p, m, q := ClashLeavesStray(t, bindings, names);
    FillChainIsSimultaneous(t, bindings);
    FillChainSeparated(t, bindings);
    FillChainHolesWithin(t, bindings, names);
    if Render(FillChain(t, bindings)) == p + m + q {
      PairsBeforeBarrier(FillChain(t, bindings), false, names, p, m, q);
      assert false;
    }
  }

  lemma {:induction false} SimultaneousHasNone(t: Template, bindings: seq<Binding>)
    requires Separated(t, false) && Covered(t, bindings) && Substitutable(bindings)
    ensures NoDelimiter(Simultaneous(t, bindings))
  {
    FillChainSeparated(t, bindings);
    FillChainIsSimultaneous(t, bindings);
    CoveredLeavesNoHole(t, bindings);
  }

  lemma {:induction false} FillChainSeparated(t: Template, bindings: seq<Binding>)
    requires Separated(t, false) && Substitutable(bindings)
    ensures Separated(FillChain(t, bindings), false)
    decreases |bindings|
  {
    if bindings != [] {
      FillKeepsSeparated(t, false, bindings[0].name, bindings[0].value);
      FillChainSeparated(Fill(t, bindings[0].name, bindings[0].value), bindings[1..]);
    }
  }

  /** No literal between two holes spells any of the names. */
  predicate NoLiteralIsName(t: Template, afterHole: bool, bindings: seq<Binding>) {
    t.Hole? ==>
      && (afterHole ==> forall i :: 0 <= i < |bindings| ==> t.lit != bindings[i].name)
      && NoLiteralIsName(t.rest, true, bindings)
  }

  /** Literals that spell no name cannot clash, whichever holes are bound. */
  lemma {:induction false} UnspelledIsSimultaneous(t: Template, bindings: seq<Binding>, names: char -> bool)
    requires Separated(t, false) && NoLiteralIsName(t, false, bindings)
    requires Substitutable(bindings) && NamesWithin(bindings, names) && ForeignValues(bindings, names)
    ensures ReplaceChain(Render(t), bindings) == Simultaneous(t, bindings)
    ensures Covered(t, bindings) ==> NoDelimiter(ReplaceChain(Render(t), bindings))
  {
    UnspelledIsClashFree(t, false, bindings);
    NeverSpelledIff(t, bindings, names);
    ChainIsSimultaneous(t, bindings);
  }

  lemma {:induction false} UnspelledIsClashFree(t: Template, afterHole: bool, bindings: seq<Binding>)
    requires NoLiteralIsName(t, afterHole, bindings)
    ensures ClashFree(t, bindings)
    decreases t
  {
    if t.Hole? {
      UnspelledIsClashFree(t.rest, true, bindings);
      if t.rest.Hole? {
        UnspelledIsNoClash(t.name, t.rest.lit, t.rest.name, bindings);
      }
    }
  }

  lemma {:induction false} UnspelledIsNoClash(left: string, lit: string, right: string, bindings: seq<Binding>)
    requires forall i :: 0 <= i < |bindings| ==> lit != bindings[i].name
    ensures !Clash(left, lit, right, bindings)
    decreases |bindings|
  {
    if bindings != [] {
      UnspelledIsNoClash(left, lit, right, bindings[1..]);
    }
  }

  // ----- Why values must have a character of no name -----

  /**
   * Without that, values free of `@` and literals that spell no name are not enough: a value can complete
   * a name.  Here "T" + "EX" + "T" becomes the name TEXT between two other holes, and is replaced.
   */
  lemma {:induction false} ValueCompletesAName()
    ensures
      var t := Hole("", "BORDER", Hole("T", "RADIUS", Hole("T", "ERROR", End(""))));
      var bindings := [Binding("RADIUS", "EX"), Binding("TEXT", "#102030")];
      && Separated(t, false) && Substitutable(bindings) && NoLiteralIsName(t, false, bindings)
      && ReplaceChain(Render(t), bindings) != Simultaneous(t, bindings)
  {
    var t := Hole("", "BORDER", Hole("T", "RADIUS", Hole("T", "ERROR", End(""))));
    var filled := Hole("", "BORDER", Hole("TEXT", "ERROR", End("")));
    var first, last := Binding("RADIUS", "EX"), Binding("TEXT", "#102030");
    ExampleTemplate(t, [first, last]);
    CompletedName(t, filled);
    assert !NothingSpells(filled, "TEXT") by {
      assert filled.rest.lit == "TEXT" && filled.name[0] != "TEXT"[0];
    }
    assert last.value[0] != '@' && IsName(last.name) && [first, last][0] == first;
    hide *;
    ReplaceFills(t, false, first.name, first.value);
    ReplaceFillsIff(filled, false, last.name, last.value);
    TwoCalls(t, first, last);
    FillChainIsSimultaneous(t, [first, last]);
  }

  lemma {:induction false} TwoCalls(t: Template, a: Binding, b: Binding)
    ensures ReplaceChain(Render(t), [a, b]) == Replace(Replace(Render(t), Key(a.name), a.value), Key(b.name), b.value)
    ensures FillChain(t, [a, b]) == Fill(Fill(t, a.name, a.value), b.name, b.value)
  {
    assert [a, b][1..] == [b];
    OneCall(Replace(Render(t), Key(a.name), a.value), Fill(t, a.name, a.value), b);
  }

  lemma {:induction false} OneCall(s: string, t: Template, b: Binding)
    ensures ReplaceChain(s, [b]) == Replace(s, Key(b.name), b.value) && FillChain(t, [b]) == Fill(t, b.name, b.value)
  {
    assert [b][1..] == [];
  }

  lemma {:induction false} ExampleTemplate(t: Template, bindings: seq<Binding>)
    requires t == Hole("", "BORDER", Hole("T", "RADIUS", Hole("T", "ERROR", End(""))))
    requires bindings == [Binding("RADIUS", "EX"), Binding("TEXT", "#102030")]
    ensures Separated(t, false) && Substitutable(bindings) && NoLiteralIsName(t, false, bindings)
    ensures NothingSpells(t, "RADIUS")
  {
    assert |t.rest.lit| == |t.rest.rest.lit| == 1 && |bindings[0].name| == 6 && |bindings[1].name| == 4;
    assert NoLiteralIsName(t.rest.rest, true, bindings);
  }

  lemma {:induction false} CompletedName(t: Template, filled: Template)
    requires t == Hole("", "BORDER", Hole("T", "RADIUS", Hole("T", "ERROR", End(""))))
    requires filled == Hole("", "BORDER", Hole("TEXT", "ERROR", End("")))
    ensures Fill(t, "RADIUS", "EX") == filled && Separated(filled, false)
  {
    var inner := Hole("T", "RADIUS", Hole("T", "ERROR", End("")));
    assert "T" + "EX" + "T" == "TEXT";
    assert Fill(Hole("T", "ERROR", End("")), "RADIUS", "EX") == Hole("T", "ERROR", End(""));
    assert Fill(inner, "RADIUS", "EX") == Hole("TEXT", "ERROR", End(""));
  }
}
