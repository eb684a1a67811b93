/**
 * What a chain of replacements does with arbitrary values.
 *
 * The bundled templates keep their holes apart: every literal between two holes has a character that
 * occurs in no name, such as a line break or a semicolon.  On such a template the chain acts on each hole
 * by itself, whatever the values are: a value is put into its holes and then rewritten by the calls that
 * follow.  So the chain is a simultaneous substitution exactly if no value contains a key replaced later.
 */
module Rescanning {
  import opened Placeholders
  import opened Replacing
  import opened Text

  /** Every literal between two holes has a character of no name. */
  predicate Spaced(t: Template, afterHole: bool, names: char -> bool) {
    t.Hole? ==>
      && (afterHole ==> HasForeign(t.lit, names))
      && Spaced(t.rest, true, names)
  }

  predicate HasNames(bindings: seq<Binding>) {
    forall i :: 0 <= i < |bindings| ==> IsName(bindings[i].name)
  }

  // ----- Each hole by itself -----

  /** Each hole is rewritten by all the calls, and nothing else is. */
  function HoleByHole(t: Template, bindings: seq<Binding>): string {
    match t
    case End(lit) => lit
    case Hole(lit, name, rest) => lit + ReplaceChain(Key(name), bindings) + HoleByHole(rest, bindings)
  }

  /** A name does not end within a literal, nor behind one that has a character of no name. */
  lemma {:induction false} NameStops(name: string, lit: string, rest: string, names: char -> bool)
    requires NoDelimiter(lit) && '@' !in name && (forall k :: 0 <= k < |name| ==> names(name[k]))
    requires rest == "" || (HasForeign(lit, names) && !EndsWithAt(lit))
    ensures !(name + DELIMITER <= lit + rest)
  {
    var s := lit + rest;
    assert forall i :: 0 <= i < |lit| ==> s[i] == lit[i];
    if rest != "" {
      var k :| 0 <= k < |lit| && !names(lit[k]);
      assert !names(s[k]) && k < |s|;
    }
    if name + DELIMITER <= s {
      NameInFront(name, s);
    }
  }

  lemma {:induction false} NameInFront(name: string, s: string)
    requires name + DELIMITER <= s
    ensures |name| + 1 < |s| && s[|name|] == '@' && s[|name| + 1] == '@'
    ensures forall i :: 0 <= i < |name| ==> s[i] == name[i]
  {
    assert (name + DELIMITER)[|name|] == '@' && (name + DELIMITER)[|name| + 1] == '@';
    assert forall i :: 0 <= i < |name| ==> (name + DELIMITER)[i] == name[i];
  }

  /** No key starts in front of such a literal and ends behind its start. */
  lemma {:induction false} NoKeyInto(x: string, lit: string, rest: string, name: string, names: char -> bool)
    requires x != "" && IsName(name) && (forall k :: 0 <= k < |name| ==> names(name[k]))
    requires NoDelimiter(lit) && !StartsWithAt(lit)
    requires rest == "" || (HasForeign(lit, names) && !EndsWithAt(lit))
    ensures Key(name) <= x + (lit + rest) <==> Key(name) <= x
  {
    var key, n, y := Key(name), |name|, lit + rest;
    var s := x + y;
    if |key| <= |x| {
      assert s[..|key|] == x[..|key|];
    } else if key <= s {
      var j := |x|;
      assert lit != "" && y[0] == lit[0] && s[j] == y[0] && s[j] == key[j];
      assert key[0] == '@' && key[1] == '@' && key[n + 2] == '@' && key[n + 3] == '@';
      assert 2 <= j < n + 2;
      var part := name[j - 2..];
      assert key[j..] == part + DELIMITER;
      assert key[j..] == s[..|key|][j..] == y[..|key| - j];
      assert forall i :: 0 <= i < |name| ==> name[i] in name;
      NameStops(part, lit, rest, names);
      assert false;
    }
  }

  /** A replacement acts on the text in front of such a literal separately. */
  lemma {:induction false} SplitAtLiteral(x: string, lit: string, rest: string, name: string, value: string,
                                          names: char -> bool)
    requires IsName(name) && (forall k :: 0 <= k < |name| ==> names(name[k]))
    requires NoDelimiter(lit) && !StartsWithAt(lit)
    requires rest == "" || (HasForeign(lit, names) && !EndsWithAt(lit))
    ensures Replace(x + (lit + rest), Key(name), value)
         == Replace(x, Key(name), value) + Replace(lit + rest, Key(name), value)
    decreases |x|
  {
    var key, y := Key(name), lit + rest;
    if x == "" {
      assert x + y == y;
    } else {
      NoKeyInto(x, lit, rest, name, names);
      hide Key, HasForeign, NoDelimiter;
      var skipped := if key <= x then |key| else 1;
      assert (x + y)[skipped..] == x[skipped..] + y;
      SplitAtLiteral(x[skipped..], lit, rest, name, value, names);
      ConcatAssociative(if key <= x then value else [x[0]], Replace(x[skipped..], key, value), Replace(y, key, value));
    }
  }

  /** One more call rewrites each hole by itself. */
  lemma {:induction false} OneMoreCall(t: Template, afterHole: bool, bindings: seq<Binding>, last: Binding,
                                       names: char -> bool)
    requires Separated(t, afterHole) && Spaced(t, afterHole, names)
    requires IsName(last.name) && forall k :: 0 <= k < |last.name| ==> names(last.name[k])
    ensures Replace(HoleByHole(t, bindings), Key(last.name), last.value) == HoleByHole(t, bindings + [last])
    decreases t
  {
    var key, value := Key(last.name), last.value;
    match t
    case End(lit) =>
      SkipLiteral(lit, "", last.name, value);
      assert lit + "" == lit;
    case Hole(lit, name, rest) =>
      OneMoreCall(rest, true, bindings, last, names);
      ChainSnoc(Key(name), bindings, last);
      var x := ReplaceChain(Key(name), bindings);
      var y := RestText(rest, bindings);
      hide Replace, ReplaceChain, Key;
      SkipLiteral(lit, x + HoleByHole(rest, bindings), last.name, value);
      SplitAtLiteral(x, rest.lit, y, last.name, value, names);
      ConcatAssociative(lit, x, HoleByHole(rest, bindings));
      ConcatAssociative(lit, Replace(x, key, value), Replace(HoleByHole(rest, bindings), key, value));
  }

  /** What follows a template's first literal. */
  lemma {:induction false} RestText(t: Template, bindings: seq<Binding>) returns (y: string)
    ensures HoleByHole(t, bindings) == t.lit + y && (t.End? ==> y == "")
  {
    if t.Hole? {
      y := ReplaceChain(Key(t.name), bindings) + HoleByHole(t.rest, bindings);
      ConcatAssociative(t.lit, ReplaceChain(Key(t.name), bindings), HoleByHole(t.rest, bindings));
    } else {
      y := "";
    }
  }

  lemma {:induction false} ChainSnoc(s: string, bindings: seq<Binding>, last: Binding)
    ensures ReplaceChain(s, bindings + [last]) == Replace(ReplaceChain(s, bindings), Key(last.name), last.value)
    decreases |bindings|
  {
    if bindings == [] {
      assert [] + [last] == [last] && [last][1..] == [];
    } else {
      assert (bindings + [last])[1..] == bindings[1..] + [last];
      ChainSnoc(Replace(s, Key(bindings[0].name), bindings[0].value), bindings[1..], last);
    }
  }

  /** The chain acts on each hole by itself, for arbitrary values. */
  lemma {:induction false} ChainIsHoleByHole(t: Template, bindings: seq<Binding>, names: char -> bool)
    requires Separated(t, false) && Spaced(t, false, names)
    requires HasNames(bindings) && NamesWithin(bindings, names)
    ensures ReplaceChain(Render(t), bindings) == HoleByHole(t, bindings)
    decreases |bindings|
  {
    if bindings == [] {
      NothingCalled(t);
    } else {
      var n := |bindings| - 1;
      var front, last := bindings[..n], bindings[n];
      assert bindings == front + [last];
      ChainIsHoleByHole(t, front, names);
      ChainSnoc(Render(t), front, last);
      OneMoreCall(t, false, front, last, names);
    }
  }

  lemma {:induction false} NothingCalled(t: Template)
    ensures Render(t) == HoleByHole(t, [])
    decreases t
  {
    if t.Hole? { NothingCalled(t.rest); }
  }

  // ----- What becomes of one hole -----

  /** A value as the calls behind its own leave it; a key nobody binds stays. */
  function Settled(name: string, bindings: seq<Binding>): string {
    if bindings == [] then Key(name)
    else if bindings[0].name == name then ReplaceChain(bindings[0].value, bindings[1..])
    else Settled(name, bindings[1..])
  }

  lemma {:induction false} HoleSettles(name: string, bindings: seq<Binding>)
    requires IsName(name) && HasNames(bindings)
    ensures ReplaceChain(Key(name), bindings) == Settled(name, bindings)
    decreases |bindings|
  {
    if bindings != [] {
      var b := bindings[0];
      KeyReplaced(name, b.name, b.value);
      HoleSettles(name, bindings[1..]);
    }
  }

  lemma {:induction false} KeyReplaced(n: string, name: string, value: string)
    requires IsName(n) && IsName(name)
    ensures Replace(Key(n), Key(name), value) == if n == name then value else Key(n)
  {
    if n == name {
      TakeKey("", name, value);
      assert Key(name) + "" == Key(name) && value + Replace("", Key(name), value) == value;
    } else {
      SkipOpening(n, DELIMITER, name, value);
      SkipClosing(End(""), name, value);
      assert DELIMITER + Render(End("")) == DELIMITER && Replace("", Key(name), value) == "";
    }
  }

  /** `str::contains`. */
  predicate Contains(s: string, pattern: string) {
    exists i :: 0 <= i <= |s| && pattern <= s[i..]
  }

  predicate ContainsKey(s: string, bindings: seq<Binding>) {
    exists j :: 0 <= j < |bindings| && Contains(s, Key(bindings[j].name))
  }

  lemma {:induction false} AbsentIsKept(s: string, pattern: string, value: string)
    requires pattern != "" && !Contains(s, pattern)
    ensures Replace(s, pattern, value) == s
    decreases |s|
  {
    if s != "" {
      assert s[0..] == s;
      assert !Contains(s[1..], pattern) by {
        forall i | 0 <= i <= |s[1..]| ensures !(pattern <= s[1..][i..]) {
          assert s[1..][i..] == s[i + 1..];
        }
      }
      AbsentIsKept(s[1..], pattern, value);
    }
  }

  lemma {:induction false} ChainKeeps(s: string, bindings: seq<Binding>)
    requires !ContainsKey(s, bindings)
    ensures ReplaceChain(s, bindings) == s
    decreases |bindings|
  {
    if bindings != [] {
      AbsentIsKept(s, Key(bindings[0].name), bindings[0].value);
      assert forall j :: 0 <= j < |bindings[1..]| ==> bindings[1..][j] == bindings[j + 1];
      ChainKeeps(s, bindings[1..]);
    }
  }

  /** `r` first differs from `s` where `s` has an `@`. */
  ghost predicate AtReplaced(s: string, r: string) {
    exists p :: 0 <= p < |s| && p < |r| && s[..p] == r[..p] && s[p] == '@' && r[p] != '@'
  }

  predicate Visible(value: string) {
    value != "" && !StartsWithAt(value)
  }

  lemma {:induction false} ReplacedLater(c: char, s: string, r: string)
    requires AtReplaced(s, r)
    ensures AtReplaced([c] + s, [c] + r)
  {
    var p :| 0 <= p < |s| && p < |r| && s[..p] == r[..p] && s[p] == '@' && r[p] != '@';
    assert ([c] + s)[..p + 1] == [c] + s[..p] == ([c] + r)[..p + 1];
    assert ([c] + s)[p + 1] == s[p] && ([c] + r)[p + 1] == r[p];
  }

  lemma {:induction false} ReplacedAtOnce(s: string, r: string)
    requires StartsWithAt(s) && Visible(r)
    ensures AtReplaced(s, r)
  {
    assert s[..0] == r[..0];
  }

  lemma {:induction false} ContainsBehind(s: string, pattern: string)
    requires pattern != "" && Contains(s, pattern)
    ensures s != "" && (pattern <= s || Contains(s[1..], pattern))
  {
    var i :| 0 <= i <= |s| && pattern <= s[i..];
    if i == 0 {
      assert s[0..] == s;
    } else {
      assert s[1..][i - 1..] == s[i..];
    }
  }

  lemma {:induction false} PresentIsReplaced(s: string, name: string, value: string)
    requires Visible(value) && Contains(s, Key(name))
    ensures AtReplaced(s, Replace(s, Key(name), value))
    decreases |s|
  {
    hide AtReplaced, Contains;
    var key := Key(name);
    ContainsBehind(s, key);
    if key <= s {
      assert key[0] == '@';
      ReplacedAtOnce(s, Replace(s, key, value));
    } else {
      PresentIsReplaced(s[1..], name, value);
      ReplacedLater(s[0], s[1..], Replace(s[1..], key, value));
      assert s == [s[0]] + s[1..];
    }
  }

  /** A later replacement does not restore the `@`. */
  lemma {:induction false} StaysReplaced(s: string, r: string, name: string, value: string)
    requires Visible(value) && AtReplaced(s, r)
    ensures AtReplaced(s, Replace(r, Key(name), value))
    decreases |s|
  {
    var key := Key(name);
    var p :| 0 <= p < |s| && p < |r| && s[..p] == r[..p] && s[p] == '@' && r[p] != '@';
    assert key[0] == '@';
    assert p > 0 ==> s[0] == s[..p][0] == r[..p][0] == r[0];
    if p == 0 || key <= r {
      ReplacedAtOnce(s, Replace(r, key, value));
    } else {
      assert s[1..][..p - 1] == s[..p][1..] == r[..p][1..] == r[1..][..p - 1];
      assert s[1..][p - 1] == '@' && r[1..][p - 1] != '@';
      StaysReplaced(s[1..], r[1..], name, value);
      ReplacedLater(s[0], s[1..], Replace(r[1..], key, value));
      assert s == [s[0]] + s[1..];
    }
  }

  predicate AllVisible(bindings: seq<Binding>) {
    forall i :: 0 <= i < |bindings| ==> Visible(bindings[i].value)
  }

  lemma {:induction false} ChainStaysReplaced(s: string, r: string, bindings: seq<Binding>)
    requires AllVisible(bindings) && AtReplaced(s, r)
    ensures AtReplaced(s, ReplaceChain(r, bindings))
    decreases |bindings|
  {
    if bindings != [] {
      StaysReplaced(s, r, bindings[0].name, bindings[0].value);
      ChainStaysReplaced(s, Replace(r, Key(bindings[0].name), bindings[0].value), bindings[1..]);
    }
  }

  /** A chain of visible values changes exactly the texts that contain one of its keys. */
  lemma {:induction false} ChainReplaces(s: string, bindings: seq<Binding>)
    requires AllVisible(bindings) && ContainsKey(s, bindings)
    ensures AtReplaced(s, ReplaceChain(s, bindings))
    decreases |bindings|
  {
    var b := bindings[0];
    if Contains(s, Key(b.name)) {
      PresentIsReplaced(s, b.name, b.value);
      ChainStaysReplaced(s, Replace(s, Key(b.name), b.value), bindings[1..]);
    } else {
      AbsentIsKept(s, Key(b.name), b.value);
      var j :| 0 <= j < |bindings| && Contains(s, Key(bindings[j].name));
      assert bindings[1..][j - 1] == bindings[j];
      ChainReplaces(s, bindings[1..]);
    }
  }

  // ----- Main results -----

  /** The value bound to `name` contains no key that is replaced after it. */
  predicate Untouched(name: string, bindings: seq<Binding>) {
    bindings != [] ==>
      if bindings[0].name == name then !ContainsKey(bindings[0].value, bindings[1..])
      else Untouched(name, bindings[1..])
  }

  predicate AllUntouched(t: Template, bindings: seq<Binding>) {
    t.Hole? ==> Untouched(t.name, bindings) && AllUntouched(t.rest, bindings)
  }

  /** Behind a value with a delimiter in it come visible values only. */
  predicate Ordered(bindings: seq<Binding>) {
    bindings != [] ==>
      && (NoDelimiter(bindings[0].value) || AllVisible(bindings[1..]))
      && Ordered(bindings[1..])
  }

  lemma {:induction false} NoDelimiterNoKey(s: string, bindings: seq<Binding>)
    requires NoDelimiter(s)
    ensures !ContainsKey(s, bindings)
  {
    forall j | 0 <= j < |bindings| ensures !Contains(s, Key(bindings[j].name)) {
      forall i | 0 <= i <= |s| ensures !(Key(bindings[j].name) <= s[i..]) {
        var key := Key(bindings[j].name);
        assert key[0] == '@' && key[1] == '@';
        assert forall k :: 0 <= k < |s[i..]| ==> s[i..][k] == s[i + k];
      }
    }
  }

  lemma {:induction false} SettledOrReplaced(name: string, bindings: seq<Binding>)
    requires Ordered(bindings)
    ensures if Untouched(name, bindings) then Settled(name, bindings) == Lookup(name, bindings)
      else AtReplaced(Lookup(name, bindings), Settled(name, bindings))
    decreases |bindings|
  {
    if bindings != [] {
      var b := bindings[0];
      if b.name != name {
        SettledOrReplaced(name, bindings[1..]);
      } else if ContainsKey(b.value, bindings[1..]) {
        if NoDelimiter(b.value) { NoDelimiterNoKey(b.value, bindings[1..]); }
        ChainReplaces(b.value, bindings[1..]);
      } else {
        ChainKeeps(b.value, bindings[1..]);
      }
    }
  }

  lemma {:induction false} DifferentBehind(front: string, s: string, r: string, x: string, y: string)
    requires AtReplaced(s, r)
    ensures front + s + x != front + r + y
  {
    var p :| 0 <= p < |s| && p < |r| && s[..p] == r[..p] && s[p] == '@' && r[p] != '@';
    assert (front + s + x)[|front| + p] == s[p] && (front + r + y)[|front| + p] == r[p];
  }

  lemma {:induction false} HolesAgreeIff(t: Template, afterHole: bool, bindings: seq<Binding>)
    requires Separated(t, afterHole) && HasNames(bindings) && Ordered(bindings)
    ensures HoleByHole(t, bindings) == Simultaneous(t, bindings) <==> AllUntouched(t, bindings)
    decreases t
  {
    if t.Hole? {
      HolesAgreeIff(t.rest, true, bindings);
      HoleSettles(t.name, bindings);
      SettledOrReplaced(t.name, bindings);
      var put, meant := ReplaceChain(Key(t.name), bindings), Lookup(t.name, bindings);
      var x, y := HoleByHole(t.rest, bindings), Simultaneous(t.rest, bindings);
      if Untouched(t.name, bindings) {
        assert (t.lit + meant + x)[|t.lit + meant|..] == x && (t.lit + meant + y)[|t.lit + meant|..] == y;
      } else {
        DifferentBehind(t.lit, meant, put, y, x);
      }
    }
  }

  /**
   * For arbitrary values: the chain is one simultaneous substitution if and only if no value that is put
   * into a hole contains the key of a later call.
   */
  lemma {:induction false} ChainIffUntouched(t: Template, bindings: seq<Binding>, names: char -> bool)
    requires Separated(t, false) && Spaced(t, false, names)
    requires HasNames(bindings) && NamesWithin(bindings, names) && Ordered(bindings)
    ensures ReplaceChain(Render(t), bindings) == Simultaneous(t, bindings) <==> AllUntouched(t, bindings)
  {
    ChainIsHoleByHole(t, bindings, names);
    HolesAgreeIff(t, false, bindings);
  }

  // ----- At most one value is not known to be free of delimiters -----

  predicate NoDelimiters(bindings: seq<Binding>) {
    forall i :: 0 <= i < |bindings| ==> NoDelimiter(bindings[i].value)
  }

  predicate HasHole(t: Template, name: string) {
    t.Hole? && (t.name == name || HasHole(t.rest, name))
  }

  /** Values without a delimiter need no further condition: they may be empty, or spell names. */
  lemma {:induction false} DelimiterFreeIsSimultaneous(t: Template, bindings: seq<Binding>, names: char -> bool)
    requires Separated(t, false) && Spaced(t, false, names)
    requires HasNames(bindings) && NamesWithin(bindings, names) && NoDelimiters(bindings)
    ensures ReplaceChain(Render(t), bindings) == Simultaneous(t, bindings)
    ensures Covered(t, bindings) ==> NoDelimiter(ReplaceChain(Render(t), bindings))
  {
    FreeIsOrdered(bindings);
    FreeIsUntouched(t, bindings);
    ChainIffUntouched(t, bindings, names);
    if Covered(t, bindings) {
      CoveredHasNone(t, false, bindings, names);
    }
  }

  /** On such templates the order of the calls is irrelevant: only what each name is bound to matters. */
  lemma {:induction false} OrderNeverMatters(t: Template, bindings: seq<Binding>, others: seq<Binding>,
                                             names: char -> bool)
    requires Separated(t, false) && Spaced(t, false, names)
    requires HasNames(bindings) && NamesWithin(bindings, names) && NoDelimiters(bindings)
    requires HasNames(others) && NamesWithin(others, names) && NoDelimiters(others)
    requires forall name :: Lookup(name, bindings) == Lookup(name, others)
    ensures ReplaceChain(Render(t), bindings) == ReplaceChain(Render(t), others)
  {
    DelimiterFreeIsSimultaneous(t, bindings, names);
    DelimiterFreeIsSimultaneous(t, others, names);
    SameLookups(t, bindings, others);
  }

  lemma {:induction false} FreeIsOrdered(bindings: seq<Binding>)
    requires NoDelimiters(bindings)
    ensures Ordered(bindings)
    decreases |bindings|
  {
    if bindings != [] { FreeIsOrdered(bindings[1..]); }
  }

  lemma {:induction false} FreeIsUntouched(t: Template, bindings: seq<Binding>)
    requires NoDelimiters(bindings)
    ensures AllUntouched(t, bindings)
    decreases t
  {
    if t.Hole? {
      FreeNameIsUntouched(t.name, bindings);
      FreeIsUntouched(t.rest, bindings);
    }
  }

  lemma {:induction false} FreeNameIsUntouched(name: string, bindings: seq<Binding>)
    requires NoDelimiters(bindings)
    ensures Untouched(name, bindings)
    decreases |bindings|
  {
    if bindings != [] {
      NoDelimiterNoKey(bindings[0].value, bindings[1..]);
      FreeNameIsUntouched(name, bindings[1..]);
    }
  }

  lemma {:induction false} CoveredHasNone(t: Template, afterHole: bool, bindings: seq<Binding>, names: char -> bool)
    requires Separated(t, afterHole) && Spaced(t, afterHole, names)
    requires Covered(t, bindings) && NoDelimiters(bindings)
    ensures NoDelimiter(Simultaneous(t, bindings))
    ensures afterHole ==> !StartsWithAt(Simultaneous(t, bindings))
    decreases t
  {
    if t.Hole? {
      CoveredHasNone(t.rest, true, bindings, names);
      var value, rest := Lookup(t.name, bindings), Simultaneous(t.rest, bindings);
      BoundValue(t.name, bindings);
      JoinedLiteral(value, rest);
      JoinedLiteral(t.lit, value + rest);
      ConcatAssociative(t.lit, value, rest);
      assert t.lit != "" ==> (t.lit + (value + rest))[0] == t.lit[0];
    }
  }

  lemma {:induction false} BoundValue(name: string, bindings: seq<Binding>)
    requires NoDelimiters(bindings) && exists i :: 0 <= i < |bindings| && bindings[i].name == name
    ensures NoDelimiter(Lookup(name, bindings))
    decreases |bindings|
  {
    if bindings[0].name != name {
      var i :| 0 <= i < |bindings| && bindings[i].name == name;
      assert bindings[1..][i - 1] == bindings[i];
      BoundValue(name, bindings[1..]);
    }
  }

  /** With one value that may contain anything, the chain is right exactly if it contains no key bound behind it. */
  lemma {:induction false} OneUntrusted(t: Template, before: seq<Binding>, b: Binding, after: seq<Binding>,
                                        names: char -> bool)
    requires Separated(t, false) && Spaced(t, false, names)
    requires HasNames(before + [b] + after) && NamesWithin(before + [b] + after, names)
    requires NoDelimiters(before) && NoDelimiters(after) && AllVisible(after)
    requires forall i :: 0 <= i < |before| ==> before[i].name != b.name
    ensures ReplaceChain(Render(t), before + [b] + after) == Simultaneous(t, before + [b] + after)
       <==> (HasHole(t, b.name) ==> !ContainsKey(b.value, after))
  {
    OneIsOrdered(before, b, after);
    OneUntouchedIff(t, before, b, after);
    ChainIffUntouched(t, before + [b] + after, names);
  }

  lemma {:induction false} OneIsOrdered(before: seq<Binding>, b: Binding, after: seq<Binding>)
    requires NoDelimiters(before) && NoDelimiters(after) && AllVisible(after)
    ensures Ordered(before + [b] + after)
    decreases |before|
  {
    var all := before + [b] + after;
    if before == [] {
      assert all[1..] == after;
      FreeIsOrdered(after);
    } else {
      assert all[1..] == before[1..] + [b] + after;
      OneIsOrdered(before[1..], b, after);
    }
  }

  lemma {:induction false} OneUntouchedIff(t: Template, before: seq<Binding>, b: Binding, after: seq<Binding>)
    requires NoDelimiters(before) && NoDelimiters(after)
    requires forall i :: 0 <= i < |before| ==> before[i].name != b.name
    ensures AllUntouched(t, before + [b] + after) <==> (HasHole(t, b.name) ==> !ContainsKey(b.value, after))
    decreases t
  {
    if t.Hole? {
      OneNameIff(t.name, before, b, after);
      OneUntouchedIff(t.rest, before, b, after);
    }
  }

  lemma {:induction false} OneNameIff(name: string, before: seq<Binding>, b: Binding, after: seq<Binding>)
    requires NoDelimiters(before) && NoDelimiters(after)
    requires forall i :: 0 <= i < |before| ==> before[i].name != b.name
    ensures Untouched(name, before + [b] + after) <==> (name == b.name ==> !ContainsKey(b.value, after))
    decreases |before|
  {
    var all := before + [b] + after;
    if before == [] {
      assert all[0] == b && all[1..] == after;
      FreeNameIsUntouched(name, after);
    } else {
      assert all[0] == before[0] && all[1..] == before[1..] + [b] + after;
      NoDelimiterNoKey(before[0].value, all[1..]);
      OneNameIff(name, before[1..], b, after);
    }
  }
}
