/** The launcher's in-place Fisher-Yates shuffle and the orders it can produce. */
module Reshuffle {
  import opened Text

  const TWO_TO_THE_64 := 0x1_0000_0000_0000_0000
  const MULTIPLIER := 6364136223846793005
  const INCREMENT := 1442695040888963407

  /** One step of the 64-bit linear congruential generator, with wrapping arithmetic. */
  function NextRandom(rng: nat): (r: nat)
    ensures r < TWO_TO_THE_64
  {
    (rng * MULTIPLIER + INCREMENT) % TWO_TO_THE_64
  }

  function Pick(rng: nat, i: nat): (j: nat)
    ensures j <= i
  {
    (rng / 0x2_0000_0000) % (i + 1)
  }

  function Swapped<T>(s: seq<T>, i: nat, j: nat): (r: seq<T>)
    requires i < |s| && j < |s|
    ensures |r| == |s|
  {
    s[i := s[j]][j := s[i]]
  }

  /** The choices the generator makes for positions `i`, `i - 1`, ..., 1. */
  function Choices(rng: nat, i: nat): (js: seq<nat>)
    ensures |js| == i && InRange(js)
    decreases i
  {
    if i == 0 then [] else
      var rng' := NextRandom(rng);
      [Pick(rng', i)] + Choices(rng', i - 1)
  }

  /** A choice sequence for `|js| + 1` elements: the first choice is in `0..=|js|`, and so on down. */
  predicate InRange(js: seq<nat>) {
    forall k :: 0 <= k < |js| ==> js[k] <= |js| - k
  }

  /** The order reached from `s` by the given choices, which concern its first `|js| + 1` positions. */
  function Shuffled<T>(s: seq<T>, js: seq<nat>): (r: seq<T>)
    requires InRange(js) && (js == [] || |js| < |s|)
    ensures |r| == |s|
    decreases |js|
  {
    if js == [] then s
    else
      assert forall k :: 0 <= k < |js| - 1 ==> js[1..][k] == js[k + 1];
      Shuffled(Swapped(s, |js|, js[0]), js[1..])
  }

  class LauncherState<App(==)> {
    const apps: array<App>

    constructor (apps: array<App>)
      ensures this.apps == apps
    {
      this.apps := apps;
    }

    /** `seed` is what the clock yields; every `u64` is possible. */
    method Reshuffle(seed: nat)
      requires seed < TWO_TO_THE_64
      modifies apps
      ensures apps[..] == Shuffled(old(apps[..]), Choices(seed, if apps.Length == 0 then 0 else apps.Length - 1))
    {
      var rng := seed;
      var n := apps.Length;
      var i: nat := n;
      ghost var final := Shuffled(apps[..], Choices(seed, if n == 0 then 0 else n - 1));
      while i > 1
        invariant i <= n && (n > 0 ==> i > 0)
        invariant final == Shuffled(apps[..], Choices(rng, if i == 0 then 0 else i - 1))
      {
        i := i - 1;
        ghost var before := apps[..];
        ghost var choices := Choices(rng, i);
        rng := NextRandom(rng);
        var j := Pick(rng, i);
        apps[i], apps[j] := apps[j], apps[i];
        assert choices[0] == j && choices[1..] == Choices(rng, i - 1);
        assert apps[..] == Swapped(before, i, j);
      }
    }
  }

  // ----- Which orders come out -----

  lemma {:induction false} SwapKeepsElements<T>(s: seq<T>, i: nat, j: nat)
    requires i < |s| && j < |s|
    ensures multiset(Swapped(s, i, j)) == multiset(s)
  {
  }

  /** Only the positions the choices speak about change. */
  lemma {:induction false} ShuffledPermutes<T>(s: seq<T>, js: seq<nat>)
    requires InRange(js) && (js == [] || |js| < |s|)
    ensures multiset(Shuffled(s, js)) == multiset(s)
    ensures forall k :: |js| < k < |s| ==> Shuffled(s, js)[k] == s[k]
    ensures js != [] ==> Shuffled(s, js)[|js|] == s[js[0]]
    decreases |js|
  {
    if js != [] {
      SwapKeepsElements(s, |js|, js[0]);
      ShuffledPermutes(Swapped(s, |js|, js[0]), js[1..]);
    }
  }

  lemma {:induction false} SwapKeepsDistinct<T>(s: seq<T>, i: nat, j: nat)
    requires Distinct(s) && i < |s| && j < |s|
    ensures Distinct(Swapped(s, i, j))
  {
  }

  /** Different choices give different orders. */
  lemma {:induction false} ShuffledInjective<T>(s: seq<T>, js: seq<nat>, ks: seq<nat>)
    requires Distinct(s) && |js| == |ks| && InRange(js) && InRange(ks) && (js == [] || |js| < |s|)
    requires Shuffled(s, js) == Shuffled(s, ks)
    ensures js == ks
    decreases |js|
  {
    if js != [] {
      ShuffledPermutes(s, js);
      ShuffledPermutes(s, ks);
      assert js[0] == ks[0];
      SwapKeepsDistinct(s, |js|, js[0]);
      ShuffledInjective(Swapped(s, |js|, js[0]), js[1..], ks[1..]);
      assert js == [js[0]] + js[1..] && ks == [ks[0]] + ks[1..];
    }
  }

  lemma {:induction false} PrefixesMatch<T>(s: seq<T>, t: seq<T>, n: nat)
    requires multiset(s) == multiset(t) && n <= |s| == |t| && s[n..] == t[n..]
    ensures multiset(s[..n]) == multiset(t[..n])
  {
    assert s == s[..n] + s[n..] && t == t[..n] + t[n..];
    assert multiset(s[..n]) == multiset(s) - multiset(s[n..]);
    assert multiset(t[..n]) == multiset(t) - multiset(t[n..]);
  }

  /** The element wanted at position `n` is still among the first `n + 1`. */
  lemma {:induction false} WantedIsAhead<T>(s: seq<T>, order: seq<T>, n: nat) returns (j: nat)
    requires multiset(order) == multiset(s) && n < |s| == |order| && s[n + 1..] == order[n + 1..]
    ensures j <= n && s[j] == order[n]
    ensures Swapped(s, n, j)[n..] == order[n..]
  {
    PrefixesMatch(s, order, n + 1);
    assert order[..n + 1][n] in multiset(s[..n + 1]);
    j :| 0 <= j < n + 1 && s[..n + 1][j] == order[n];
    var t := Swapped(s, n, j);
    assert t[n + 1..] == s[n + 1..];
    assert t[n..] == [t[n]] + t[n + 1..] && order[n..] == [order[n]] + order[n + 1..];
  }

  /** The choices that lead from `s` to `order`, when the two agree beyond the first `n + 1` positions. */
  lemma {:induction false} ShuffledReaches<T>(s: seq<T>, order: seq<T>, n: nat) returns (js: seq<nat>)
    requires multiset(order) == multiset(s)
    requires n < |s| == |order| && s[n + 1..] == order[n + 1..]
    ensures |js| == n && InRange(js) && Shuffled(s, js) == order
    decreases n
  {
    var j := WantedIsAhead(s, order, n);
    if n == 0 {
      js := [];
      assert s == Swapped(s, 0, j) == order;
    } else {
      var t := Swapped(s, n, j);
      SwapKeepsElements(s, n, j);
      var rest := ShuffledReaches(t, order, n - 1);
      js := [j] + rest;
      assert js[1..] == rest;
    }
  }

  /**
   * For distinct apps the choice sequences correspond one to one to the orders of the apps: every order
   * is reached, and by only one sequence.
   */
  lemma {:induction false} EveryOrderOnce<T>(s: seq<T>, order: seq<T>)
    requires s != [] && Distinct(s)
    ensures multiset(order) == multiset(s)
       <==> exists js :: |js| == |s| - 1 && InRange(js) && Shuffled(s, js) == order
    ensures forall js, ks ::
      && |js| == |ks| == |s| - 1 && InRange(js) && InRange(ks)
      && Shuffled(s, js) == order && Shuffled(s, ks) == order
      ==> js == ks
  {
    if multiset(order) == multiset(s) {
      assert |multiset(order)| == |order| && |multiset(s)| == |s|;
      var js := ShuffledReaches(s, order, |s| - 1);
    }
    forall js | |js| == |s| - 1 && InRange(js) && Shuffled(s, js) == order
      ensures multiset(order) == multiset(s)
    {
      ShuffledPermutes(s, js);
    }
    forall js, ks | && |js| == |ks| == |s| - 1 && InRange(js) && InRange(ks)
                    && Shuffled(s, js) == order && Shuffled(s, ks) == order
      ensures js == ks
    {
      ShuffledInjective(s, js, ks);
    }
  }

  // ----- What the generator can choose -----

  /** The multiplier's inverse modulo 2^64. */
  const INVERSE := 13877824140714322085

  /** The state before: the generator runs backwards as well. */
  function Previous(rng: nat): (r: nat)
    ensures r < TWO_TO_THE_64
  {
    ((rng + TWO_TO_THE_64 - INCREMENT) * INVERSE) % TWO_TO_THE_64
  }

  lemma InverseExact()
    ensures MULTIPLIER * INVERSE == 4787856489426250814 * TWO_TO_THE_64 + 1
  {
  }

  lemma {:induction false} Multiple(a: int, q: int, m: int)
    requires m > 0
    ensures (a + q * m) % m == a % m
  {
    var d := a / m + q;
    assert a + q * m == d * m + a % m by { assert d * m == a / m * m + q * m; }
    RemainderUnique(a + q * m, d, a % m, m);
  }

  lemma {:induction false} RemainderUnique(n: int, d: int, r: int, m: int)
    requires m > 0 && 0 <= r < m && n == d * m + r
    ensures n / m == d && n % m == r
  {
    var e := n / m - d;
    assert e * m == r - n % m by { assert e * m == n / m * m - d * m; }
    WholeMultiple(e, m);
  }

  lemma WholeMultiple(e: int, m: int)
    requires m > 0
    ensures e >= 1 ==> e * m >= m
    ensures e <= -1 ==> e * m <= -m
  {
  }

  /** The generator is a bijection on 64-bit states. */
  lemma {:induction false} NextUndoesPrevious(rng: nat)
    requires rng < TWO_TO_THE_64
    ensures NextRandom(Previous(rng)) == rng
  {
    InverseExact();
    var x := rng + TWO_TO_THE_64 - INCREMENT;
    var d := x * INVERSE / TWO_TO_THE_64;
    var q := (MULTIPLIER * INVERSE - 1) / TWO_TO_THE_64;
    assert Previous(rng) == x * INVERSE - d * TWO_TO_THE_64;
    assert Previous(rng) * MULTIPLIER + INCREMENT == rng + (x * q - d * MULTIPLIER + 1) * TWO_TO_THE_64;
    Multiple(rng, x * q - d * MULTIPLIER + 1, TWO_TO_THE_64);
    RemainderUnique(rng, 0, rng, TWO_TO_THE_64);
  }

  lemma {:induction false} PreviousUndoesNext(rng: nat)
    requires rng < TWO_TO_THE_64
    ensures Previous(NextRandom(rng)) == rng
  {
    InverseExact();
    var x := rng * MULTIPLIER + INCREMENT;
    var d := x / TWO_TO_THE_64;
    var q := (MULTIPLIER * INVERSE - 1) / TWO_TO_THE_64;
    assert NextRandom(rng) == x - d * TWO_TO_THE_64;
    assert (NextRandom(rng) + TWO_TO_THE_64 - INCREMENT) * INVERSE
        == rng + (rng * q - d * INVERSE + INVERSE) * TWO_TO_THE_64;
    Multiple(rng, rng * q - d * INVERSE + INVERSE, TWO_TO_THE_64);
    RemainderUnique(rng, 0, rng, TWO_TO_THE_64);
  }

  /** A choice is read off the top 31 bits of the state; the others do not matter. */
  lemma {:induction false} TopBitsChoose(top: nat, low: nat, i: nat)
    requires low < 0x2_0000_0000
    ensures Pick(top * 0x2_0000_0000 + low, i) == top % (i + 1)
  {
    RemainderUnique(top * 0x2_0000_0000 + low, top, low, 0x2_0000_0000);
  }

  /** Every choice for every position is made by some seed, however many choices come before. */
  lemma {:induction false} EveryChoiceIsDrawn(i: nat, j: nat, k: nat) returns (seed: nat)
    requires 0 < i < 0x8000_0000 && j <= i
    ensures seed < TWO_TO_THE_64 && Choices(seed, i + k)[k] == j
    decreases k
  {
    var after: nat;
    if k == 0 {
      after := j * 0x2_0000_0000;
      TopBitsChoose(j, 0, i);
      RemainderUnique(j, 0, j, i + 1);
    } else {
      after := EveryChoiceIsDrawn(i, j, k - 1);
    }
    seed := Previous(after);
    NextUndoesPrevious(after);
    assert Choices(seed, i + k) == [Pick(after, i + k)] + Choices(after, i + k - 1);
  }

  /** How many of the first `n` values of the top bits choose `j`. */
  function Draws(n: nat, i: nat, j: nat): nat {
    if n == 0 then 0
    else Draws(n - 1, i, j) + if Pick((n - 1) * 0x2_0000_0000, i) == j then 1 else 0
  }

  lemma {:induction false} DrawsExact(n: nat, i: nat, j: nat)
    requires j <= i
    ensures Draws(n, i, j) == n / (i + 1) + if j < n % (i + 1) then 1 else 0
    decreases n
  {
    if n == 0 {
      RemainderUnique(0, 0, 0, i + 1);
    } else {
      DrawsExact(n - 1, i, j);
      TopBitsChoose(n - 1, 0, i);
      OneMore(n - 1, i + 1);
    }
  }

  lemma {:induction false} OneMore(n: nat, m: nat)
    requires m > 0
    ensures (n + 1) / m == n / m + if n % m + 1 < m then 0 else 1
    ensures (n + 1) % m == if n % m + 1 < m then n % m + 1 else 0
  {
    var a, b := n / m, n % m;
    assert n == a * m + b;
    if b + 1 < m {
      RemainderUnique(n + 1, a, b + 1, m);
    } else {
      assert (a + 1) * m == a * m + m;
      RemainderUnique(n + 1, a + 1, 0, m);
    }
  }

  /** Over all values of the top bits every choice is drawn equally often, up to one. */
  lemma {:induction false} DrawsAreEven(i: nat, j: nat, k: nat)
    requires j <= k <= i
    ensures 0 <= Draws(0x8000_0000, i, j) - Draws(0x8000_0000, i, k) <= 1
    ensures i < 0x8000_0000 ==> Draws(0x8000_0000, i, k) >= 1
  {
    DrawsExact(0x8000_0000, i, j);
    DrawsExact(0x8000_0000, i, k);
    if i < 0x8000_0000 { AtLeastOnce(0x8000_0000, i + 1); }
  }

  lemma {:induction false} AtLeastOnce(n: nat, m: nat)
    requires 0 < m <= n
    ensures n / m >= 1
  {
    assert n == n / m * m + n % m;
  }
}
