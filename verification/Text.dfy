/** Character classes and whitespace handling of Rust's `str`, and what several modules need of sequences. */
module Text {

  datatype Option<+T> = None | Some(value: T)

  /** `char::is_whitespace`: the Unicode White_Space property. */
  predicate IsWhitespace(c: char) {
    || '\U{0009}' <= c <= '\U{000D}'
    || c == ' '
    || c == '\U{0085}'
    || c == '\U{00A0}'
    || c == '\U{1680}'
    || '\U{2000}' <= c <= '\U{200A}'
    || '\U{2028}' <= c <= '\U{2029}'
    || c == '\U{202F}'
    || c == '\U{205F}'
    || c == '\U{3000}'
  }

  /** A non-empty run of non-blank characters. */
  predicate IsWord(w: string) {
    w != "" && forall i :: 0 <= i < |w| ==> !IsWhitespace(w[i])
  }

  /** `str::trim_start`. */
  function TrimStart(s: string): (r: string)
    ensures r == "" || !IsWhitespace(r[0])
    ensures |r| <= |s|
  {
    if s != "" && IsWhitespace(s[0]) then TrimStart(s[1..]) else s
  }

  /** `str::trim_end`. */
  function TrimEnd(s: string): (r: string)
    ensures r <= s
    ensures r == "" || !IsWhitespace(r[|r| - 1])
    ensures forall i :: |r| <= i < |s| ==> IsWhitespace(s[i])
  {
    if s != "" && IsWhitespace(s[|s| - 1]) then TrimEnd(s[..|s| - 1]) else s
  }

  /** `str::trim`. */
  function Trim(s: string): string {
    TrimEnd(TrimStart(s))
  }

  predicate IsTrimmed(s: string) {
    s == "" || (!IsWhitespace(s[0]) && !IsWhitespace(s[|s| - 1]))
  }

  predicate IsBlank(s: string) {
    forall i :: 0 <= i < |s| ==> IsWhitespace(s[i])
  }

  /** Trimming removes blanks from both ends and nothing else, and all of them. */
  lemma {:induction false} TrimExact(s: string) returns (before: string, after: string)
    ensures IsBlank(before) && IsBlank(after) && s == before + Trim(s) + after && IsTrimmed(Trim(s))
  {
    hide TrimStart, TrimEnd;
    before := TrimStartExact(s);
    var rest := TrimStart(s);
    var kept := TrimEnd(rest);
    after := rest[|kept|..];
    assert rest == kept + after;
    assert kept != "" ==> kept[0] == rest[0];
    ConcatAssociative(before, kept, after);
  }

  lemma {:induction false} TrimStartExact(s: string) returns (before: string)
    ensures IsBlank(before) && s == before + TrimStart(s)
  {
    if s != "" && IsWhitespace(s[0]) {
      var rest := TrimStartExact(s[1..]);
      before := [s[0]] + rest;
    } else {
      before := "";
    }
  }

  lemma {:induction false} BlankTrims(s: string)
    ensures Trim(s) == "" <==> IsBlank(s)
  {
    var before, after := TrimExact(s);
    var n := |before|;
    hide Trim;
    if Trim(s) == "" {
      forall i | 0 <= i < |s| ensures IsWhitespace(s[i]) {
        assert i < n ==> s[i] == before[i];
        assert i >= n ==> s[i] == after[i - n];
      }
    } else {
      assert s[n] == Trim(s)[0];
    }
    hide IsWhitespace;
  }

  /** Trimming shortens a string unless it is trimmed already. */
  lemma {:induction false} TrimFixpoint(s: string)
    ensures Trim(s) == s <==> IsTrimmed(s)
  {
    if s != "" && IsWhitespace(s[0]) {
      assert |TrimStart(s)| <= |s[1..]|;
      assert |Trim(s)| < |s|;
    } else {
      assert TrimStart(s) == s;
      if s != "" && IsWhitespace(s[|s| - 1]) {
        assert |TrimEnd(s)| <= |s[..|s| - 1]|;
      }
    }
  }

  ghost predicate Distinct<T>(s: seq<T>) {
    forall i, j :: 0 <= i < j < |s| ==> s[i] != s[j]
  }

  lemma ConcatAssociative<T>(a: seq<T>, b: seq<T>, c: seq<T>)
    ensures a + b + c == a + (b + c)
  {
  }

  lemma {:induction false} SameTail<T>(front: seq<T>, a: seq<T>, b: seq<T>)
    ensures front + a == front + b <==> a == b
  {
    assert (front + a)[|front|..] == a && (front + b)[|front|..] == b;
  }

  /** Joins with one space, as `format!("{} {}", ...)` does word by word. */
  function Join(words: seq<string>): string {
    if words == [] then ""
    else if |words| == 1 then words[0]
    else Join(words[..|words| - 1]) + " " + words[|words| - 1]
  }

  lemma {:induction false} JoinAppend(words: seq<string>, word: string)
    requires words != []
    ensures Join(words + [word]) == Join(words) + " " + word
  {
    assert (words + [word])[..|words|] == words;
  }

  lemma {:induction false} JoinConcat(a: seq<string>, b: seq<string>)
    requires a != [] && b != []
    ensures Join(a + b) == Join(a) + " " + Join(b)
    decreases |b|
  {
    var last := b[|b| - 1];
    var front := b[..|b| - 1];
    assert b == front + [last];
    assert a + b == (a + front) + [last];
    JoinAppend(a + front, last);
    if front == [] {
      assert a + front == a && b == [last];
    } else {
      JoinConcat(a, front);
      JoinAppend(front, last);
      assert Join(a) + " " + Join(front) + " " + last == Join(a) + " " + (Join(front) + " " + last);
    }
  }

  /** `str::split_whitespace`: the maximal runs of non-blank characters. */
  function SplitWhitespace(s: string): (words: seq<string>)
    ensures forall i :: 0 <= i < |words| ==> IsWord(words[i])
  {
    SplitFrom(s, "")
  }

  /** Words of `s` when `current` is the part of a word already read. */
  function SplitFrom(s: string, current: string): (words: seq<string>)
    requires current == "" || IsWord(current)
    ensures forall i :: 0 <= i < |words| ==> IsWord(words[i])
    decreases |s|
  {
    if s == "" then
      if current == "" then [] else [current]
    else if IsWhitespace(s[0]) then
      (if current == "" then [] else [current]) + SplitFrom(s[1..], "")
    else
      SplitFrom(s[1..], current + [s[0]])
  }

  lemma {:induction false} SplitWord(w: string, rest: string, current: string)
    requires w == "" || IsWord(w)
    requires current == "" || IsWord(current)
    ensures current + w == "" || IsWord(current + w)
    ensures SplitFrom(w + rest, current) == SplitFrom(rest, current + w)
    decreases |w|
  {
    if w == "" {
      assert w + rest == rest && current + w == current;
    } else {
      assert (w + rest)[1..] == w[1..] + rest;
      SplitWord(w[1..], rest, current + [w[0]]);
      assert current + [w[0]] + w[1..] == current + w;
    }
  }

  lemma {:induction false} SplitWordThenSpace(w: string, rest: string)
    requires IsWord(w)
    ensures SplitWhitespace(w + " " + rest) == [w] + SplitWhitespace(rest)
  {
    SplitWord(w, " " + rest, "");
    assert w + " " + rest == w + (" " + rest);
    assert "" + w == w;
    assert (" " + rest)[1..] == rest;
  }

  /** Splitting undoes joining: no word is lost, split or merged. */
  lemma {:induction false} SplitJoin(words: seq<string>)
    requires forall i :: 0 <= i < |words| ==> IsWord(words[i])
    ensures SplitWhitespace(Join(words)) == words
    decreases |words|
  {
    if |words| == 1 {
      SplitWord(words[0], "", "");
      assert words[0] + "" == words[0] && "" + words[0] == words[0];
      assert words == [words[0]];
    } else if |words| > 1 {
      assert words == [words[0]] + words[1..];
      JoinConcat([words[0]], words[1..]);
      SplitWordThenSpace(words[0], Join(words[1..]));
      SplitJoin(words[1..]);
    }
  }
}
