/**
 * Greedy line wrapping of the authentication dialog's message.
 *
 * `width` stands for the text measurement at the chosen font size.  The loop is proved against
 * `Rows`, and `Rows` against every other way of breaking the words into lines.
 */
module WrapText {
  import opened Text

  type Width = string -> real

  const ELLIPSIS := " \U{2026}"

  ghost predicate AreWords(words: seq<string>) {
    forall i :: 0 <= i < |words| ==> IsWord(words[i])
  }

  /** Adding words before or after a line never makes it narrower. */
  ghost predicate Monotone(width: Width) {
    forall before, row, after :: NoNarrower(width, before, row, after)
  }

  ghost predicate NoNarrower(width: Width, before: seq<string>, row: seq<string>, after: seq<string>) {
    row != [] && AreWords(before + row + after) ==> width(Join(row)) <= width(Join(before + row + after))
  }

  /** The rows of words the loop produces when `row` is the line being filled. */
  function Rows(width: Width, maxWidth: real, row: seq<string>, words: seq<string>): (rows: seq<seq<string>>)
    ensures rows == [] <==> row == [] && words == []
    decreases |words|
  {
    if words == [] then
      if row == [] then [] else [row]
    else if row != [] && width(Join(row + [words[0]])) > maxWidth then
      [row] + Rows(width, maxWidth, [words[0]], words[1..])
    else
      Rows(width, maxWidth, row + [words[0]], words[1..])
  }

  function JoinRows(rows: seq<seq<string>>): (lines: seq<string>)
    ensures |lines| == |rows|
    ensures forall i :: 0 <= i < |rows| ==> lines[i] == Join(rows[i])
  {
    seq(|rows|, i requires 0 <= i < |rows| => Join(rows[i]))
  }

  /** What is shown for the given rows: all of them, or the first `maxLines` with an ellipsis. */
  function Shown(rows: seq<seq<string>>, maxLines: nat): seq<string> {
    if rows == [] then [""]
    else if maxLines == 0 || |rows| <= maxLines then JoinRows(rows)
    else JoinRows(rows[..maxLines - 1]) + [Join(rows[maxLines - 1]) + ELLIPSIS]
  }

  /** One turn of the loop, on the rows still to come. */
  lemma {:induction false} NextWord(width: Width, maxWidth: real, row: seq<string>, words: seq<string>, k: nat)
    requires k < |words| && words[k] != ""
    ensures
      var candidate := if row == [] then words[k] else Join(row) + " " + words[k];
      && candidate == Join(row + [words[k]]) && candidate != "" && Join([words[k]]) == words[k]
      && Rows(width, maxWidth, row, words[k..])
         == if row != [] && width(candidate) > maxWidth then [row] + Rows(width, maxWidth, [words[k]], words[k + 1..])
            else Rows(width, maxWidth, row + [words[k]], words[k + 1..])
  {
    assert words[k..][0] == words[k] && words[k..][1..] == words[k + 1..];
    if row == [] {
      assert row + [words[k]] == [words[k]];
    } else {
      JoinAppend(row, words[k]);
    }
  }

  lemma NoWords(width: Width, maxWidth: real, row: seq<string>)
    ensures Rows(width, maxWidth, row, []) == if row == [] then [] else [row]
  {
  }

  lemma {:induction false} JoinRowsNext(rows: seq<seq<string>>, row: seq<string>)
    ensures JoinRows(rows + [row]) == JoinRows(rows) + [Join(row)]
  {
  }

  /** The lines returned early are the shown ones. */
  lemma {:induction false} ShownWhenCut(done: seq<seq<string>>, row: seq<string>, rest: seq<seq<string>>, maxLines: nat)
    requires |done| + 1 == maxLines && rest != []
    ensures Shown(done + ([row] + rest), maxLines) == JoinRows(done) + [Join(row) + ELLIPSIS]
  {
    var rows := done + ([row] + rest);
    assert rows[..maxLines - 1] == done && rows[maxLines - 1] == row;
  }

  method Wrap(width: Width, text: string, maxWidth: real, maxLines: nat) returns (lines: seq<string>)
    ensures lines == Shown(Rows(width, maxWidth, [], SplitWhitespace(text)), maxLines)
  {
    lines := [];
    var current := "";
    var words := SplitWhitespace(text);
    ghost var all := Rows(width, maxWidth, [], words);
    ghost var done: seq<seq<string>> := [];
    ghost var row: seq<string> := [];
    assert words[0..] == words && [] + all == all && JoinRows([]) == [];
    hide Rows, Join, JoinRows, SplitWhitespace, Shown;
    for k := 0 to |words|
      invariant all == done + Rows(width, maxWidth, row, words[k..])
      invariant lines == JoinRows(done) && |lines| == |done|
      invariant (current == "" <==> row == []) && (row != [] ==> current == Join(row))
      invariant row == [] <==> k == 0
      invariant row == [] ==> done == []
      invariant maxLines > 0 ==> |done| < maxLines
    {
      var word := words[k];
      NextWord(width, maxWidth, row, words, k);
      var candidate := if current == "" then word else current + " " + word;
      if width(candidate) > maxWidth && current != "" {
        ghost var rest := Rows(width, maxWidth, [word], words[k + 1..]);
        lines := lines + [current];
        JoinRowsNext(done, row);
        ConcatAssociative(done, [row], rest);
        if |lines| == maxLines {
          var last := lines[|lines| - 1] + ELLIPSIS;
          lines := lines[..|lines| - 1] + [last];
          ShownWhenCut(done, row, rest, maxLines);
          return;
        }
        done := done + [row];
        current := word;
        row := [word];
      } else {
        current := candidate;
        row := row + [word];
      }
    }
    assert words[|words|..] == [];
    NoWords(width, maxWidth, row);
    if current != "" {
      lines := lines + [current];
      JoinRowsNext(done, row);
    }
    ShownWhenAll(all, maxLines);
    if lines == [] {
      lines := [""];
    }
  }

  lemma {:induction false} ShownWhenAll(rows: seq<seq<string>>, maxLines: nat)
    requires maxLines > 0 ==> |rows| <= maxLines
    ensures Shown(rows, maxLines) == if rows == [] then [""] else JoinRows(rows)
  {
  }

  // ----- Every other wrapping -----

  function Flatten(rows: seq<seq<string>>): seq<string> {
    if rows == [] then [] else rows[0] + Flatten(rows[1..])
  }

  ghost predicate RowFits(width: Width, maxWidth: real, row: seq<string>) {
    |row| == 1 || (row != [] && width(Join(row)) <= maxWidth)
  }

  /** The words broken into non-empty lines, each of which fits or is a single word. */
  ghost predicate IsWrapping(width: Width, maxWidth: real, words: seq<string>, rows: seq<seq<string>>) {
    && Flatten(rows) == words
    && forall i :: 0 <= i < |rows| ==> RowFits(width, maxWidth, rows[i])
  }

  lemma {:induction false} WrappingCons(width: Width, maxWidth: real, row: seq<string>, words: seq<string>,
      rows: seq<seq<string>>)
    requires RowFits(width, maxWidth, row) && IsWrapping(width, maxWidth, words, rows)
    ensures IsWrapping(width, maxWidth, row + words, [row] + rows)
  {
    assert ([row] + rows)[1..] == rows;
  }

  lemma {:induction false} RowsIsWrapping(width: Width, maxWidth: real, row: seq<string>, words: seq<string>)
    requires row == [] || RowFits(width, maxWidth, row)
    ensures IsWrapping(width, maxWidth, row + words, Rows(width, maxWidth, row, words))
    decreases |words|
  {
    if words == [] {
      assert row + words == row && IsWrapping(width, maxWidth, [], []);
      if row != [] {
        WrappingCons(width, maxWidth, row, [], []);
        assert [row] + [] == [row];
      }
    } else {
      assert [words[0]] + words[1..] == words;
      ConcatAssociative(row, [words[0]], words[1..]);
      if row != [] && width(Join(row + [words[0]])) > maxWidth {
        RowsIsWrapping(width, maxWidth, [words[0]], words[1..]);
        WrappingCons(width, maxWidth, row, words, Rows(width, maxWidth, [words[0]], words[1..]));
      } else {
        RowsIsWrapping(width, maxWidth, row + [words[0]], words[1..]);
      }
      hide Join, IsWrapping;
    }
  }

  /** Any part of a line that fits, fits: a wider run cannot lie inside one line of a wrapping. */
  lemma {:induction false} PartFits(width: Width, maxWidth: real, row: seq<string>, from: nat, to: nat)
    requires Monotone(width) && RowFits(width, maxWidth, row) && AreWords(row)
    requires from + 2 <= to <= |row|
    ensures width(Join(row[from..to])) <= maxWidth
  {
    assert NoNarrower(width, row[..from], row[from..to], row[to..]);
    hide IsWord;
    assert row == row[..from] + row[from..to] + row[to..];
  }

  /**
   * Greedy stays ahead: started anywhere inside the words of another wrapping, the loop needs no more
   * lines than that wrapping uses for all of them.
   */
  lemma {:induction false} StaysAhead(width: Width, maxWidth: real, words: seq<string>, rows: seq<seq<string>>,
                                      k: nat, row: seq<string>, rest: seq<string>)
    requires Monotone(width) && AreWords(words)
    requires IsWrapping(width, maxWidth, words, rows)
    requires row != [] && k <= |words| && row + rest == words[k..]
    ensures |Rows(width, maxWidth, row, rest)| <= |rows|
    decreases |rest|
  {
    WrappingHead(width, maxWidth, words, rows, k, row);
    hide IsWord, Join, Monotone, IsWrapping;
    if rest != [] {
      var longer := row + [rest[0]];
      if width(Join(longer)) <= maxWidth {
        assert longer + rest[1..] == row + rest;
        StaysAhead(width, maxWidth, words, rows, k, longer, rest[1..]);
      } else {
        var k' := FirstRowFull(width, maxWidth, words, rows, k, row, rest);
        StaysAhead(width, maxWidth, words[|rows[0]|..], rows[1..], k', [rest[0]], rest[1..]);
      }
    }
  }

  lemma {:induction false} WrappingHead(width: Width, maxWidth: real, words: seq<string>, rows: seq<seq<string>>,
                                        k: nat, row: seq<string>)
    requires IsWrapping(width, maxWidth, words, rows) && row != [] && k <= |words| && row <= words[k..]
    ensures rows != [] && rows[0] + Flatten(rows[1..]) == words
    ensures IsWrapping(width, maxWidth, words[|rows[0]|..], rows[1..])
  {
    assert |words| > 0;
    assert words[|rows[0]|..] == Flatten(rows[1..]);
  }

  /** If the row cannot take the next word, it already reaches beyond the other wrapping's first row. */
  lemma {:induction false} FirstRowFull(width: Width, maxWidth: real, words: seq<string>, rows: seq<seq<string>>,
                                        k: nat, row: seq<string>, rest: seq<string>) returns (k': nat)
    requires Monotone(width) && AreWords(words)
    requires rows != [] && rows[0] + Flatten(rows[1..]) == words && RowFits(width, maxWidth, rows[0])
    requires row != [] && rest != [] && k <= |words| && row + rest == words[k..]
    requires width(Join(row + [rest[0]])) > maxWidth
    ensures k' <= |words[|rows[0]|..]| && [rest[0]] + rest[1..] == words[|rows[0]|..][k'..]
  {
    hide Join, Flatten, Monotone, IsWord;
    var first := |rows[0]|;
    var longer := row + [rest[0]];
    assert rest == words[k + |row|..];
    assert forall i :: 0 <= i < first ==> rows[0][i] == words[i];
    if k + |row| < first {
      assert longer == (row + rest)[..|longer|] == words[k..][..|longer|] == words[k..k + |longer|];
      assert rows[0][k..k + |longer|] == words[k..k + |longer|];
      PartFits(width, maxWidth, rows[0], k, k + |longer|);
      assert false;
    }
    k' := k + |row| - first;
    assert [rest[0]] + rest[1..] == rest == words[first..][k'..];
  }

  /** No wrapping of the same words has fewer lines. */
  lemma {:induction false} RowsAreFewest(width: Width, maxWidth: real, words: seq<string>, rows: seq<seq<string>>)
    requires Monotone(width) && AreWords(words) && IsWrapping(width, maxWidth, words, rows)
    ensures |Rows(width, maxWidth, [], words)| <= |rows|
  {
    if words != [] {
      assert [] + [words[0]] == [words[0]];
      assert [words[0]] + words[1..] == words == words[0..];
      StaysAhead(width, maxWidth, words, rows, 0, [words[0]], words[1..]);
    }
  }

  /** The shown text was cut off. */
  predicate Truncates(rows: seq<seq<string>>, maxLines: nat) {
    maxLines > 0 && |rows| > maxLines
  }

  /**
   * With a line limit: at most that many lines come out, and the text is cut exactly when no wrapping
   * stays within the limit.
   */
  lemma {:induction false} TruncatesOnlyWhenNecessary(width: Width, text: string, maxWidth: real, maxLines: nat)
    requires Monotone(width) && maxLines >= 1
    ensures
      var words := SplitWhitespace(text);
      var rows := Rows(width, maxWidth, [], words);
      && 1 <= |Shown(rows, maxLines)| <= maxLines
      && (Truncates(rows, maxLines)
          <==> forall other :: IsWrapping(width, maxWidth, words, other) ==> |other| > maxLines)
  {
    var words := SplitWhitespace(text);
    var rows := Rows(width, maxWidth, [], words);
    RowsIsWrapping(width, maxWidth, [], words);
    assert [] + words == words;
    forall other | IsWrapping(width, maxWidth, words, other) ensures |rows| <= |other| {
      RowsAreFewest(width, maxWidth, words, other);
    }
  }

  lemma {:induction false} JoinFlatten(rows: seq<seq<string>>)
    requires rows != []
    requires forall i :: 0 <= i < |rows| ==> rows[i] != []
    ensures Flatten(rows) != []
    ensures Join(JoinRows(rows)) == Join(Flatten(rows))
    decreases |rows|
  {
    if |rows| == 1 {
      assert rows[1..] == [] && Flatten(rows) == rows[0] + [] == rows[0];
    } else {
      JoinFlatten(rows[1..]);
      assert JoinRows(rows) == [Join(rows[0])] + JoinRows(rows[1..]);
      JoinConcat([Join(rows[0])], JoinRows(rows[1..]));
      JoinConcat(rows[0], Flatten(rows[1..]));
    }
  }

  /** Without truncation every word survives, in order: re-splitting the lines gives the words of the text. */
  lemma {:induction false} NoWordLost(width: Width, text: string, maxWidth: real, maxLines: nat)
    requires !Truncates(Rows(width, maxWidth, [], SplitWhitespace(text)), maxLines)
    ensures SplitWhitespace(Join(Shown(Rows(width, maxWidth, [], SplitWhitespace(text)), maxLines)))
         == SplitWhitespace(text)
  {
    var words := SplitWhitespace(text);
    var rows := Rows(width, maxWidth, [], words);
    RowsIsWrapping(width, maxWidth, [], words);
    assert [] + words == words;
    if words != [] {
      JoinFlatten(rows);
      SplitJoin(words);
    }
  }

  /**
   * With truncation the lines, less the ellipsis, are a prefix of the words of the text: nothing is
   * reordered, and something is missing.
   */
  lemma {:induction false} TruncationKeepsPrefix(width: Width, text: string, maxWidth: real, maxLines: nat)
    requires Truncates(Rows(width, maxWidth, [], SplitWhitespace(text)), maxLines)
    ensures
      var words := SplitWhitespace(text);
      var rows := Rows(width, maxWidth, [], words);
      var kept := Flatten(rows[..maxLines]);
      && Shown(rows, maxLines)[maxLines - 1] == Join(rows[maxLines - 1]) + ELLIPSIS
      && kept < words
      && SplitWhitespace(Join(JoinRows(rows[..maxLines]))) == kept
  {
    var words := SplitWhitespace(text);
    var rows := Rows(width, maxWidth, [], words);
    RowsIsWrapping(width, maxWidth, [], words);
    assert [] + words == words;
    var shown, cut := rows[..maxLines], rows[maxLines..];
    assert rows == shown + cut;
    FlattenConcat(shown, cut);
    JoinFlatten(cut);
    JoinFlatten(shown);
    hide Flatten, Join, Rows, SplitWhitespace;
    PrefixOfWords(words, Flatten(shown), Flatten(cut));
  }

  lemma {:induction false} PrefixOfWords(words: seq<string>, kept: seq<string>, rest: seq<string>)
    requires words == kept + rest && rest != [] && forall i :: 0 <= i < |words| ==> IsWord(words[i])
    ensures kept < words && SplitWhitespace(Join(kept)) == kept
  {
    forall i | 0 <= i < |kept| ensures IsWord(kept[i]) {
      assert kept[i] == words[i];
    }
    SplitJoin(kept);
  }

  lemma {:induction false} FlattenConcat(a: seq<seq<string>>, b: seq<seq<string>>)
    ensures Flatten(a + b) == Flatten(a) + Flatten(b)
    decreases |a|
  {
    if a == [] {
      assert a + b == b;
    } else {
      assert (a + b)[1..] == a[1..] + b;
      FlattenConcat(a[1..], b);
    }
  }
}
