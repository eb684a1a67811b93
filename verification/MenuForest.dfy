/** Tray menus: a forest of items and its flattening into indented rows. */
module MenuForest {
  import opened Text

  datatype Kind = Standard | Separator

  datatype Item = Item(id: int, caption: string, enabled: bool, kind: Kind, children: seq<Item>)

  datatype Entry = Entry(id: int, caption: string, enabled: bool, separator: bool, depth: nat)

  // ----- Counting and searching the forest -----

  function SubtreeCount(item: Item): nat
    decreases item, 1
  {
    1 + VisibleItemCount(item.children)
  }

  function VisibleItemCount(items: seq<Item>): nat
    decreases items, 0
  {
    if items == [] then 0 else SubtreeCount(items[0]) + VisibleItemCount(items[1..])
  }

  function ActionableCount(item: Item): nat
    decreases item, 1
  {
    (if item.enabled && item.kind == Standard then 1 else 0) + ActionableItemCount(item.children)
  }

  function ActionableItemCount(items: seq<Item>): nat
    decreases items, 0
  {
    if items == [] then 0 else ActionableCount(items[0]) + ActionableItemCount(items[1..])
  }

  function FirstLabel(item: Item): Option<string>
    decreases item, 1
  {
    if item.caption != "" then Some(item.caption) else FirstItemLabel(item.children)
  }

  function FirstItemLabel(items: seq<Item>): Option<string>
    decreases items, 0
  {
    if items == [] then None
    else
      var first := FirstLabel(items[0]);
      if first.Some? then first else FirstItemLabel(items[1..])
  }

  // ----- Flattening -----

  function Row(item: Item, depth: nat): Entry {
    Entry(item.id, item.caption, item.enabled, item.kind == Separator, depth)
  }

  /** Preorder: an item, then its children one level deeper. */
  function Flat(item: Item, depth: nat): seq<Entry>
    decreases item, 1
  {
    [Row(item, depth)] + FlatAll(item.children, depth + 1)
  }

  function FlatAll(items: seq<Item>, depth: nat): seq<Entry>
    decreases items, 0
  {
    if items == [] then [] else Flat(items[0], depth) + FlatAll(items[1..], depth)
  }

  lemma {:induction false} FlatAllSnoc(items: seq<Item>, item: Item, depth: nat)
    ensures FlatAll(items + [item], depth) == FlatAll(items, depth) + Flat(item, depth)
    decreases |items|
  {
    if items == [] {
      assert [] + [item] == [item] && [item][1..] == [];
    } else {
      assert (items + [item])[1..] == items[1..] + [item];
      FlatAllSnoc(items[1..], item, depth);
    }
  }

  method PushDisplayEntries(item: Item, depth: nat, entries: seq<Entry>) returns (pushed: seq<Entry>)
    ensures pushed == entries + Flat(item, depth)
    decreases item
  {
    pushed := entries + [Row(item, depth)];
    for k := 0 to |item.children|
      invariant pushed == entries + [Row(item, depth)] + FlatAll(item.children[..k], depth + 1)
    {
      assert item.children[..k + 1] == item.children[..k] + [item.children[k]];
      FlatAllSnoc(item.children[..k], item.children[k], depth + 1);
      pushed := PushDisplayEntries(item.children[k], depth + 1, pushed);
    }
    assert item.children[..|item.children|] == item.children;
  }

  method DisplayEntries(items: seq<Item>) returns (entries: seq<Entry>)
    ensures entries == FlatAll(items, 0)
  {
    entries := [];
    for k := 0 to |items|
      invariant entries == FlatAll(items[..k], 0)
    {
      assert items[..k + 1] == items[..k] + [items[k]];
      FlatAllSnoc(items[..k], items[k], 0);
      entries := PushDisplayEntries(items[k], 0, entries);
    }
    assert items[..|items|] == items;
  }

  // ----- Rebuilding the forest -----

  /** Length of the leading run of rows at `depth` or deeper. */
  function Extent(entries: seq<Entry>, depth: nat): (n: nat)
    ensures n <= |entries|
    ensures forall i :: 0 <= i < n ==> entries[i].depth >= depth
    ensures n < |entries| ==> entries[n].depth < depth
  {
    if entries == [] || entries[0].depth < depth then 0 else 1 + Extent(entries[1..], depth)
  }

  /** Reads rows back into a forest: the rows deeper than a row, directly below it, are its subtree. */
  function Unflatten(entries: seq<Entry>): seq<Item>
    decreases |entries|
  {
    if entries == [] then []
    else
      var head := entries[0];
      var n := Extent(entries[1..], head.depth + 1);
      var children := Unflatten(entries[1..][..n]);
      [Item(head.id, head.caption, head.enabled, if head.separator then Separator else Standard, children)]
      + Unflatten(entries[1..][n..])
  }

  /** The first row, the rows of its subtree, and the rows of the remaining items. */
  lemma {:induction false} FlatAllCons(item: Item, items: seq<Item>, depth: nat)
    ensures FlatAll([item] + items, depth)
         == [Row(item, depth)] + (FlatAll(item.children, depth + 1) + FlatAll(items, depth))
  {
    assert ([item] + items)[1..] == items;
    ConcatAssociative([Row(item, depth)], FlatAll(item.children, depth + 1), FlatAll(items, depth));
  }

  lemma {:induction false} FlatAllParts(items: seq<Item>, depth: nat)
    requires items != []
    ensures FlatAll(items, depth)
         == [Row(items[0], depth)] + (FlatAll(items[0].children, depth + 1) + FlatAll(items[1..], depth))
  {
    assert [items[0]] + items[1..] == items;
    FlatAllCons(items[0], items[1..], depth);
  }

  lemma {:induction false} FlatDepth(items: seq<Item>, depth: nat)
    ensures forall i :: 0 <= i < |FlatAll(items, depth)| ==> FlatAll(items, depth)[i].depth >= depth
    ensures items != [] ==> FlatAll(items, depth) != [] && FlatAll(items, depth)[0].depth == depth
    decreases items
  {
    if items != [] {
      FlatDepth(items[0].children, depth + 1);
      FlatDepth(items[1..], depth);
      hide FlatAll;
      FlatAllParts(items, depth);
    }
  }

  lemma {:induction false} ExtentOfSubtree(below: seq<Entry>, after: seq<Entry>, depth: nat)
    requires forall i :: 0 <= i < |below| ==> below[i].depth >= depth
    requires after == [] || after[0].depth < depth
    ensures Extent(below + after, depth) == |below|
    decreases |below|
  {
    if below == [] {
      assert below + after == after;
    } else {
      assert (below + after)[1..] == below[1..] + after;
      ExtentOfSubtree(below[1..], after, depth);
    }
  }

  lemma {:induction false} UnflattenParts(head: Entry, below: seq<Entry>, after: seq<Entry>)
    requires forall i :: 0 <= i < |below| ==> below[i].depth > head.depth
    requires after == [] || after[0].depth <= head.depth
    ensures Unflatten([head] + (below + after))
         == [Item(head.id, head.caption, head.enabled, if head.separator then Separator
             else Standard, Unflatten(below))]
          + Unflatten(after)
  {
    ExtentOfSubtree(below, after, head.depth + 1);
    var entries := [head] + (below + after);
    assert entries[1..] == below + after;
    assert entries[1..][..|below|] == below && entries[1..][|below|..] == after;
  }

  lemma HeadAndTail<T>(s: seq<T>)
    requires s != []
    ensures [s[0]] + s[1..] == s
  {
  }

  lemma SplitTail<T>(s: seq<T>, n: nat)
    requires s != [] && n <= |s| - 1
    ensures s == [s[0]] + (s[1..][..n] + s[1..][n..])
  {
  }

  /** Flattening loses nothing: the rows determine the whole forest. */
  lemma {:induction false} UnflattenFlat(items: seq<Item>, depth: nat)
    ensures Unflatten(FlatAll(items, depth)) == items
    decreases items
  {
    if items == [] {
      assert FlatAll(items, depth) == [];
    } else {
      hide FlatAll, Unflatten;
      UnflattenFlat(items[0].children, depth + 1);
      UnflattenFlat(items[1..], depth);
      FlatDepth(items[0].children, depth + 1);
      FlatDepth(items[1..], depth);
      FlatAllParts(items, depth);
      UnflattenParts(Row(items[0], depth), FlatAll(items[0].children, depth + 1), FlatAll(items[1..], depth));
      HeadAndTail(items);
    }
  }

  /** Rows that can come from a forest at `depth`: the first is at `depth`, and each goes at most one level deeper. */
  predicate WellNested(entries: seq<Entry>, depth: nat) {
    && (forall i :: 0 <= i < |entries| ==> entries[i].depth >= depth)
    && (entries != [] ==> entries[0].depth == depth)
    && (forall i, j :: 0 <= i < |entries| && j == i + 1 && j < |entries| ==> entries[j].depth <= entries[i].depth + 1)
  }

  /** A well-nested list splits into its first row, the well-nested rows below it, and the rest. */
  lemma {:induction false} WellNestedParts(head: Entry, below: seq<Entry>, after: seq<Entry>, depth: nat)
    requires WellNested([head] + (below + after), depth)
    requires forall i :: 0 <= i < |below| ==> below[i].depth > depth
    requires after == [] || after[0].depth <= depth
    ensures head.depth == depth && WellNested(below, depth + 1) && WellNested(after, depth)
  {
    var entries := [head] + (below + after);
    assert entries[0] == head;
    assert forall i :: 0 <= i < |below| ==> below[i] == entries[i + 1];
    assert forall i :: 0 <= i < |after| ==> after[i] == entries[i + 1 + |below|];
  }

  /** The first row, the rows deeper than it directly below, and the others. */
  lemma {:induction false} SplitAtSubtree(entries: seq<Entry>, depth: nat)
    returns (below: seq<Entry>, after: seq<Entry>)
    requires entries != []
    ensures entries == [entries[0]] + (below + after)
    ensures forall i :: 0 <= i < |below| ==> below[i].depth > depth
    ensures after == [] || after[0].depth <= depth
  {
    var n := Extent(entries[1..], depth + 1);
    below, after := entries[1..][..n], entries[1..][n..];
    SplitTail(entries, n);
  }

  /** Conversely every well-nested list of rows is the flattening of the forest read from it. */
  lemma {:induction false} FlatUnflatten(entries: seq<Entry>, depth: nat)
    requires WellNested(entries, depth)
    ensures FlatAll(Unflatten(entries), depth) == entries
    decreases |entries|
  {
    hide *;
    if entries == [] {
      NoRows(depth);
    } else {
      var below, after := SplitAtSubtree(entries, depth);
      var head := entries[0];
      assert |entries| == 1 + |below| + |after|;
      WellNestedParts(head, below, after, depth);
      FlatUnflatten(below, depth + 1);
      FlatUnflatten(after, depth);
      UnflattenParts(head, below, after);
      FlatRebuilt(head, Unflatten(below), Unflatten(after));
    }
  }

  lemma NoRows(depth: nat)
    ensures FlatAll(Unflatten([]), depth) == []
  {
  }

  lemma {:induction false} FlatRebuilt(head: Entry, children: seq<Item>, rest: seq<Item>)
    ensures
      var item := Item(head.id, head.caption, head.enabled, if head.separator then Separator else Standard, children);
      FlatAll([item] + rest, head.depth) == [head] + (FlatAll(children, head.depth + 1) + FlatAll(rest, head.depth))
  {
    var item := Item(head.id, head.caption, head.enabled, if head.separator then Separator else Standard, children);
    FlatAllCons(item, rest, head.depth);
    assert Row(item, head.depth) == head;
  }

  lemma {:induction false} WellNestedJoin(head: Entry, below: seq<Entry>, after: seq<Entry>, depth: nat)
    requires head.depth == depth && WellNested(below, depth + 1) && WellNested(after, depth)
    ensures WellNested([head] + (below + after), depth)
  {
    var entries := [head] + (below + after);
    assert entries[0] == head;
    forall i | 0 <= i < |entries| ensures entries[i].depth >= depth {
      DepthJoin(head, below, after, depth, i);
    }
    forall i, j | 0 <= i < |entries| && j == i + 1 && j < |entries|
      ensures entries[j].depth <= entries[i].depth + 1
    {
      StepJoin(head, below, after, depth, i);
    }
  }

  lemma {:induction false} DepthJoin(head: Entry, below: seq<Entry>, after: seq<Entry>, depth: nat, i: nat)
    requires head.depth == depth && WellNested(below, depth + 1) && WellNested(after, depth)
    requires i < |[head] + (below + after)|
    ensures ([head] + (below + after))[i].depth >= depth
  {
    if 0 < i {
      var rest := below + after;
      assert ([head] + rest)[i] == rest[i - 1];
      assert rest[i - 1] == if i - 1 < |below| then below[i - 1] else after[i - 1 - |below|];
    }
  }

  lemma {:induction false} StepJoin(head: Entry, below: seq<Entry>, after: seq<Entry>, depth: nat, i: nat)
    requires head.depth == depth && WellNested(below, depth + 1) && WellNested(after, depth)
    requires i + 1 < |[head] + (below + after)|
    ensures ([head] + (below + after))[i + 1].depth <= ([head] + (below + after))[i].depth + 1
  {
    var rest := below + after;
    assert ([head] + rest)[i + 1] == rest[i];
    if i == 0 {
      assert rest[0] == if below != [] then below[0] else after[0];
    } else {
      assert ([head] + rest)[i] == rest[i - 1];
      if i < |below| {
        assert rest[i] == below[i] && rest[i - 1] == below[i - 1];
      } else if |below| < i {
        assert rest[i] == after[i - |below|] && rest[i - 1] == after[i - 1 - |below|];
      }
    }
  }

  lemma {:induction false} FlatIsWellNested(items: seq<Item>, depth: nat)
    ensures WellNested(FlatAll(items, depth), depth)
    decreases items
  {
    if items != [] {
      hide FlatAll, WellNested;
      FlatIsWellNested(items[0].children, depth + 1);
      FlatIsWellNested(items[1..], depth);
      FlatAllParts(items, depth);
      WellNestedJoin(Row(items[0], depth), FlatAll(items[0].children, depth + 1), FlatAll(items[1..], depth), depth);
    }
  }

  /** The rows a menu can show are exactly the well-nested lists starting at depth zero. */
  lemma {:induction false} DisplayableRows(entries: seq<Entry>)
    ensures WellNested(entries, 0) <==> exists items: seq<Item> :: FlatAll(items, 0) == entries
  {
    if WellNested(entries, 0) {
      FlatUnflatten(entries, 0);
      assert FlatAll(Unflatten(entries), 0) == entries;
    }
    forall items: seq<Item> | FlatAll(items, 0) == entries ensures WellNested(entries, 0) {
      FlatIsWellNested(items, 0);
    }
  }

  // ----- Counts and labels read off the rows -----

  function EnabledRows(entries: seq<Entry>): nat {
    if entries == [] then 0
    else (if entries[0].enabled && !entries[0].separator then 1 else 0) + EnabledRows(entries[1..])
  }

  function FirstRowLabel(entries: seq<Entry>): Option<string> {
    if entries == [] then None
    else if entries[0].caption != "" then Some(entries[0].caption)
    else FirstRowLabel(entries[1..])
  }

  lemma {:induction false} RowsConcat(a: seq<Entry>, b: seq<Entry>)
    ensures EnabledRows(a + b) == EnabledRows(a) + EnabledRows(b)
    ensures FirstRowLabel(a + b) == if FirstRowLabel(a).Some? then FirstRowLabel(a) else FirstRowLabel(b)
    decreases |a|
  {
    if a == [] {
      assert a + b == b;
    } else {
      assert (a + b)[1..] == a[1..] + b;
      RowsConcat(a[1..], b);
    }
  }

  /** The menu's own counts and first label are those of its rows. */
  lemma {:induction false} RowsMatchMenu(items: seq<Item>, depth: nat)
    ensures |FlatAll(items, depth)| == VisibleItemCount(items)
    ensures EnabledRows(FlatAll(items, depth)) == ActionableItemCount(items)
    ensures FirstRowLabel(FlatAll(items, depth)) == FirstItemLabel(items)
    decreases items
  {
    if items != [] {
      var below := FlatAll(items[0].children, depth + 1);
      RowsMatchMenu(items[0].children, depth + 1);
      RowsMatchMenu(items[1..], depth);
      RowsConcat(Flat(items[0], depth), FlatAll(items[1..], depth));
      assert Flat(items[0], depth)[1..] == below;
    }
  }
}
