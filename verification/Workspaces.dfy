/**
 * The compositor's nine workspaces.  A workspace maps its windows to locations and carries the outputs it
 * is shown on; stacking order is not modelled.
 */
module Workspaces {
  import opened Arithmetic
  import opened Text

  datatype Point = Point(x: int, y: int)

  datatype Size = Size(w: int, h: int)

  datatype Rectangle = Rectangle(loc: Point, size: Size)

  const ORIGIN := Point(0, 0)
  const I32_MIN := -0x8000_0000

  /** `i32::saturating_add`: the sum, or the nearest number in range. */
  function SaturatingAdd(a: int, b: int): (r: int)
    ensures I32_MIN <= r <= I32_MAX
    ensures r < a + b ==> r == I32_MAX
    ensures r > a + b ==> r == I32_MIN
  {
    if a + b > I32_MAX then I32_MAX else if a + b < I32_MIN then I32_MIN else a + b
  }

  /** Rectangles that merely touch do not overlap. */
  predicate Overlaps(a: Rectangle, b: Rectangle) {
    && a.loc.x < SaturatingAdd(b.loc.x, b.size.w)
    && b.loc.x < SaturatingAdd(a.loc.x, a.size.w)
    && a.loc.y < SaturatingAdd(b.loc.y, b.size.h)
    && b.loc.y < SaturatingAdd(a.loc.y, a.size.h)
  }

  /** The point lies in the rectangle, its right and lower edges excluded. */
  predicate Covers(r: Rectangle, x: int, y: int) {
    && r.loc.x <= x < SaturatingAdd(r.loc.x, r.size.w)
    && r.loc.y <= y < SaturatingAdd(r.loc.y, r.size.h)
  }

  /** Rectangles that are not empty overlap exactly if some point lies in both. */
  lemma {:induction false} OverlapIff(a: Rectangle, b: Rectangle)
    requires Covers(a, a.loc.x, a.loc.y) && Covers(b, b.loc.x, b.loc.y)
    ensures Overlaps(a, b) <==> exists x, y :: Covers(a, x, y) && Covers(b, x, y)
  {
    hide SaturatingAdd;
    if Overlaps(a, b) {
      var x, y := Max(a.loc.x, b.loc.x), Max(a.loc.y, b.loc.y);
      assert Covers(a, x, y) && Covers(b, x, y);
    }
  }

  predicate OnSomeOutput(outputs: seq<Rectangle>, rect: Rectangle) {
    exists k :: 0 <= k < |outputs| && Overlaps(outputs[k], rect)
  }

  datatype Space<W> = Space(elements: map<W, Point>, outputs: set<int>)

  datatype State<W> = State(spaces: seq<Space<W>>, active: nat)

  // ----- The operations on values -----

  predicate CanTarget<W>(m: State<W>, idx: nat) {
    idx < |m.spaces| && idx != m.active
  }

  function Switched<W>(m: State<W>, idx: nat): State<W> {
    if CanTarget(m, idx) then m.(active := idx) else m
  }

  function LocationOrOrigin<W>(space: Space<W>, w: W): Point {
    if w in space.elements then space.elements[w] else ORIGIN
  }

  function Unmap<W>(space: Space<W>, w: W): Space<W> {
    space.(elements := space.elements - {w})
  }

  function MapElement<W>(space: Space<W>, w: W, at: Point): Space<W> {
    space.(elements := space.elements[w := at])
  }

  function Moved<W>(m: State<W>, w: W, target: nat): State<W>
    requires m.active < |m.spaces|
  {
    if !CanTarget(m, target) then m
    else
      m.(spaces := m.spaces[m.active := Unmap(m.spaces[m.active], w)]
                           [target := MapElement(m.spaces[target], w, LocationOrOrigin(m.spaces[m.active], w))])
  }

  function Strays<W>(space: Space<W>, size: W -> Size, outputs: seq<Rectangle>): set<W> {
    set w | w in space.elements && !OnSomeOutput(outputs, Rectangle(space.elements[w], size(w)))
  }

  /** The windows in `strays` put at the fallback point. */
  function Rescued<W>(space: Space<W>, strays: set<W>, fallback: Point): Space<W> {
    space.(elements := map w | w in space.elements :: if w in strays then fallback else space.elements[w])
  }

  function Reclamped<W>(spaces: seq<Space<W>>, size: W -> Size, outputs: seq<Rectangle>, fallback: Point)
    : (r: seq<Space<W>>)
    ensures |r| == |spaces|
    ensures forall i :: 0 <= i < |spaces| ==>
      r[i] == if outputs == [] then spaces[i] else Rescued(spaces[i], Strays(spaces[i], size, outputs), fallback)
  {
    if outputs == [] then spaces
    else seq(|spaces|, i requires 0 <= i < |spaces| => Rescued(spaces[i], Strays(spaces[i], size, outputs), fallback))
  }

  function StrayCount<W>(spaces: seq<Space<W>>, size: W -> Size, outputs: seq<Rectangle>): nat {
    if spaces == [] || outputs == [] then 0
    else StrayCount(spaces[..|spaces| - 1], size, outputs) + |Strays(spaces[|spaces| - 1], size, outputs)|
  }

  lemma StraysAreMapped<W>(space: Space<W>, size: W -> Size, outputs: seq<Rectangle>)
    ensures Strays(space, size, outputs) <= space.elements.Keys
  {
  }

  function Elements(outputs: seq<int>): set<int> {
    set k | 0 <= k < |outputs| :: outputs[k]
  }

  // ----- The manager -----

  class WorkspaceManager<W(==)> {
    var spaces: seq<Space<W>>
    var active: nat

    ghost function Model(): State<W>
      reads this
    {
      State(spaces, active)
    }

    ghost predicate Valid()
      reads this
    {
      active < |spaces|
    }

    constructor ()
      ensures Valid() && Model() == State(seq(9, _ => Space(map[], {})), 0)
    {
      spaces := seq(9, _ => Space(map[], {}));
      active := 0;
    }

    /** The first workspace, in order, with a matching window; any of its matching windows. */
    method FindElementWorkspace(pred: W -> bool) returns (found: Option<(nat, W)>)
      ensures found.Some? ==>
        var (ws, w) := found.value;
        && ws < |spaces| && w in spaces[ws].elements && pred(w)
        && forall i, v :: 0 <= i < ws && v in spaces[i].elements ==> !pred(v)
      ensures found.None? ==> forall i, v :: 0 <= i < |spaces| && v in spaces[i].elements ==> !pred(v)
    {
      for ws := 0 to |spaces|
        invariant forall i, v :: 0 <= i < ws && v in spaces[i].elements ==> !pred(v)
      {
        var matching := set w | w in spaces[ws].elements && pred(w);
        if matching != {} {
          var w :| w in matching;
          return Some((ws, w));
        }
        assert forall v :: v in spaces[ws].elements && pred(v) ==> v in matching;
      }
      found := None;
    }

    method ReclampOffscreenWindows(size: W -> Size, outputs: seq<Rectangle>, fallback: Point) returns (moved: nat)
      modifies `spaces
      ensures spaces == Reclamped(old(spaces), size, outputs, fallback)
      ensures moved == StrayCount(old(spaces), size, outputs)
    {
      moved := 0;
      if outputs == [] {
        return;
      }
      hide Strays, Rescued;
      var before := spaces;
      for i := 0 to |before|
        invariant |spaces| == |before|
        invariant forall j :: 0 <= j < i ==> spaces[j] == Reclamped(before, size, outputs, fallback)[j]
        invariant forall j :: i <= j < |before| ==> spaces[j] == before[j]
        invariant moved == StrayCount(before[..i], size, outputs)
      {
        var strays := Strays(before[i], size, outputs);
        assert before[..i + 1][..i] == before[..i];
        StraysAreMapped(before[i], size, outputs);
        RescueAll(i, strays, fallback);
        moved := moved + |strays|;
      }
      assert before[..|before|] == before;
    }

    /** Maps each stray again, at the fallback point. */
    method RescueAll(i: nat, strays: set<W>, fallback: Point)
      requires i < |spaces| && strays <= spaces[i].elements.Keys
      modifies `spaces
      ensures spaces == old(spaces)[i := Rescued(old(spaces)[i], strays, fallback)]
    {
      var left := strays;
      assert Rescued(spaces[i], strays - left, fallback).elements == spaces[i].elements;
      while left != {}
        invariant left <= strays
        invariant |spaces| == |old(spaces)|
        invariant spaces == old(spaces)[i := Rescued(old(spaces)[i], strays - left, fallback)]
        decreases left
      {
        var w :| w in left;
        left := left - {w};
        ghost var space := spaces[i];
        spaces := spaces[i := MapElement(spaces[i], w, fallback)];
        assert MapElement(space, w, fallback).elements == Rescued(old(spaces)[i], strays - left, fallback).elements;
      }
      assert strays - {} == strays;
    }

    method TrySwitch(idx: nat) returns (switched: Option<(nat, nat)>)
      modifies `active
      ensures Model() == Switched(old(Model()), idx)
      ensures switched == if CanTarget(old(Model()), idx) then Some((old(active), idx)) else None
    {
      if !(idx < |spaces| && idx != active) {
        return None;
      }
      var previous := active;
      active := idx;
      switched := Some((previous, idx));
    }

    method MoveWindowTo(window: W, target: nat)
      requires Valid()
      modifies `spaces
      ensures Model() == Moved(old(Model()), window, target)
    {
      if !(target < |spaces| && target != active) {
        return;
      }
      var loc := if window in spaces[active].elements then spaces[active].elements[window] else ORIGIN;
      spaces := spaces[active := Unmap(spaces[active], window)];
      spaces := spaces[target := MapElement(spaces[target], window, loc)];
    }

    /** `previous` and `next` are what a successful switch returned. */
    method RemapOutputs(outputs: seq<int>, previous: nat, next: nat)
      requires previous < |spaces| && next < |spaces| && previous != next
      modifies `spaces
      ensures |spaces| == |old(spaces)|
      ensures spaces[previous] == old(spaces)[previous].(outputs := old(spaces)[previous].outputs - Elements(outputs))
      ensures spaces[next] == old(spaces)[next].(outputs := old(spaces)[next].outputs + Elements(outputs))
      ensures forall i :: 0 <= i < |spaces| && i != previous && i != next ==> spaces[i] == old(spaces)[i]
    {
      for k := 0 to |outputs|
        invariant |spaces| == |old(spaces)|
        invariant spaces[previous].elements == old(spaces)[previous].elements
        invariant spaces[next].elements == old(spaces)[next].elements
        invariant spaces[previous].outputs == old(spaces)[previous].outputs - Elements(outputs[..k])
        invariant spaces[next].outputs == old(spaces)[next].outputs + Elements(outputs[..k])
        invariant forall i :: 0 <= i < |spaces| && i != previous && i != next ==> spaces[i] == old(spaces)[i]
      {
        ElementsNext(outputs, k);
        spaces := spaces[previous := spaces[previous].(outputs := spaces[previous].outputs - {outputs[k]})];
        spaces := spaces[next := spaces[next].(outputs := spaces[next].outputs + {outputs[k]})];
      }
      assert outputs[..|outputs|] == outputs;
    }
  }

  lemma {:induction false} ElementsNext(outputs: seq<int>, k: nat)
    requires k < |outputs|
    ensures Elements(outputs[..k + 1]) == Elements(outputs[..k]) + {outputs[k]}
  {
    forall o | o in Elements(outputs[..k + 1]) ensures o in Elements(outputs[..k]) + {outputs[k]} {
      var i :| 0 <= i < k + 1 && outputs[..k + 1][i] == o;
      assert i < k ==> outputs[..k][i] == o;
    }
    forall o | o in Elements(outputs[..k]) + {outputs[k]} ensures o in Elements(outputs[..k + 1]) {
      if o in Elements(outputs[..k]) {
        var i :| 0 <= i < k && outputs[..k][i] == o;
        assert outputs[..k + 1][i] == o;
      } else {
        assert outputs[..k + 1][k] == o;
      }
    }
  }

  // ----- Where a window lives -----

  predicate LivesAt<W>(m: State<W>, w: W, i: nat) {
    i < |m.spaces| && w in m.spaces[i].elements
  }

  /** Each window is on at most one workspace. */
  ghost predicate Unique<W(!new)>(m: State<W>) {
    forall w: W, i, j :: LivesAt(m, w, i) && LivesAt(m, w, j) ==> i == j
  }

  ghost predicate Lives<W>(m: State<W>, w: W) {
    exists i :: LivesAt(m, w, i)
  }

  ghost predicate SameWindows<W(!new)>(a: State<W>, b: State<W>) {
    forall w: W :: Lives(a, w) <==> Lives(b, w)
  }

  lemma {:induction false} MovedLives<W>(m: State<W>, w: W, target: nat, v: W, i: nat)
    requires m.active < |m.spaces| && CanTarget(m, target)
    ensures LivesAt(Moved(m, w, target), v, i)
       <==> if v == w then i == target || (i != m.active && LivesAt(m, w, i)) else LivesAt(m, v, i)
  {
  }

  /** Moving keeps windows unique exactly when the moved one lives nowhere but on the active or the target workspace. */
  lemma {:induction false} MoveKeepsUniqueIff<W(!new)>(m: State<W>, w: W, target: nat)
    requires m.active < |m.spaces| && CanTarget(m, target) && Unique(m)
    ensures Unique(Moved(m, w, target)) <==> forall i :: LivesAt(m, w, i) ==> i == m.active || i == target
  {
    var r := Moved(m, w, target);
    MovedLives(m, w, target, w, target);
    forall v: W, i: nat
      ensures LivesAt(r, v, i) <==> if v == w then i == target || (i != m.active && LivesAt(m, w, i))
          else LivesAt(m, v, i)
    {
      MovedLives(m, w, target, v, i);
    }
    if i :| LivesAt(m, w, i) && i != m.active && i != target {
      assert LivesAt(r, w, i) && LivesAt(r, w, target);
    }
  }

  lemma {:induction false} MovedLocation<W>(m: State<W>, w: W, target: nat, v: W, i: nat)
    requires m.active < |m.spaces| && CanTarget(m, target) && LivesAt(m, w, m.active)
    requires LivesAt(Moved(m, w, target), v, i)
    ensures v == w && i == target ==>
      Moved(m, w, target).spaces[i].elements[v] == m.spaces[m.active].elements[w]
    ensures v != w ==>
      LivesAt(m, v, i) && Moved(m, w, target).spaces[i].elements[v] == m.spaces[i].elements[v]
  {
  }

  /** A window moved off the active workspace is on the target only, at its old location; no other window moves. */
  lemma {:induction false} MoveFromActive<W(!new)>(m: State<W>, w: W, target: nat)
    requires m.active < |m.spaces| && CanTarget(m, target) && Unique(m) && LivesAt(m, w, m.active)
    ensures
      var r := Moved(m, w, target);
      && Unique(r) && SameWindows(m, r)
      && (forall i :: LivesAt(r, w, i) <==> i == target)
      && (forall v: W, i :: v != w ==> (LivesAt(r, v, i) <==> LivesAt(m, v, i)))
      && r.spaces[target].elements[w] == m.spaces[m.active].elements[w]
      && (forall v: W, i: nat :: v != w && LivesAt(r, v, i) ==>
                                 LivesAt(m, v, i) && r.spaces[i].elements[v] == m.spaces[i].elements[v])
  {
    var r := Moved(m, w, target);
    MoveKeepsUniqueIff(m, w, target);
    forall v: W, i: nat
      ensures LivesAt(r, v, i) <==> if v == w then i == target || (i != m.active && LivesAt(m, w, i))
          else LivesAt(m, v, i)
    {
      MovedLives(m, w, target, v, i);
    }
    assert LivesAt(r, w, target);
    MovedLocation(m, w, target, w, target);
    forall v: W, i: nat | v != w && LivesAt(r, v, i)
      ensures i < |m.spaces| && v in m.spaces[i].elements && r.spaces[i].elements[v] == m.spaces[i].elements[v]
    {
      MovedLocation(m, w, target, v, i);
    }
    hide Moved;
    forall v: W ensures Lives(m, v) <==> Lives(r, v) {
      if v != w {
        if i :| LivesAt(m, v, i) { assert LivesAt(r, v, i); }
        if i :| LivesAt(r, v, i) { assert LivesAt(m, v, i); }
      }
    }
  }

  /** A window that is not on the active workspace is mapped on the target, at the origin; nothing else changes. */
  lemma {:induction false} MoveFromElsewhere<W>(m: State<W>, w: W, target: nat)
    requires m.active < |m.spaces| && CanTarget(m, target) && !LivesAt(m, w, m.active)
    ensures
      var r := Moved(m, w, target);
      && r.active == m.active && |r.spaces| == |m.spaces|
      && (forall i :: 0 <= i < |m.spaces| && i != target ==> r.spaces[i] == m.spaces[i])
      && r.spaces[target] == m.spaces[target].(elements := m.spaces[target].elements[w := Point(0, 0)])
  {
    assert m.spaces[m.active].elements - {w} == m.spaces[m.active].elements;
  }

  // ----- Runs -----

  datatype Step<!W> =
    | SwitchStep(idx: nat)
    | MoveStep(window: W, target: nat)
    | ReclampStep(size: W -> Size, rects: seq<Rectangle>, fallback: Point)

  function Next<W>(m: State<W>, step: Step<W>): State<W>
    requires m.active < |m.spaces|
  {
    match step
    case SwitchStep(idx) => Switched(m, idx)
    case MoveStep(w, target) => Moved(m, w, target)
    case ReclampStep(size, rects, fallback) => m.(spaces := Reclamped(m.spaces, size, rects, fallback))
  }

  /** The compositor moves windows it found on the active workspace. */
  predicate MovesFromActive<W>(m: State<W>, step: Step<W>) {
    step.MoveStep? ==> LivesAt(m, step.window, m.active)
  }

  lemma {:induction false} ReclampKeepsHomes<W>(m: State<W>, size: W -> Size, rects: seq<Rectangle>, fallback: Point,
      w: W, i: nat)
    ensures LivesAt(m.(spaces := Reclamped(m.spaces, size, rects, fallback)), w, i) <==> LivesAt(m, w, i)
  {
  }

  lemma {:induction false} NextKeepsWindows<W(!new)>(m: State<W>, step: Step<W>)
    requires m.active < |m.spaces| && Unique(m) && MovesFromActive(m, step)
    ensures
      var r := Next(m, step);
      |r.spaces| == |m.spaces| && r.active < |r.spaces| && Unique(r) && SameWindows(m, r)
  {
    match step
    case SwitchStep(idx) =>
      var r := Next(m, step);
      assert forall w: W, i :: LivesAt(r, w, i) <==> LivesAt(m, w, i);
    case MoveStep(w, target) =>
      if CanTarget(m, target) {
        MoveFromActive(m, w, target);
      }
    case ReclampStep(size, rects, fallback) =>
      forall w: W, i: nat ensures LivesAt(Next(m, step), w, i) <==> LivesAt(m, w, i) {
        ReclampKeepsHomes(m, size, rects, fallback, w, i);
      }
  }

  ghost predicate IsRun<W>(run: seq<State<W>>, steps: seq<Step<W>>) {
    && |run| == |steps| + 1
    && forall k :: 0 <= k < |steps| ==>
         run[k].active < |run[k].spaces| && MovesFromActive(run[k], steps[k]) && run[k + 1] == Next(run[k], steps[k])
  }

  /** Over every run the active index stays in range, windows stay unique, and none appears or disappears. */
  lemma {:induction false} RunKeepsWindows<W(!new)>(run: seq<State<W>>, steps: seq<Step<W>>, k: nat)
    requires IsRun(run, steps) && k < |run|
    requires run[0].active < |run[0].spaces| && Unique(run[0])
    ensures |run[k].spaces| == |run[0].spaces| && run[k].active < |run[k].spaces|
    ensures Unique(run[k]) && SameWindows(run[0], run[k])
    decreases k
  {
    if k > 0 {
      RunKeepsWindows(run, steps, k - 1);
      assert run[k - 1 + 1] == Next(run[k - 1], steps[k - 1]);
      NextKeepsWindows(run[k - 1], steps[k - 1]);
    } else {
      assert run[k] == run[0];
    }
  }

  /** Every workspace can be made the active one by one switch, and a switch does nothing else. */
  lemma {:induction false} SwitchReaches<W(!new)>(m: State<W>, idx: nat)
    requires m.active < |m.spaces|
    ensures idx < |m.spaces| ==> Next(m, SwitchStep(idx)).active == idx
    ensures idx >= |m.spaces| ==> Next(m, SwitchStep(idx)).active == m.active
    ensures Next(m, SwitchStep(idx)).spaces == m.spaces
  {
  }

  /** With unique windows, searching for one window finds its only home, or that it is mapped nowhere. */
  method SearchFindsTheHome<W(==, !new)>(manager: WorkspaceManager<W>, w: W) returns (found: Option<(nat, W)>)
    requires Unique(manager.Model())
    ensures forall home: nat :: LivesAt(manager.Model(), w, home) ==> found == Some((home, w))
    ensures found.None? ==> forall i: nat :: !LivesAt(manager.Model(), w, i)
    ensures found.Some? ==> found.value.1 == w && LivesAt(manager.Model(), w, found.value.0)
  {
    var isWindow := v => v == w;
    found := manager.FindElementWorkspace(isWindow);
    assert isWindow(w);
    forall i: nat | LivesAt(manager.Model(), w, i) ensures found == Some((i, w)) {
      assert w in manager.spaces[i].elements;
      assert found.Some? && LivesAt(manager.Model(), w, found.value.0);
    }
  }

  // ----- Rescuing stray windows -----

  /**
   * With outputs: strays of every workspace are at the fallback, everything else is where it was.  Without
   * outputs nothing moves.
   */
  lemma {:induction false} ReclampEffect<W>(spaces: seq<Space<W>>, size: W -> Size, outputs: seq<Rectangle>,
      fallback: Point, i: nat, w: W)
    requires i < |spaces| && w in spaces[i].elements
    ensures
      var r := Reclamped(spaces, size, outputs, fallback);
      && |r| == |spaces| && r[i].elements.Keys == spaces[i].elements.Keys && r[i].outputs == spaces[i].outputs
      && r[i].elements[w] == (if outputs == [] || OnSomeOutput(outputs, Rectangle(spaces[i].elements[w], size(w)))
                              then spaces[i].elements[w]
                              else fallback)
  {
  }

  lemma {:induction false} ReclampIdempotent<W>(spaces: seq<Space<W>>, size: W -> Size, outputs: seq<Rectangle>,
      fallback: Point)
    ensures
      var r := Reclamped(spaces, size, outputs, fallback);
      Reclamped(r, size, outputs, fallback) == r
  {
    var r := Reclamped(spaces, size, outputs, fallback);
    var again := Reclamped(r, size, outputs, fallback);
    forall i | 0 <= i < |r| ensures again[i] == r[i] {
      if outputs != [] {
        assert again[i].elements == r[i].elements;
      }
    }
  }

  /** The number reported is that of the windows overlapping no output, on all workspaces together. */
  lemma {:induction false} StraysCounted<W>(spaces: seq<Space<W>>, size: W -> Size, outputs: seq<Rectangle>)
    requires outputs != []
    ensures StrayCount(spaces, size, outputs) == |AllStrays(spaces, size, outputs)|
    decreases |spaces|
  {
    hide *;
    if spaces == [] {
      NothingStrays<W>(size, outputs);
    } else {
      var n := |spaces| - 1;
      var last := Strays(spaces[n], size, outputs);
      StraysCounted(spaces[..n], size, outputs);
      TaggedCounted(n, last);
      StraysOfLast(spaces[..n], spaces[n], size, outputs);
      CountOfLast(spaces[..n], spaces[n], size, outputs);
      assert spaces == spaces[..n] + [spaces[n]];
      UnionSize(AllStrays(spaces[..n], size, outputs), Tagged(n, last));
    }
  }

  lemma NothingStrays<W>(size: W -> Size, outputs: seq<Rectangle>)
    ensures AllStrays<W>([], size, outputs) == {} && StrayCount<W>([], size, outputs) == 0
  {
  }

  lemma CountOfLast<W>(front: seq<Space<W>>, space: Space<W>, size: W -> Size, outputs: seq<Rectangle>)
    requires outputs != []
    ensures StrayCount(front + [space], size, outputs)
         == StrayCount(front, size, outputs) + |Strays(space, size, outputs)|
  {
    assert (front + [space])[..|front|] == front;
  }

  lemma UnionSize<T>(a: set<T>, b: set<T>)
    requires a !! b
    ensures |a + b| == |a| + |b|
  {
  }

  lemma {:induction false} StraysOfLast<W>(front: seq<Space<W>>, space: Space<W>, size: W -> Size,
                                           outputs: seq<Rectangle>)
    ensures
      var last := Tagged(|front|, Strays(space, size, outputs));
      && AllStrays(front + [space], size, outputs) == AllStrays(front, size, outputs) + last
      && AllStrays(front, size, outputs) !! last
  {
    assert forall w :: w in Strays(space, size, outputs) <==> IsStray(space, size, outputs, w);
    hide IsStray, Strays;
  }

  predicate IsStray<W>(space: Space<W>, size: W -> Size, outputs: seq<Rectangle>, w: W) {
    && w in space.elements
    && forall k :: 0 <= k < |outputs| ==> !Overlaps(outputs[k], Rectangle(space.elements[w], size(w)))
  }

  ghost function AllStrays<W>(spaces: seq<Space<W>>, size: W -> Size, outputs: seq<Rectangle>): set<(int, W)> {
    set i, w | 0 <= i < |spaces| && w in spaces[i].elements && IsStray(spaces[i], size, outputs, w) :: (i, w)
  }

  ghost function Tagged<W>(n: int, s: set<W>): set<(int, W)> {
    set w | w in s :: (n, w)
  }

  lemma {:induction false} TaggedCounted<W>(n: int, s: set<W>)
    ensures |Tagged(n, s)| == |s|
    decreases s
  {
    if s == {} {
      assert Tagged(n, s) == {};
    } else {
      var w :| w in s;
      TaggedCounted(n, s - {w});
      assert Tagged(n, s) == Tagged(n, s - {w}) + {(n, w)};
    }
  }

  /** The second rescue counts the strays whose fallback position is itself off every output. */
  lemma {:induction false} StraysAgain<W>(spaces: seq<Space<W>>, size: W -> Size, outputs: seq<Rectangle>,
      fallback: Point, i: nat)
    requires outputs != [] && i < |spaces|
    ensures Strays(Reclamped(spaces, size, outputs, fallback)[i], size, outputs)
         == set w | w in Strays(spaces[i], size, outputs) && !OnSomeOutput(outputs, Rectangle(fallback, size(w)))
  {
  }

  lemma {:induction false} NoStrays<W>(spaces: seq<Space<W>>, size: W -> Size, outputs: seq<Rectangle>)
    requires outputs != []
    ensures StrayCount(spaces, size, outputs) == 0 <==>
      forall i :: 0 <= i < |spaces| ==> Strays(spaces[i], size, outputs) == {}
    decreases |spaces|
  {
    if spaces != [] {
      var n := |spaces| - 1;
      NoStrays(spaces[..n], size, outputs);
      assert forall i :: 0 <= i < n ==> spaces[..n][i] == spaces[i];
    }
  }

  /** The second rescue finds nothing exactly when each stray of the first overlaps an output at the fallback. */
  lemma {:induction false} SecondReclampIff<W>(spaces: seq<Space<W>>, size: W -> Size, outputs: seq<Rectangle>,
      fallback: Point)
    requires outputs != []
    ensures StrayCount(Reclamped(spaces, size, outputs, fallback), size, outputs) == 0
       <==> forall i, w :: 0 <= i < |spaces| && w in Strays(spaces[i], size, outputs) ==>
              OnSomeOutput(outputs, Rectangle(fallback, size(w)))
  {
    var r := Reclamped(spaces, size, outputs, fallback);
    NoStrays(r, size, outputs);
    forall i | 0 <= i < |spaces|
      ensures Strays(r[i], size, outputs) == {}
         <==> forall w :: w in Strays(spaces[i], size, outputs) ==> OnSomeOutput(outputs, Rectangle(fallback, size(w)))
    {
      StraysAgain(spaces, size, outputs, fallback, i);
      if w :| w in Strays(spaces[i], size, outputs) && !OnSomeOutput(outputs, Rectangle(fallback, size(w))) {
        assert w in Strays(r[i], size, outputs);
      }
    }
  }

  // ----- Outputs follow the active workspace -----

  /** Only the active workspace carries outputs. */
  ghost predicate OutputsOnActive<W>(m: State<W>) {
    forall i :: 0 <= i < |m.spaces| && i != m.active ==> m.spaces[i].outputs == {}
  }

  /** A switch followed by remapping all outputs leaves them on the new active workspace and nowhere else. */
  method SwitchAndRemap<W(==)>(manager: WorkspaceManager<W>, idx: nat, outputs: seq<int>)
    requires manager.Valid() && OutputsOnActive(manager.Model())
    requires manager.spaces[manager.active].outputs <= Elements(outputs)
    modifies manager
    ensures manager.Valid() && OutputsOnActive(manager.Model())
    ensures old(CanTarget(manager.Model(), idx)) ==>
      manager.active == idx && manager.spaces[idx].outputs == Elements(outputs)
    ensures !old(CanTarget(manager.Model(), idx)) ==> manager.Model() == old(manager.Model())
    ensures |manager.spaces| == |old(manager.spaces)|
    ensures forall i :: 0 <= i < |manager.spaces| ==> manager.spaces[i].elements == old(manager.spaces)[i].elements
  {
    var switched := manager.TrySwitch(idx);
    if switched.Some? {
      manager.RemapOutputs(outputs, switched.value.0, switched.value.1);
    }
  }
}
