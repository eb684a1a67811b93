/**
 * The polkit agent: concurrent BeginAuthentication and CancelAuthentication calls sharing the table of
 * pending cookies, and the dialog loop at the other end of the event channel.
 *
 * The D-Bus side runs on one thread, so the code between two awaits is one step.  A BeginAuthentication
 * call is two steps: up to its `select!`, and from there to its return.
 */
module PolkitAgent {
  import opened Text

  type Cookie = string

  datatype Event = BeginAuth(call: nat, cookie: Cookie) | Cancel(cookie: Cookie)

  /**
   * A BeginAuthentication call that reached its `select!`.
   *
   * `replied`: the dialog's sender was used or dropped.  `woken`: the cancel sender was used or dropped.
   * `sentAt` and `cancelledAt` are positions in the event channel: of the call's BeginAuth, and of the
   * Cancel that woke it, if that was the reason.
   */
  datatype Call = Call(cookie: Cookie, replied: bool, woken: bool, finished: bool,
                       sentAt: nat, cancelledAt: Option<nat>)

  /**
   * `channel` holds every event ever sent, of which the dialog loop has taken the first `taken`.
   * `active` is the call whose dialog is showing.
   */
  datatype State = State(calls: seq<Call>, pending: map<Cookie, nat>, channel: seq<Event>, taken: nat,
                         channelOpen: bool, active: Option<nat>)

  const INITIAL := State([], map[], [], 0, true, None)

  // ----- The steps -----

  /** The cancel sender stored under `cookie`, if any, is used or dropped. */
  function Wake(calls: seq<Call>, pending: map<Cookie, nat>, cookie: Cookie, at: Option<nat>): (r: seq<Call>)
    ensures |r| == |calls|
  {
    if cookie in pending && pending[cookie] < |calls| then
      calls[pending[cookie] := calls[pending[cookie]].(woken := true, cancelledAt := at)]
    else calls
  }

  /** Up to the `select!`.  Overwriting or removing an entry drops the sender that was stored there. */
  function Begin(s: State, cookie: Cookie, identitiesUsable: bool): State {
    if !identitiesUsable then s
    else if s.channelOpen then
      s.(calls := Wake(s.calls, s.pending, cookie, None) + [Call(cookie, false, false, false, |s.channel|, None)],
         pending := s.pending[cookie := |s.calls|],
         channel := s.channel + [BeginAuth(|s.calls|, cookie)])
    else
      s.(calls := Wake(s.calls, s.pending, cookie, None),
         pending := s.pending - {cookie})
  }

  function CancelStep(s: State, cookie: Cookie): State {
    s.(calls := Wake(s.calls, s.pending, cookie, if s.channelOpen then Some(|s.channel|) else None),
       pending := s.pending - {cookie},
       channel := if s.channelOpen then s.channel + [Cancel(cookie)] else s.channel)
  }

  predicate Live(s: State, i: int) {
    0 <= i < |s.calls| && !s.calls[i].finished
  }

  /** Awaiting, and nobody has cancelled it. */
  predicate Waiting(s: State, i: int) {
    Live(s, i) && !s.calls[i].woken
  }

  /** The `select!` of call `i` can complete. */
  predicate CanResume(s: State, i: int) {
    Live(s, i) && (s.calls[i].replied || s.calls[i].woken)
  }

  /** From the `select!` to the return: the entry under the call's cookie is removed, whoever owns it. */
  function Resume(s: State, i: nat): State
    requires CanResume(s, i)
  {
    var cookie := s.calls[i].cookie;
    var calls := Wake(s.calls, s.pending, cookie, None);
    s.(calls := calls[i := calls[i].(finished := true, woken := s.calls[i].woken,
        cancelledAt := s.calls[i].cancelledAt)],
       pending := s.pending - {cookie})
  }

  function Reply(calls: seq<Call>, i: nat): (r: seq<Call>)
    ensures |r| == |calls|
  {
    if i < |calls| then calls[i := calls[i].(replied := true)] else calls
  }

  /** The dialog loop takes the next event.  A request that finds a dialog open is declined at once. */
  function Dispatch(s: State): State
    requires s.taken < |s.channel|
  {
    var t := s.(taken := s.taken + 1);
    match s.channel[s.taken]
    case BeginAuth(call, _) =>
      if s.active.Some? then t.(calls := Reply(s.calls, call)) else t.(active := Some(call))
    case Cancel(cookie) =>
      if s.active.Some? && s.active.value < |s.calls| && s.calls[s.active.value].cookie == cookie then
        t.(active := None, calls := Reply(s.calls, s.active.value))
      else t
  }

  /** The dialog closes: the password was right, it was wrong three times, or the user dismissed it. */
  function CloseDialog(s: State): State {
    if s.active.Some? then s.(active := None, calls := Reply(s.calls, s.active.value)) else s
  }

  /** The dialog loop ends; every reply sender it holds or has not yet taken is dropped. */
  function Quit(s: State): State {
    s.(channelOpen := false, active := None, taken := |s.channel|,
       calls := seq(|s.calls|, i requires 0 <= i < |s.calls| => s.calls[i].(replied := true)))
  }

  datatype Step =
    | BeginStep(cookie: Cookie, identitiesUsable: bool)
    | CancelAuthentication(cookie: Cookie)
    | ResumeStep(call: nat)
    | DispatchStep
    | CloseStep
    | QuitStep

  predicate Enabled(s: State, step: Step) {
    match step
    case ResumeStep(i) => CanResume(s, i)
    case DispatchStep => s.channelOpen && s.taken < |s.channel|
    case CloseStep => s.channelOpen
    case QuitStep => s.channelOpen
    case _ => true
  }

  function Next(s: State, step: Step): State
    requires Enabled(s, step)
  {
    match step
    case BeginStep(cookie, usable) => Begin(s, cookie, usable)
    case CancelAuthentication(cookie) => CancelStep(s, cookie)
    case ResumeStep(i) => Resume(s, i)
    case DispatchStep => Dispatch(s)
    case CloseStep => CloseDialog(s)
    case QuitStep => Quit(s)
  }

  // ----- The service object -----

  /** The shared table and channel with the code of the two D-Bus methods, and the dialog loop at the other end. */
  class AgentService {
    var calls: seq<Call>
    var pending: map<Cookie, nat>
    var channel: seq<Event>
    var taken: nat
    var channelOpen: bool
    var active: Option<nat>

    ghost function Model(): State
      reads this
    {
      State(calls, pending, channel, taken, channelOpen, active)
    }

    constructor ()
      ensures Model() == INITIAL
    {
      calls, pending, channel, taken, channelOpen, active := [], map[], [], 0, true, None;
    }

    /** Drops the sender stored under `cookie`, waking its receiver. */
    method DropSender(cookie: Cookie, at: Option<nat>)
      modifies `calls
      ensures calls == Wake(old(calls), pending, cookie, at)
    {
      if cookie in pending && pending[cookie] < |calls| {
        var i := pending[cookie];
        calls := calls[i := calls[i].(woken := true, cancelledAt := at)];
      }
    }

    method BeginAuthentication(cookie: Cookie, identitiesUsable: bool)
      modifies this
      ensures Model() == Begin(old(Model()), cookie, identitiesUsable)
    {
      if !identitiesUsable {
        return;
      }
      var id := |calls|;
      DropSender(cookie, None);
      pending := pending[cookie := id];
      if channelOpen {
        calls := calls + [Call(cookie, false, false, false, |channel|, None)];
        channel := channel + [BeginAuth(id, cookie)];
      } else {
        pending := pending - {cookie};
        assert pending == old(pending) - {cookie};
      }
    }

    method FinishAuthentication(call: nat)
      requires CanResume(Model(), call)
      modifies this
      ensures Model() == Resume(old(Model()), call)
    {
      var c := calls[call];
      DropSender(c.cookie, None);
      pending := pending - {c.cookie};
      calls := calls[call := calls[call].(finished := true, woken := c.woken, cancelledAt := c.cancelledAt)];
    }

    method CancelAuthenticationCall(cookie: Cookie)
      modifies this
      ensures Model() == CancelStep(old(Model()), cookie)
    {
      DropSender(cookie, if channelOpen then Some(|channel|) else None);
      pending := pending - {cookie};
      if channelOpen {
        channel := channel + [Cancel(cookie)];
      }
    }

    /** The dialog answers the active request, if there is one, and goes away. */
    method FinishDialog()
      modifies this
      ensures Model() == CloseDialog(old(Model()))
    {
      if active.Some? {
        var i := active.value;
        active := None;
        if i < |calls| {
          calls := calls[i := calls[i].(replied := true)];
        }
      }
    }

    /** The dialog loop handles the next event: a request or a cancellation. */
    method OnEvent()
      requires taken < |channel|
      modifies this
      ensures Model() == Dispatch(old(Model()))
    {
      var event := channel[taken];
      taken := taken + 1;
      match event {
        case BeginAuth(call, _) =>
          if active.Some? {
            if call < |calls| {
              calls := calls[call := calls[call].(replied := true)];
            }
          } else {
            active := Some(call);
          }
        case Cancel(cookie) =>
          if active.Some? && active.value < |calls| && calls[active.value].cookie == cookie {
            FinishDialog();
          }
      }
    }
  }

  // ----- What every run keeps -----

  /** No two live calls share a cookie. */
  ghost predicate LiveDistinct(s: State) {
    forall i, j :: Live(s, i) && Live(s, j) && s.calls[i].cookie == s.calls[j].cookie ==> i == j
  }

  /** The table holds exactly the cookies of the calls still waiting, each with its own call. */
  ghost predicate PendingExact(s: State) {
    && (forall c :: c in s.pending ==> Waiting(s, s.pending[c]) && s.calls[s.pending[c]].cookie == c)
    && (forall i :: Waiting(s, i) ==> s.calls[i].cookie in s.pending && s.pending[s.calls[i].cookie] == i)
  }

  /** A call's BeginAuth is on the channel, and the Cancel that woke it comes later. */
  ghost predicate EventsOrdered(s: State) {
    && s.taken <= |s.channel|
    && (forall i :: 0 <= i < |s.calls| ==>
         var c := s.calls[i];
         && c.sentAt < |s.channel| && s.channel[c.sentAt] == BeginAuth(i, c.cookie)
         && (c.cancelledAt.Some? ==>
               && c.woken && c.sentAt < c.cancelledAt.value < |s.channel|
               && s.channel[c.cancelledAt.value] == Cancel(c.cookie)))
    && (forall k :: 0 <= k < |s.channel| && s.channel[k].BeginAuth? ==>
         s.channel[k].call < |s.calls| && s.calls[s.channel[k].call].sentAt == k)
  }

  /** A call is over, replied to or woken only for a reason. */
  ghost predicate Justified(s: State) {
    forall i :: 0 <= i < |s.calls| ==>
      var c := s.calls[i];
      && (c.finished ==> c.replied || c.woken)
      && (s.channelOpen && c.woken ==> c.cancelledAt.Some?)
      && (s.channelOpen && c.replied ==> c.sentAt < s.taken)
      && (!s.channelOpen ==> c.replied)
  }

  /** The dialog on screen is for a request that was taken and not answered, and is not stale. */
  ghost predicate DialogCurrent(s: State) {
    s.active.Some? ==>
      && s.channelOpen && s.active.value < |s.calls|
      && var c := s.calls[s.active.value];
         && !c.replied && c.sentAt < s.taken
         && (c.cancelledAt.Some? ==> s.taken <= c.cancelledAt.value)
  }

  /** A taken, unanswered request is the one on screen. */
  ghost predicate TakenAnswered(s: State) {
    s.channelOpen ==>
      forall i :: 0 <= i < |s.calls| && s.calls[i].sentAt < s.taken && !s.calls[i].replied ==> s.active == Some(i)
  }

  ghost predicate Inv(s: State) {
    LiveDistinct(s) && PendingExact(s) && EventsOrdered(s) && Justified(s) && DialogCurrent(s) && TakenAnswered(s)
  }

  /** The cookie of a new call is not that of a live one. */
  ghost predicate FreshCookie(s: State, step: Step) {
    step.BeginStep? && step.identitiesUsable ==> forall i :: Live(s, i) ==> s.calls[i].cookie != step.cookie
  }

  lemma {:induction false} BeginKeepsDistinct(s: State, cookie: Cookie, usable: bool)
    requires Inv(s) && FreshCookie(s, BeginStep(cookie, usable))
    ensures LiveDistinct(Begin(s, cookie, usable))
  {
    assert usable ==> cookie !in s.pending;
  }

  lemma {:induction false} BeginKeepsTable(s: State, cookie: Cookie, usable: bool)
    requires Inv(s) && FreshCookie(s, BeginStep(cookie, usable))
    ensures PendingExact(Begin(s, cookie, usable))
  {
    assert usable ==> cookie !in s.pending;
  }

  lemma {:induction false} BeginKeepsEvents(s: State, cookie: Cookie, usable: bool)
    requires Inv(s) && FreshCookie(s, BeginStep(cookie, usable))
    ensures EventsOrdered(Begin(s, cookie, usable))
  {
    assert usable ==> cookie !in s.pending;
  }

  lemma {:induction false} BeginKeepsReasons(s: State, cookie: Cookie, usable: bool)
    requires Inv(s) && FreshCookie(s, BeginStep(cookie, usable))
    ensures Justified(Begin(s, cookie, usable))
  {
    assert usable ==> cookie !in s.pending;
  }

  lemma {:induction false} BeginKeepsDialog(s: State, cookie: Cookie, usable: bool)
    requires Inv(s) && FreshCookie(s, BeginStep(cookie, usable))
    ensures DialogCurrent(Begin(s, cookie, usable)) && TakenAnswered(Begin(s, cookie, usable))
  {
    assert usable ==> cookie !in s.pending;
  }

  lemma {:induction false} BeginKeepsInv(s: State, cookie: Cookie, usable: bool)
    requires Inv(s) && FreshCookie(s, BeginStep(cookie, usable))
    ensures Inv(Begin(s, cookie, usable))
  {
    BeginKeepsDistinct(s, cookie, usable);
    BeginKeepsTable(s, cookie, usable);
    BeginKeepsEvents(s, cookie, usable);
    BeginKeepsReasons(s, cookie, usable);
    BeginKeepsDialog(s, cookie, usable);
    hide LiveDistinct, PendingExact, EventsOrdered, Justified, DialogCurrent, TakenAnswered;
  }

  lemma {:induction false} CancelKeepsDistinct(s: State, cookie: Cookie)
    requires Inv(s)
    ensures LiveDistinct(CancelStep(s, cookie))
  {
  }

  lemma {:induction false} CancelKeepsTable(s: State, cookie: Cookie)
    requires Inv(s)
    ensures PendingExact(CancelStep(s, cookie))
  {
  }

  lemma {:induction false} CancelKeepsEvents(s: State, cookie: Cookie)
    requires Inv(s)
    ensures EventsOrdered(CancelStep(s, cookie))
  {
  }

  lemma {:induction false} CancelKeepsReasons(s: State, cookie: Cookie)
    requires Inv(s)
    ensures Justified(CancelStep(s, cookie))
  {
  }

  lemma {:induction false} CancelKeepsDialog(s: State, cookie: Cookie)
    requires Inv(s)
    ensures DialogCurrent(CancelStep(s, cookie)) && TakenAnswered(CancelStep(s, cookie))
  {
  }

  lemma {:induction false} CancelKeepsInv(s: State, cookie: Cookie)
    requires Inv(s)
    ensures Inv(CancelStep(s, cookie))
  {
    CancelKeepsDistinct(s, cookie);
    CancelKeepsTable(s, cookie);
    CancelKeepsEvents(s, cookie);
    CancelKeepsReasons(s, cookie);
    CancelKeepsDialog(s, cookie);
    hide LiveDistinct, PendingExact, EventsOrdered, Justified, DialogCurrent, TakenAnswered;
  }

  lemma {:induction false} ResumeKeepsDistinct(s: State, i: nat)
    requires Inv(s) && CanResume(s, i)
    ensures LiveDistinct(Resume(s, i))
  {
  }

  lemma {:induction false} ResumeKeepsTable(s: State, i: nat)
    requires Inv(s) && CanResume(s, i)
    ensures PendingExact(Resume(s, i))
  {
  }

  lemma {:induction false} ResumeKeepsEvents(s: State, i: nat)
    requires Inv(s) && CanResume(s, i)
    ensures EventsOrdered(Resume(s, i))
  {
  }

  lemma {:induction false} ResumeKeepsReasons(s: State, i: nat)
    requires Inv(s) && CanResume(s, i)
    ensures Justified(Resume(s, i))
  {
  }

  lemma {:induction false} ResumeKeepsDialog(s: State, i: nat)
    requires Inv(s) && CanResume(s, i)
    ensures DialogCurrent(Resume(s, i)) && TakenAnswered(Resume(s, i))
  {
  }

  lemma {:induction false} ResumeKeepsInv(s: State, i: nat)
    requires Inv(s) && CanResume(s, i)
    ensures Inv(Resume(s, i))
  {
    ResumeKeepsDistinct(s, i);
    ResumeKeepsTable(s, i);
    ResumeKeepsEvents(s, i);
    ResumeKeepsReasons(s, i);
    ResumeKeepsDialog(s, i);
    hide LiveDistinct, PendingExact, EventsOrdered, Justified, DialogCurrent, TakenAnswered;
  }

  lemma {:induction false} DispatchKeepsDistinct(s: State)
    requires Inv(s) && Enabled(s, DispatchStep)
    ensures LiveDistinct(Dispatch(s))
  {
  }

  lemma {:induction false} DispatchKeepsTable(s: State)
    requires Inv(s) && Enabled(s, DispatchStep)
    ensures PendingExact(Dispatch(s))
  {
    hide LiveDistinct, EventsOrdered, Justified, DialogCurrent, TakenAnswered;
  }

  lemma {:induction false} DispatchKeepsEvents(s: State)
    requires Inv(s) && Enabled(s, DispatchStep)
    ensures EventsOrdered(Dispatch(s))
  {
  }

  lemma {:induction false} DispatchKeepsReasons(s: State)
    requires Inv(s) && Enabled(s, DispatchStep)
    ensures Justified(Dispatch(s))
  {
  }

  lemma {:induction false} RequestKeepsDialog(s: State)
    requires Inv(s) && Enabled(s, DispatchStep) && s.channel[s.taken].BeginAuth?
    ensures DialogCurrent(Dispatch(s)) && TakenAnswered(Dispatch(s))
  {
    hide LiveDistinct, PendingExact;
    assert s.channel[s.taken].call < |s.calls| && s.calls[s.channel[s.taken].call].sentAt == s.taken;
  }

  lemma {:induction false} CancellationKeepsDialog(s: State)
    requires Inv(s) && Enabled(s, DispatchStep) && s.channel[s.taken].Cancel?
    ensures DialogCurrent(Dispatch(s)) && TakenAnswered(Dispatch(s))
  {
    hide LiveDistinct, PendingExact;
  }

  lemma {:induction false} DispatchKeepsDialog(s: State)
    requires Inv(s) && Enabled(s, DispatchStep)
    ensures DialogCurrent(Dispatch(s)) && TakenAnswered(Dispatch(s))
  {
    hide Inv, Dispatch, DialogCurrent, TakenAnswered;
    if s.channel[s.taken].BeginAuth? {
      RequestKeepsDialog(s);
    } else {
      CancellationKeepsDialog(s);
    }
  }

  lemma {:induction false} DispatchKeepsInv(s: State)
    requires Inv(s) && Enabled(s, DispatchStep)
    ensures Inv(Dispatch(s))
  {
    DispatchKeepsDistinct(s);
    DispatchKeepsTable(s);
    DispatchKeepsEvents(s);
    DispatchKeepsReasons(s);
    DispatchKeepsDialog(s);
    hide LiveDistinct, PendingExact, EventsOrdered, Justified, DialogCurrent, TakenAnswered;
  }

  lemma {:induction false} CloseKeepsDistinct(s: State)
    requires Inv(s)
    ensures LiveDistinct(CloseDialog(s))
  {
  }

  lemma {:induction false} CloseKeepsTable(s: State)
    requires Inv(s)
    ensures PendingExact(CloseDialog(s))
  {
  }

  lemma {:induction false} CloseKeepsEvents(s: State)
    requires Inv(s)
    ensures EventsOrdered(CloseDialog(s))
  {
  }

  lemma {:induction false} CloseKeepsReasons(s: State)
    requires Inv(s)
    ensures Justified(CloseDialog(s))
  {
  }

  lemma {:induction false} CloseKeepsDialog(s: State)
    requires Inv(s)
    ensures DialogCurrent(CloseDialog(s)) && TakenAnswered(CloseDialog(s))
  {
  }

  lemma {:induction false} CloseKeepsInv(s: State)
    requires Inv(s)
    ensures Inv(CloseDialog(s))
  {
    CloseKeepsDistinct(s);
    CloseKeepsTable(s);
    CloseKeepsEvents(s);
    CloseKeepsReasons(s);
    CloseKeepsDialog(s);
    hide LiveDistinct, PendingExact, EventsOrdered, Justified, DialogCurrent, TakenAnswered;
  }

  lemma {:induction false} QuitKeepsInv(s: State)
    requires Inv(s)
    ensures Inv(Quit(s))
  {
  }

  lemma {:induction false} NextKeepsInv(s: State, step: Step)
    requires Inv(s) && Enabled(s, step) && FreshCookie(s, step)
    ensures Inv(Next(s, step))
  {
    hide Inv;
    match step
    case BeginStep(cookie, usable) => BeginKeepsInv(s, cookie, usable);
    case CancelAuthentication(cookie) => CancelKeepsInv(s, cookie);
    case ResumeStep(i) => ResumeKeepsInv(s, i);
    case DispatchStep => DispatchKeepsInv(s);
    case CloseStep => CloseKeepsInv(s);
    case QuitStep => QuitKeepsInv(s);
  }

  /** A run from the empty agent, in any interleaving, whose live cookies are distinct. */
  ghost predicate IsRun(run: seq<State>, steps: seq<Step>) {
    && |run| == |steps| + 1 && run[0] == INITIAL
    && forall k :: 0 <= k < |steps| ==>
         Enabled(run[k], steps[k]) && FreshCookie(run[k], steps[k]) && run[k + 1] == Next(run[k], steps[k])
  }

  lemma {:induction false} RunKeepsInv(run: seq<State>, steps: seq<Step>, k: nat)
    requires IsRun(run, steps) && k < |run|
    ensures Inv(run[k])
    decreases k
  {
    if k == 0 {
      assert run[k] == INITIAL;
    } else {
      RunKeepsInv(run, steps, k - 1);
      assert run[k - 1 + 1] == Next(run[k - 1], steps[k - 1]);
      hide Inv, Next;
      NextKeepsInv(run[k - 1], steps[k - 1]);
    }
  }

  // ----- What follows -----

  /** In every reachable state: the table is exact, and a finished call has no entry. */
  lemma {:induction false} TableIsExact(run: seq<State>, steps: seq<Step>, k: nat)
    requires IsRun(run, steps) && k < |run|
    ensures
      var s := run[k];
      && (forall c :: c in s.pending <==> exists i :: Waiting(s, i) && s.calls[i].cookie == c)
      && (forall i, c :: 0 <= i < |s.calls| && s.calls[i].finished && c in s.pending ==> s.pending[c] != i)
  {
    RunKeepsInv(run, steps, k);
  }

  /** Cancelling a live call wakes it and no other; the dialog loop is told after it was told of the call. */
  lemma {:induction false} CancelWakesTheCall(run: seq<State>, steps: seq<Step>, k: nat, i: nat)
    requires IsRun(run, steps) && k < |run| && Live(run[k], i)
    ensures
      var s := run[k];
      var cookie := s.calls[i].cookie;
      var t := CancelStep(s, cookie);
      && CanResume(t, i) && t.calls[i].woken && cookie !in t.pending
      && (forall j :: 0 <= j < |s.calls| && j != i ==> t.calls[j] == s.calls[j])
      && (s.channelOpen ==>
            && t.channel == s.channel + [Cancel(cookie)]
            && s.calls[i].sentAt < |s.channel| && s.channel[s.calls[i].sentAt] == BeginAuth(i, cookie))
  {
    RunKeepsInv(run, steps, k);
  }

  /** A cancellation of a cookie no waiting call has touches no call; the dialog loop is told all the same. */
  lemma {:induction false} CancelOfNobody(run: seq<State>, steps: seq<Step>, k: nat, cookie: Cookie)
    requires IsRun(run, steps) && k < |run| && forall i :: Waiting(run[k], i) ==> run[k].calls[i].cookie != cookie
    ensures
      var s := run[k];
      CancelStep(s, cookie) == if s.channelOpen then s.(channel := s.channel + [Cancel(cookie)]) else s
  {
    RunKeepsInv(run, steps, k);
    assert cookie !in run[k].pending;
  }

  /** The dialog loop takes events until it ends. */
  lemma {:induction false} OpenUntilQuit(run: seq<State>, steps: seq<Step>, k: nat)
    requires IsRun(run, steps) && k < |run|
    ensures run[k].channelOpen <==> QuitStep !in steps[..k]
    decreases k
  {
    if k > 0 {
      OpenUntilQuit(run, steps, k - 1);
      assert steps[..k] == steps[..k - 1] + [steps[k - 1]];
      assert run[k - 1 + 1] == Next(run[k - 1], steps[k - 1]);
    }
  }

  /**
   * When the dialog loop has ended a call leaves nothing behind, even under a cookie in use: the call that
   * had it can return, and the others are as they were.
   */
  lemma {:induction false} BegunTooLate(run: seq<State>, steps: seq<Step>, k: nat, cookie: Cookie)
    requires IsRun(run, steps) && k < |run| && !run[k].channelOpen
    ensures
      var s, t := run[k], Begin(run[k], cookie, true);
      && t == s.(calls := t.calls, pending := s.pending - {cookie}) && |t.calls| == |s.calls|
      && forall i :: 0 <= i < |s.calls| ==>
        t.calls[i] == if Waiting(s, i) && s.calls[i].cookie == cookie
                      then s.calls[i].(woken := true, cancelledAt := None)
                      else s.calls[i]
  {
    RunKeepsInv(run, steps, k);
  }

  /** A call that begins waits, is in the table and is announced; where it cannot be announced nothing is left of it. */
  lemma {:induction false} BegunCallWaits(run: seq<State>, steps: seq<Step>, k: nat, cookie: Cookie, usable: bool)
    requires IsRun(run, steps) && k < |run| && FreshCookie(run[k], BeginStep(cookie, usable))
    ensures
      var s, t := run[k], Begin(run[k], cookie, usable);
      if usable && s.channelOpen then
        var n := |s.calls|;
        && |t.calls| == n + 1 && t.calls[..n] == s.calls
        && Waiting(t, n) && !CanResume(t, n) && t.calls[n].cookie == cookie
        && t.pending == s.pending[cookie := n] && t.channel == s.channel + [BeginAuth(n, cookie)]
        && t.taken == s.taken && t.active == s.active && t.channelOpen
      else t == s
  {
    RunKeepsInv(run, steps, k);
    assert usable ==> cookie !in run[k].pending;
  }

  /** A call that returns takes its own entry along, if it still has one, and touches no other call or entry. */
  lemma {:induction false} ReturnTakesItsEntry(run: seq<State>, steps: seq<Step>, k: nat, i: nat)
    requires IsRun(run, steps) && k < |run| && CanResume(run[k], i)
    ensures
      var s, t := run[k], Resume(run[k], i);
      && !Live(t, i) && t == s.(calls := s.calls[i := s.calls[i].(finished := true)], pending := t.pending)
      && (forall c :: c in t.pending <==> c in s.pending && s.pending[c] != i)
      && (forall c :: c in t.pending ==> t.pending[c] == s.pending[c])
  {
    RunKeepsInv(run, steps, k);
    var cookie := run[k].calls[i].cookie;
    assert cookie in run[k].pending ==> run[k].pending[cookie] == i;
  }

  /**
   * The dialog on screen is closed, and its call answered, by the cancellation of its own cookie and by no other
   * event.  Any other call is left alone, except that a request that finds a dialog on screen is declined.
   */
  lemma {:induction false} EventMeansItsCall(run: seq<State>, steps: seq<Step>, k: nat)
    requires IsRun(run, steps) && k < |run| && Enabled(run[k], DispatchStep)
    ensures
      var s, t := run[k], Next(run[k], DispatchStep);
      var event := s.channel[s.taken];
      && t == s.(taken := s.taken + 1, calls := t.calls, active := t.active) && |t.calls| == |s.calls|
      && (s.active.Some? ==>
            var i := s.active.value;
            && i < |s.calls|
            && if event == Cancel(s.calls[i].cookie)
               then t.active == None && t.calls[i] == s.calls[i].(replied := true)
               else t.active == Some(i) && t.calls[i] == s.calls[i])
      && (s.active.None? ==> t.active == if event.BeginAuth? then Some(event.call) else None)
      && (forall j :: 0 <= j < |s.calls| && s.active != Some(j) ==>
            t.calls[j] == if s.active.Some? && s.calls[j].sentAt == s.taken
                          then s.calls[j].(replied := true) else s.calls[j])
  {
    RunKeepsInv(run, steps, k);
    hide LiveDistinct, PendingExact, Justified, TakenAnswered;
    var s := run[k];
    assert s.channel[s.taken].BeginAuth? ==> s.calls[s.channel[s.taken].call].sentAt == s.taken;
  }

  /** Closing the dialog answers the call on screen, and no other. */
  lemma {:induction false} CloseAnswersTheCall(run: seq<State>, steps: seq<Step>, k: nat)
    requires IsRun(run, steps) && k < |run| && Enabled(run[k], CloseStep)
    ensures
      var s, t := run[k], Next(run[k], CloseStep);
      if s.active.Some? then
        var i := s.active.value;
        i < |s.calls| && t == s.(active := None, calls := s.calls[i := s.calls[i].(replied := true)])
      else t == s
  {
    RunKeepsInv(run, steps, k);
  }

  /** When the dialog loop ends every call can return, and no dialog is left. */
  lemma {:induction false} QuitAnswersAll(run: seq<State>, steps: seq<Step>, k: nat)
    requires IsRun(run, steps) && k < |run| && Enabled(run[k], QuitStep)
    ensures
      var s, t := run[k], Next(run[k], QuitStep);
      && !t.channelOpen && t.active == None && t.pending == s.pending && t.channel == s.channel
      && t.taken == |t.channel| && |t.calls| == |s.calls| && (forall i :: Live(s, i) ==> Live(t, i) && CanResume(t, i))
      && (forall i :: 0 <= i < |s.calls| ==> t.calls[i] == s.calls[i].(replied := true))
  {
  }

  /** A live call that cannot return yet is still on its way to the dialog loop, or is the one on screen. */
  lemma {:induction false} NoCallIsLost(run: seq<State>, steps: seq<Step>, k: nat, i: nat)
    requires IsRun(run, steps) && k < |run| && Live(run[k], i) && !CanResume(run[k], i)
    ensures
      var s := run[k];
      && s.channelOpen && s.calls[i].cookie in s.pending && s.pending[s.calls[i].cookie] == i
      && (s.active == Some(i)
          || (s.taken <= s.calls[i].sentAt < |s.channel|
              && s.channel[s.calls[i].sentAt] == BeginAuth(i, s.calls[i].cookie)))
  {
    RunKeepsInv(run, steps, k);
  }

  /** Once the dialog loop has caught up, a dialog on screen belongs to a call that waits for it. */
  lemma {:induction false} NoStaleDialog(run: seq<State>, steps: seq<Step>, k: nat)
    requires IsRun(run, steps) && k < |run|
    requires run[k].taken == |run[k].channel| && run[k].active.Some?
    ensures Waiting(run[k], run[k].active.value) && !run[k].calls[run[k].active.value].replied
  {
    RunKeepsInv(run, steps, k);
  }

  /**
   * Distinct cookies are needed, exactly: a call begun under a live cookie has its entry removed when the
   * older call returns, and is thereby ended although neither the user nor polkit decided anything.
   */
  lemma {:induction false} FreshCookieIff(s: State, cookie: Cookie)
    requires Inv(s) && s.channelOpen
    ensures FreshCookie(s, BeginStep(cookie, true))
       <==> forall i :: CanResume(Begin(s, cookie, true), i) ==> Justified(Resume(Begin(s, cookie, true), i))
  {
    var t := Begin(s, cookie, true);
    if FreshCookie(s, BeginStep(cookie, true)) {
      BeginKeepsInv(s, cookie, true);
      forall i | CanResume(t, i) ensures Justified(Resume(t, i)) {
        ResumeKeepsInv(t, i);
      }
    } else {
      var i :| Live(s, i) && s.calls[i].cookie == cookie;
      DuplicateIsAborted(s, cookie, i);
    }
  }

  lemma {:induction false} DuplicateIsAborted(s: State, cookie: Cookie, i: nat)
    requires Inv(s) && s.channelOpen && Live(s, i) && s.calls[i].cookie == cookie
    ensures
      var t := Begin(s, cookie, true);
      var n := |s.calls|;
      && CanResume(t, i)
      && var u := Resume(t, i);
         && CanResume(u, n) && cookie !in u.pending
         && !u.calls[n].replied && u.calls[n].cancelledAt.None? && !Justified(u)
  {
  }
}
