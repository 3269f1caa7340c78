/**
 Waking the event loop from other threads and from signal handlers (ev.c: ev_async_send,
 ev_feed_signal, evpipe_write, pipecb and the polling part of ev_run), as atomic steps that
 interleave in any order.  The memory fences of the source are what makes that order total.
*/
module Wakeup {
  /** sig_pending and async_pending. */
  datatype Flag = Sig | Async

  /** A signal, by its number less one, or an async watcher, by its place in `asyncs`. */
  datatype Item = Item(flag: Flag, index: nat)

  /**
   What a sender does next: set the `sent` or `pending` of its item; in evpipe_write, test the
   flag, raise it, set pipe_write_skipped, read pipe_write_wanted, clear pipe_write_skipped, write.
  */
  datatype SenderPc = Mark | Test | Raise | Skip | Ask | Unskip | Write | Done

  datatype Sender = Sender(item: Item, pc: SenderPc)

  /** What the loop does next. */
  datatype LoopPc =
    | Want                          // pipe_write_wanted = 1
    | Decide                        // read pipe_write_skipped: poll without waiting?
    | Polling(block: bool)          // in backend_poll
    | Unwant(readable: bool)        // pipe_write_wanted = 0
    | Check(readable: bool)         // read pipe_write_skipped: feed pipe_w?
    | ReadPipe(readable: bool)      // pipecb: read the pipe if it was reported readable
    | ClearSkipped                  // pipe_write_skipped = 0
    | Look(f: Flag)                 // read the flag
    | Lower(f: Flag)                // clear the flag
    | Scan(f: Flag, i: nat)         // the items below i are still to be looked at
    | ClearSent(f: Flag, i: nat)    // item i was seen to be set
    | Feed(f: Flag, i: nat)         // item i was cleared

  /** How many signals and async watchers there are, and whether the pipe is an eventfd. */
  datatype Config = Config(signals: nat, asyncs: nat, eventfd: bool)

  function Count(c: Config, f: Flag): nat {
    if f == Sig then c.signals else c.asyncs
  }

  /** `owed` holds the items that were sent and have not been fed since. */
  datatype State = State(
    sent: set<Item>, pending: set<Flag>, skipped: bool, wanted: bool, pipe: nat,
    senders: seq<Sender>, loop: LoopPc, owed: set<Item>)

  /** A step: a new sender, a step of a sender, or one of the loop with what it cannot foresee. */
  datatype Action =
    | Start(item: Item)
    | Send(k: nat, written: nat)
    | Loop(noWait: bool)

  ghost predicate Enabled(c: Config, s: State, a: Action) {
    match a
    case Start(item) => item.index < Count(c, item.flag)
    // a full pipe takes nothing more, but stays readable
    case Send(k, written) => k < |s.senders| && s.senders[k].pc != Done && written <= 1 && s.pipe + written > 0
    case Loop(_) => true
  }

  function SenderStep(s: State, k: nat, written: nat): State
    requires k < |s.senders|
  {
    var me := s.senders[k];
    var at := (pc: SenderPc) => s.senders[k := me.(pc := pc)];
    match me.pc
    case Mark => s.(sent := s.sent + {me.item}, owed := s.owed + {me.item}, senders := at(Test))
    case Test => s.(senders := at(if me.item.flag in s.pending then Done else Raise))
    case Raise => s.(pending := s.pending + {me.item.flag}, senders := at(Skip))
    case Skip => s.(skipped := true, senders := at(Ask))
    case Ask => s.(senders := at(if s.wanted then Unskip else Done))
    case Unskip => s.(skipped := false, senders := at(Write))
    case Write => s.(pipe := s.pipe + written, senders := at(Done))
    case Done => s
  }

  function LoopStep(c: Config, s: State, noWait: bool): State {
    match s.loop
    case Want => s.(wanted := true, loop := Decide)
    case Decide => s.(loop := Polling(!(noWait || s.skipped)))
    case Polling(_) => s.(loop := Unwant(s.pipe > 0))
    case Unwant(readable) => s.(wanted := false, loop := Check(readable))
    case Check(readable) => s.(loop := if readable || s.skipped then ReadPipe(readable) else Want)
    case ReadPipe(readable) =>
      s.(pipe := if !readable then s.pipe else if c.eventfd || s.pipe < 4 then 0 else s.pipe - 4, loop := ClearSkipped)
    case ClearSkipped => s.(skipped := false, loop := Look(Sig))
    case Look(f) => s.(loop := if f in s.pending then Lower(f) else Past(f))
    case Lower(f) => s.(pending := s.pending - {f}, loop := Scan(f, Count(c, f)))
    case Scan(f, i) =>
      s.(loop := if i == 0 then Past(f) else if Item(f, i - 1) in s.sent then ClearSent(f, i - 1) else Scan(f, i - 1))
    case ClearSent(f, i) => s.(sent := s.sent - {Item(f, i)}, loop := Feed(f, i))
    case Feed(f, i) => s.(owed := s.owed - {Item(f, i)}, loop := Scan(f, i))
  }

  /** Signals are looked at before async watchers; then the loop goes on to its next turn. */
  function Past(f: Flag): LoopPc {
    if f == Sig then Look(Async) else Want
  }

  function Apply(c: Config, s: State, a: Action): State
    requires a.Send? ==> a.k < |s.senders|
  {
    match a
    case Start(item) => s.(senders := s.senders + [Sender(item, Mark)])
    case Send(k, written) => SenderStep(s, k, written)
    case Loop(noWait) => LoopStep(c, s, noWait)
  }

  ghost predicate Init(s: State) {
    s == State({}, {}, false, false, 0, [], Want, {})
  }

  /** A run from the start, each state one step after the one before. */
  ghost predicate Run(c: Config, run: seq<State>, actions: seq<Action>) {
    && |run| == |actions| + 1 && Init(run[0])
    && forall i :: 0 <= i < |actions| ==> Enabled(c, run[i], actions[i]) && run[i + 1] == Apply(c, run[i], actions[i])
  }

  // ----- the invariant -----

  ghost predicate Raising(s: State, f: Flag) {
    exists k :: 0 <= k < |s.senders| && s.senders[k].pc == Skip && s.senders[k].item.flag == f
  }

  ghost predicate Asking(s: State) {
    exists k :: 0 <= k < |s.senders| && (s.senders[k].pc == Ask || s.senders[k].pc == Unskip)
  }

  ghost predicate Writing(s: State) {
    exists k :: 0 <= k < |s.senders| && s.senders[k].pc == Write
  }

  ghost predicate Sending(s: State, it: Item) {
    exists k :: 0 <= k < |s.senders| && s.senders[k].item == it && (s.senders[k].pc == Test || s.senders[k].pc == Raise)
  }

  /** pipecb has still to look at the flag. */
  predicate WillLook(loop: LoopPc, f: Flag) {
    match loop
    case ClearSkipped => true
    case Look(g) => g == Sig || f == Async
    case Lower(g) => g == Sig || f == Async
    case Scan(g, _) => g == Sig && f == Async
    case ClearSent(g, _) => g == Sig && f == Async
    case Feed(g, _) => g == Sig && f == Async
    case _ => false
  }

  /** The scan has still to look at the item, or has seen it and is about to clear it. */
  predicate WillScan(loop: LoopPc, it: Item) {
    match loop
    case Scan(f, i) => it.flag == f && it.index < i
    case ClearSent(f, i) => it.flag == f && it.index <= i
    case Feed(f, i) => it.flag == f && it.index < i
    case _ => false
  }

  /** A raised flag is noticed: the loop will look at it, or will not wait in the poll, or is about to be woken. */
  ghost predicate Noticed(s: State) {
    forall f :: f in s.pending ==> s.skipped || s.pipe > 0 || WillLook(s.loop, f) || Raising(s, f) || Writing(s)
  }

  /** What the sent items rely on: a raised flag, the scan under way, or a sender that has yet to see to the flag. */
  ghost predicate Covered(s: State) {
    forall it :: it in s.sent ==> it.flag in s.pending || WillScan(s.loop, it) || Sending(s, it)
  }

  /** pipe_write_wanted is set just while the loop may wait in the poll. */
  ghost predicate Wanted(s: State) {
    s.wanted <==> s.loop.Decide? || s.loop.Polling? || s.loop.Unwant?
  }

  /** If the loop waits although a write was skipped, then a sender is there that will write after all. */
  ghost predicate Awaited(s: State) {
    s.loop == Polling(true) && s.skipped ==> Asking(s)
  }

  ghost predicate Owing(s: State) {
    forall it :: it in s.owed ==> it in s.sent || s.loop == Feed(it.flag, it.index)
  }

  ghost predicate InRange(c: Config, s: State) {
    && (forall it :: it in s.sent ==> it.index < Count(c, it.flag))
    && (forall k :: 0 <= k < |s.senders| ==> s.senders[k].item.index < Count(c, s.senders[k].item.flag))
  }

  ghost predicate Inv(c: Config, s: State) {
    Noticed(s) && Covered(s) && Wanted(s) && Awaited(s) && Owing(s) && InRange(c, s)
  }

  // ----- every step keeps the invariant -----

  lemma StartKeeps(c: Config, s: State, item: Item)
    requires Inv(c, s) && item.index < Count(c, item.flag)
    ensures Inv(c, Apply(c, s, Start(item)))
  {
    var s' := Apply(c, s, Start(item));
    assert forall k :: 0 <= k < |s.senders| ==> s'.senders[k] == s.senders[k];
  }

  /** The other senders go on as before. */
  lemma OthersStay(s: State, k: nat, written: nat)
    requires k < |s.senders|
    ensures var s' := SenderStep(s, k, written);
            && |s'.senders| == |s.senders| && s'.senders[k].item == s.senders[k].item
            && (forall j :: 0 <= j < |s.senders| && j != k ==> s'.senders[j] == s.senders[j])
            && s'.loop == s.loop && s'.wanted == s.wanted && s.pipe <= s'.pipe
  {
  }

  lemma SendNoticed(c: Config, s: State, k: nat, written: nat)
    requires Inv(c, s) && Enabled(c, s, Send(k, written))
    ensures Noticed(SenderStep(s, k, written)) && Awaited(SenderStep(s, k, written))
  {
    hide Covered, Owing, InRange, Sending, WillScan;
    OthersStay(s, k, written);
  }

  lemma SendCovered(c: Config, s: State, k: nat, written: nat)
    requires Inv(c, s) && Enabled(c, s, Send(k, written))
    ensures Covered(SenderStep(s, k, written)) && Owing(SenderStep(s, k, written))
    ensures Wanted(SenderStep(s, k, written)) && InRange(c, SenderStep(s, k, written))
  {
    hide Noticed, Awaited, Raising, Asking, Writing, WillLook;
    OthersStay(s, k, written);
  }

  lemma SendKeeps(c: Config, s: State, k: nat, written: nat)
    requires Inv(c, s) && Enabled(c, s, Send(k, written))
    ensures Inv(c, SenderStep(s, k, written))
  {
    hide Noticed, Covered, Wanted, Awaited, Owing, InRange, SenderStep;
    SendNoticed(c, s, k, written);
    SendCovered(c, s, k, written);
  }

  /** What is said of the senders alone stays the same while they do. */
  lemma SameSenders(s: State, s': State)
    requires s'.senders == s.senders
    ensures forall f :: Raising(s', f) == Raising(s, f)
    ensures Asking(s') == Asking(s) && Writing(s') == Writing(s)
    ensures forall it :: Sending(s', it) == Sending(s, it)
  {
  }

  lemma LoopNoticed(c: Config, s: State, noWait: bool)
    requires Noticed(s) && Awaited(s)
    ensures Noticed(LoopStep(c, s, noWait)) && Awaited(LoopStep(c, s, noWait))
  {
    hide Raising, Asking, Writing, Sending;
    SameSenders(s, LoopStep(c, s, noWait));
  }

  lemma LoopCovered(c: Config, s: State, noWait: bool)
    requires Covered(s) && InRange(c, s)
    ensures Covered(LoopStep(c, s, noWait)) && InRange(c, LoopStep(c, s, noWait))
  {
    hide Raising, Asking, Writing, Sending, WillLook;
    SameSenders(s, LoopStep(c, s, noWait));
  }

  lemma LoopOwing(c: Config, s: State, noWait: bool)
    requires Owing(s) && Wanted(s)
    ensures Owing(LoopStep(c, s, noWait)) && Wanted(LoopStep(c, s, noWait))
  {
  }

  lemma LoopKeeps(c: Config, s: State, noWait: bool)
    requires Inv(c, s)
    ensures Inv(c, LoopStep(c, s, noWait))
  {
    hide Noticed, Covered, Wanted, Awaited, Owing, InRange, LoopStep;
    LoopNoticed(c, s, noWait);
    LoopCovered(c, s, noWait);
    LoopOwing(c, s, noWait);
  }

  lemma {:induction false} RunKeeps(c: Config, run: seq<State>, actions: seq<Action>, k: nat)
    requires Run(c, run, actions) && k < |run|
    ensures Inv(c, run[k])
  {
    if k > 0 {
      RunKeeps(c, run, actions, k - 1);
      match actions[k - 1]
      case Start(item) => StartKeeps(c, run[k - 1], item);
      case Send(i, written) => SendKeeps(c, run[k - 1], i, written);
      case Loop(noWait) => LoopKeeps(c, run[k - 1], noWait);
    }
  }

  // ----- no wakeup is lost -----

  /** No sender is on its way: each has yet to begin or has returned. */
  ghost predicate Quiet(s: State) {
    forall k :: 0 <= k < |s.senders| ==> s.senders[k].pc == Mark || s.senders[k].pc == Done
  }

  /** No sender is between raising a flag and the end of evpipe_write. */
  ghost predicate NoneInWrite(s: State) {
    forall k :: 0 <= k < |s.senders| ==> s.senders[k].pc !in {Skip, Ask, Unskip, Write}
  }

  /**
   No lost wakeup.  Whenever the loop waits in the poll, a flag is raised and no sender is still
   about to write, the pipe is readable, so that the poll returns.
  */
  lemma NoLostWakeup(c: Config, run: seq<State>, actions: seq<Action>, k: nat, f: Flag)
    requires Run(c, run, actions) && k < |run|
    requires run[k].loop == Polling(true) && f in run[k].pending && NoneInWrite(run[k])
    ensures run[k].pipe > 0
  {
    RunKeeps(c, run, actions, k);
  }

  /**
   Every item that is set and whose senders have returned is covered: by its flag, or by the part
   of the scan of pipecb that is still to run.
  */
  lemma SentIsCovered(c: Config, run: seq<State>, actions: seq<Action>, k: nat, it: Item)
    requires Run(c, run, actions) && k < |run| && it in run[k].sent
    requires forall j :: 0 <= j < |run[k].senders| && run[k].senders[j].item == it ==> run[k].senders[j].pc in {Mark, Done}
    ensures it.flag in run[k].pending || WillScan(run[k].loop, it)
  {
    RunKeeps(c, run, actions, k);
  }

  /** What was sent and not yet fed makes the pipe readable if the loop waits, once the senders have returned. */
  lemma OwedWakesTheLoop(c: Config, run: seq<State>, actions: seq<Action>, k: nat, it: Item)
    requires Run(c, run, actions) && k < |run|
    requires run[k].loop == Polling(true) && it in run[k].owed && Quiet(run[k])
    ensures run[k].pipe > 0
  {
    RunKeeps(c, run, actions, k);
    assert it in run[k].sent;
  }

  /** The pipe is written to just for a loop that may wait: at any other time a sender returns without. */
  lemma WritesOnlyForAPoll(c: Config, run: seq<State>, actions: seq<Action>, k: nat)
    requires Run(c, run, actions) && k < |actions| && actions[k].Send? && run[k].senders[actions[k].k].pc == Ask
    ensures var after := run[k + 1].senders[actions[k].k].pc;
            if run[k].loop in {Decide, Polling(false), Polling(true), Unwant(false), Unwant(true)} then after == Unskip
            else after == Done
  {
    RunKeeps(c, run, actions, k);
  }

  /** No sender of this flag has got as far as raising it. */
  ghost predicate Unraised(s: State, f: Flag) {
    forall k :: 0 <= k < |s.senders| && s.senders[k].item.flag == f ==> s.senders[k].pc in {Mark, Test, Done}
  }

  lemma StepUnraised(c: Config, s: State, a: Action, f: Flag)
    requires Enabled(c, s, a) && f in s.pending && Unraised(s, f)
    ensures Unraised(Apply(c, s, a), f)
  {
  }

  /** As long as a flag is raised, whoever finds it so leaves it, and the pipe, alone. */
  lemma {:induction false} OneIsEnough(c: Config, run: seq<State>, actions: seq<Action>, f: Flag, i: nat, k: nat)
    requires Run(c, run, actions) && i <= k < |run| && Unraised(run[i], f)
    requires forall j :: i <= j < k ==> f in run[j].pending
    ensures Unraised(run[k], f)
  {
    hide Unraised, Apply;
    if i < k {
      OneIsEnough(c, run, actions, f, i, k - 1);
      StepUnraised(c, run[k - 1], actions[k - 1], f);
    }
  }

  // ----- nothing is delivered that was not sent -----

  /** How often the item was sent in the first `k` steps. */
  ghost function Sends(run: seq<State>, actions: seq<Action>, it: Item, k: nat): nat
    requires k <= |actions| <= |run|
  {
    if k == 0 then 0
    else
      var s, a := run[k - 1], actions[k - 1];
      var sent := a.Send? && a.k < |s.senders| && s.senders[a.k] == Sender(it, Mark);
      Sends(run, actions, it, k - 1) + if sent then 1 else 0
  }

  /** And how often it was fed. */
  ghost function Feeds(run: seq<State>, actions: seq<Action>, it: Item, k: nat): nat
    requires k <= |actions| <= |run|
  {
    if k == 0 then 0
    else
      var fed := actions[k - 1].Loop? && run[k - 1].loop == Feed(it.flag, it.index);
      Feeds(run, actions, it, k - 1) + if fed then 1 else 0
  }

  /** An item that is set, and one that was cleared and is about to be fed, stand for one send each. */
  ghost predicate PaidFor(s: State, it: Item, sends: nat, feeds: nat) {
    && feeds + (if it in s.sent then 1 else 0) + (if s.loop == Feed(it.flag, it.index) then 1 else 0) <= sends
    && (s.loop == ClearSent(it.flag, it.index) ==> it in s.sent)
  }

  lemma OneStepPaid(c: Config, s: State, a: Action, it: Item, sends: nat, feeds: nat)
    requires Enabled(c, s, a) && PaidFor(s, it, sends, feeds)
    ensures PaidFor(Apply(c, s, a), it, sends + (if a.Send? && s.senders[a.k] == Sender(it, Mark) then 1 else 0),
              feeds + if a.Loop? && s.loop == Feed(it.flag, it.index) then 1 else 0)
  {
  }

  lemma PaidForIs(s: State, it: Item, sends: nat, feeds: nat)
    ensures PaidFor(s, it, sends, feeds) ==> feeds <= sends
    ensures sends == feeds == 0 && s.loop == Want && it !in s.sent ==> PaidFor(s, it, sends, feeds)
  {
  }

  /** No item is fed more often than it was sent, whatever is merged on the way. */
  lemma {:induction false} NothingSpurious(c: Config, run: seq<State>, actions: seq<Action>, it: Item, k: nat)
    requires Run(c, run, actions) && k < |run|
    ensures Feeds(run, actions, it, k) <= Sends(run, actions, it, k)
    ensures PaidFor(run[k], it, Sends(run, actions, it, k), Feeds(run, actions, it, k))
  {
    hide PaidFor, Apply;
    if k > 0 {
      NothingSpurious(c, run, actions, it, k - 1);
      var sends, feeds := Sends(run, actions, it, k - 1), Feeds(run, actions, it, k - 1);
      OneStepPaid(c, run[k - 1], actions[k - 1], it, sends, feeds);
    }
    PaidForIs(run[k], it, Sends(run, actions, it, k), Feeds(run, actions, it, k));
  }

  // ----- and then everything is delivered -----

  /** How far the loop is from its next turn. */
  function Phase(loop: LoopPc): nat {
    match loop
    case Want => 0
    case Decide => 9
    case Polling(_) => 8
    case Unwant(_) => 7
    case Check(_) => 6
    case ReadPipe(_) => 5
    case ClearSkipped => 4
    case Look(f) => if f == Sig then 3 else 1
    case Lower(f) => if f == Sig then 3 else 1
    case Scan(f, _) => if f == Sig then 2 else 0
    case ClearSent(f, _) => if f == Sig then 2 else 0
    case Feed(f, _) => if f == Sig then 2 else 0
  }

  function Togo(loop: LoopPc): nat {
    match loop
    case Look(_) => 1
    case Scan(_, i) => 3 * i + 1
    case Feed(_, i) => 3 * i + 2
    case ClearSent(_, i) => 3 * i + 3
    case _ => 0
  }

  /** The loop runs on by itself, up to its next turn. */
  function Alone(c: Config, s: State): State
    decreases Phase(s.loop), Togo(s.loop)
  {
    if s.loop == Want then s else Alone(c, LoopStep(c, s, false))
  }

  predicate InCallback(loop: LoopPc) {
    !loop.Want? && !loop.Decide? && !loop.Polling? && !loop.Unwant? && !loop.Check?
  }

  /** In pipecb, every raised flag is still to be looked at. */
  ghost predicate Ahead(s: State) {
    forall f :: f in s.pending ==> s.loop.ReadPipe? || WillLook(s.loop, f)
  }

  lemma NothingOwed(c: Config, s: State)
    requires Inv(c, s) && Quiet(s) && s.loop == Want && s.pending == {}
    ensures s.owed == {}
  {
    assert forall it :: it in s.sent ==> it.flag in s.pending;
  }

  lemma {:induction false} CallbackDelivers(c: Config, s: State)
    requires Inv(c, s) && Quiet(s) && InCallback(s.loop) && Ahead(s)
    ensures Alone(c, s).owed == {} && Alone(c, s).loop == Want
    decreases Phase(s.loop), Togo(s.loop)
  {
    hide LoopStep, Inv, Quiet, Ahead, InCallback, Alone;
    AheadStep(c, s);
    CallbackIsNotWant(s.loop);
    AloneStep(c, s);
    LoopKeeps(c, s, false);
    var s' := LoopStep(c, s, false);
    if s'.loop == Want {
      NothingOwed(c, s');
    } else {
      CallbackDelivers(c, s');
    }
  }

  lemma AheadStep(c: Config, s: State)
    requires InCallback(s.loop) && Ahead(s)
    ensures var s' := LoopStep(c, s, false);
            && s'.senders == s.senders && (Quiet(s) ==> Quiet(s'))
            && (if s'.loop == Want then s'.pending == {} else InCallback(s'.loop) && Ahead(s'))
            && (Phase(s'.loop) < Phase(s.loop) || (Phase(s'.loop) == Phase(s.loop) && Togo(s'.loop) < Togo(s.loop)))
  {
    hide Alone;
    var s' := LoopStep(c, s, false);
    assert s'.loop == Want ==> forall f :: f !in s'.pending;
  }

  lemma AloneStep(c: Config, s: State)
    requires s.loop != Want
    ensures Alone(c, s) == Alone(c, LoopStep(c, s, false))
    ensures LoopStep(c, s, false).loop == Want ==> Alone(c, s) == LoopStep(c, s, false)
  {
  }

  lemma CallbackIsNotWant(loop: LoopPc)
    requires InCallback(loop)
    ensures loop != Want
  {
  }

  lemma PolledDelivers(c: Config, s: State)
    requires Inv(c, s) && Quiet(s) && s.loop.Polling?
    ensures Alone(c, s).owed == {} && Alone(c, s).loop == Want
  {
    var s1 := LoopStep(c, s, false);
    var s2 := LoopStep(c, s1, false);
    var s3 := LoopStep(c, s2, false);
    LoopKeeps(c, s, false);
    LoopKeeps(c, s1, false);
    LoopKeeps(c, s2, false);
    assert Alone(c, s) == Alone(c, s1) == Alone(c, s2) == Alone(c, s3);
    if s3.loop == Want {
      assert s3.pending == s.pending;
      assert forall f :: f !in s.pending;
      NothingOwed(c, s3);
    } else {
      CallbackDelivers(c, s3);
    }
  }

  /**
   When the poll returns and the senders have returned, the loop by itself feeds everything that
   was sent before its next turn begins.
  */
  lemma PollDelivers(c: Config, run: seq<State>, actions: seq<Action>, k: nat)
    requires Run(c, run, actions) && k < |run| && run[k].loop.Polling? && Quiet(run[k])
    ensures Alone(c, run[k]).owed == {} && Alone(c, run[k]).loop == Want
  {
    RunKeeps(c, run, actions, k);
    PolledDelivers(c, run[k]);
  }

  // ----- and the loop goes to sleep -----

  /** The loop runs on by itself, up to the next time that it is in the poll. */
  function ToPoll(c: Config, s: State): State {
    if s.loop.Polling? then s
    else if s.loop.Decide? then LoopStep(c, s, false)
    else LoopStep(c, LoopStep(c, Alone(c, s), false), false)
  }

  /** The poll that follows after `m` whole turns of the loop by itself. */
  function Polls(c: Config, s: State, m: nat): State {
    if m == 0 then ToPoll(c, s) else ToPoll(c, Alone(c, Polls(c, s, m - 1)))
  }

  /** The loop waits, and nothing is there to wake it and nothing to be delivered. */
  ghost predicate Asleep(s: State) {
    s.loop == Polling(true) && s.pipe == 0 && !s.skipped && s.owed == {}
  }

  lemma {:induction false} AloneKeeps(c: Config, s: State)
    requires Inv(c, s)
    ensures Inv(c, Alone(c, s)) && Alone(c, s).loop == Want && Alone(c, s).senders == s.senders
    ensures Alone(c, s).pipe <= s.pipe && (s.skipped || !Alone(c, s).skipped)
    decreases Phase(s.loop), Togo(s.loop)
  {
    hide Inv;
    if s.loop != Want {
      LoopKeeps(c, s, false);
      AloneKeeps(c, LoopStep(c, s, false));
    }
  }

  /** Once the pipe is read, nothing more is taken from it, and pipe_write_skipped stays as it is cleared. */
  lemma {:induction false} CallbackLeavesPipe(c: Config, s: State)
    requires InCallback(s.loop) && !s.loop.ReadPipe?
    ensures Alone(c, s).pipe == s.pipe
    ensures Alone(c, s).skipped == (s.skipped && !s.loop.ClearSkipped?)
    decreases Phase(s.loop), Togo(s.loop)
  {
    var s' := LoopStep(c, s, false);
    if s'.loop != Want { CallbackLeavesPipe(c, s'); }
  }

  /** One turn takes up to four bytes from the pipe, or all that an eventfd counts, and leaves no write skipped. */
  lemma TurnDrains(c: Config, s: State)
    requires s.loop.Polling?
    ensures Alone(c, s).pipe == if c.eventfd || s.pipe < 4 then 0 else s.pipe - 4
    ensures !Alone(c, s).skipped
  {
    hide InCallback;
    var s2 := LoopStep(c, LoopStep(c, s, false), false);
    var s3 := LoopStep(c, s2, false);
    assert Alone(c, s) == Alone(c, LoopStep(c, s, false)) == Alone(c, s2) == Alone(c, s3);
    if s3.loop != Want {
      var s4 := LoopStep(c, s3, false);
      assert InCallback(s4.loop) by { InReadPipe(c, s3); }
      CallbackLeavesPipe(c, s4);
    }
  }

  lemma InReadPipe(c: Config, s: State)
    requires s.loop.ReadPipe?
    ensures InCallback(LoopStep(c, s, false).loop)
  {
  }

  lemma ToPollIs(c: Config, s: State)
    requires Inv(c, s)
    ensures var p := ToPoll(c, s);
            && Inv(c, p) && p.loop.Polling? && p.senders == s.senders && p.pipe <= s.pipe
            && (!s.skipped ==> !p.skipped && (!s.loop.Polling? ==> p.loop == Polling(true)))
            && (s.loop == Want ==> p.pipe == s.pipe && p.owed == s.owed)
  {
    hide Inv, Alone;
    if s.loop.Decide? {
      LoopKeeps(c, s, false);
    } else if !s.loop.Polling? {
      AloneKeeps(c, s);
      LoopKeeps(c, Alone(c, s), false);
      LoopKeeps(c, LoopStep(c, Alone(c, s), false), false);
      assert s.loop == Want ==> Alone(c, s) == s by { AloneOfWant(c, s); }
    }
  }

  lemma AloneOfWant(c: Config, s: State)
    ensures s.loop == Want ==> Alone(c, s) == s
  {
  }

  lemma QuietLike(s: State, s': State)
    requires s'.senders == s.senders
    ensures Quiet(s') == Quiet(s)
  {
  }

  /** From the first turn on: the loop waits, nothing is owed, and the pipe holds what the turns have left. */
  lemma {:induction false} PollsAre(c: Config, s: State, m: nat)
    requires Inv(c, s) && Quiet(s)
    ensures var p, first := Polls(c, s, m), Polls(c, s, 0);
            && Inv(c, p) && Quiet(p) && p.loop.Polling? && first.pipe <= s.pipe
            && (m > 0 ==> p.loop == Polling(true) && !p.skipped && p.owed == {})
            && (m > 0 ==> p.pipe == if c.eventfd || first.pipe < 4 * m then 0 else first.pipe - 4 * m)
  {
    hide Inv, Quiet, Alone, ToPoll;
    if m == 0 {
      ToPollIs(c, s);
      QuietLike(s, Polls(c, s, 0));
    } else {
      var q := Polls(c, s, m - 1);
      PollsAre(c, s, m - 1);
      TurnDrains(c, q);
      PolledDelivers(c, q);
      AloneKeeps(c, q);
      ToPollIs(c, Alone(c, q));
      QuietLike(q, Polls(c, s, m));
    }
  }

  /**
   The loop goes to sleep.  From any state of any run in which the senders have returned, every poll
   of the loop by itself waits, but for the first at most; each turn between two polls takes up to
   four bytes from the pipe; and once the pipe is empty nothing is owed and the loop sleeps on.
  */
  lemma GoesToSleep(c: Config, run: seq<State>, actions: seq<Action>, k: nat, m: nat)
    requires Run(c, run, actions) && k < |run| && Quiet(run[k])
    ensures m > 0 || (!run[k].skipped && !run[k].loop.Polling?) ==> Polls(c, run[k], m).loop == Polling(true)
    ensures var p, next := Polls(c, run[k], m), Polls(c, run[k], m + 1);
            next.pipe == (if c.eventfd || p.pipe < 4 then 0 else p.pipe - 4) && next.owed == {} && !next.skipped
    ensures m > 0 && (c.eventfd || run[k].pipe <= 4 * m) ==> Asleep(Polls(c, run[k], m))
  {
    hide Inv, Quiet, Polls;
    RunKeeps(c, run, actions, k);
    PollsAre(c, run[k], m);
    PollsAre(c, run[k], m + 1);
    FirstPoll(c, run[k]);
  }

  lemma FirstPoll(c: Config, s: State)
    requires Inv(c, s)
    ensures !s.skipped && !s.loop.Polling? ==> Polls(c, s, 0).loop == Polling(true)
  {
    hide Inv, ToPoll;
    ToPollIs(c, s);
  }

  /**
   With the senders gone, the loop that waits for good has delivered all: it sleeps exactly when
   nothing is in the pipe, and otherwise the poll returns.
  */
  lemma SleepsIffPipeEmpty(c: Config, run: seq<State>, actions: seq<Action>, k: nat)
    requires Run(c, run, actions) && k < |run| && Quiet(run[k]) && run[k].loop == Polling(true)
    ensures Asleep(run[k]) <==> run[k].pipe == 0
  {
    RunKeeps(c, run, actions, k);
  }
}
