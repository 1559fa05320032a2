/** Bottom halves and the sleep of an iothread (async.c, aio-posix.c, iothread.c), as a
    machine whose steps are single loads and stores of shared memory. Any number of
    threads schedule bottom halves while the iothread runs aio_poll. */
module AioWakeup {
  /** QEMUBH. Two notes are kept beside the flags of the code: `urgent`, that `scheduled`
      was stored by qemu_bh_schedule, and `crossed`, that the `idle` flag of a
      qemu_bh_schedule_idle was reset under it. The second is forgotten when `scheduled` is
      cleared, unless an idle schedule is under way. */
  datatype Bh = Bh(scheduled: bool, idle: bool, deleted: bool, urgent: bool, crossed: bool)

  /** A thread in qemu_bh_schedule or qemu_bh_schedule_idle, by the store or load that is
      next: `idle`, `scheduled`, `dispatching`, the notifier. */
  datatype Thread =
    | Rest
    | StoreNotIdle(bh: nat) | StoreScheduled(bh: nat) | LoadDispatching(bh: nat) | SetNotifier(bh: nat)
    | StoreIdle(bh: nat) | StoreIdleScheduled(bh: nat)

  /** The iothread in aio_poll. */
  datatype Pc =
    | Outside
    | FirstStore(blocking: bool)
    | StartWalk(blocking: bool)
    | Walk(blocking: bool, todo: seq<nat>, ret: bool)
    | Take(blocking: bool, bh: nat, todo: seq<nat>, ret: bool)
    | LoadIdle(blocking: bool, bh: nat, todo: seq<nat>, ret: bool)
    | ResetIdle(blocking: bool, bh: nat, todo: seq<nat>, ret: bool)
    | SecondStore(blocking: bool, progress: bool)
    | Dispatch(blocking: bool, progress: bool)
    | Poll(blocking: bool)
    | ThirdStore
    | DispatchAgain
    | Restore

  datatype State = State(
    bhs: map<nat, Bh>, order: seq<nat>, dispatching: bool, was: bool, notifier: bool, revents: bool, pc: Pc,
    threads: map<nat, Thread>)
  {
    function At(t: nat): Thread {
      if t in threads then threads[t] else Rest
    }

    function Of(b: nat): Bh {
      if b in bhs then bhs[b] else Bh(false, false, true, false, false)
    }

    // Thread t is past the store of `scheduled` and has not yet notified, or found that it need not.
    predicate Notifies(t: nat, b: nat) {
      At(t) == LoadDispatching(b) || At(t) == SetNotifier(b)
    }

    ghost predicate Woken(b: nat) {
      notifier || exists t :: Notifies(t, b)
    }

    predicate Pending(b: nat) {
      Of(b).urgent && !Of(b).deleted
    }

    // The walk still has to visit b.
    predicate Ahead(b: nat) {
      || (pc.Walk? && b in pc.todo)
      || (pc.Take? && (b == pc.bh || b in pc.todo))
      || ((pc.LoadIdle? || pc.ResetIdle?) && b in pc.todo)
    }

    // The iothread may sleep in this call: `dispatching` stays false.
    predicate Critical() {
      (pc.StartWalk? || pc.Walk? || pc.Take? || pc.LoadIdle? || pc.ResetIdle? || pc.SecondStore? || pc.Dispatch? ||
       pc.Poll?) && pc.blocking
    }

    predicate Blocked() {
      pc == Poll(true) && !notifier
    }

    function With(b: nat, bh: Bh): State {
      this.(bhs := bhs[b := bh])
    }

    function Goes(t: nat, to: Thread): State {
      this.(threads := threads[t := to])
    }

    function To(to: Pc): State {
      this.(pc := to)
    }

    // Some thread is between the two stores of qemu_bh_schedule_idle.
    ghost predicate IdleUnderWay(b: nat) {
      exists t :: At(t) == StoreIdleScheduled(b)
    }
  }

  const START: State := State(map[], [], false, false, false, false, Outside, map[])

  datatype Action =
    // the iothread
    | Enter(blocking: bool) | Proceed(progress: bool)
    // other threads
    | Schedule(t: nat, b: nat) | ScheduleIdle(t: nat, b: nat) | Continue(t: nat)
    | Create(b: nat) | Cancel(b: nat) | Delete(b: nat)

  ghost predicate Enabled(s: State, a: Action) {
    match a
    case Enter(_) => s.pc.Outside?
    case Proceed(event) => !s.pc.Outside? && (s.pc.Poll? ==> !s.pc.blocking || s.notifier || event)
    case Schedule(t, b) => s.At(t).Rest? && b in s.bhs
    case ScheduleIdle(t, b) => s.At(t).Rest? && b in s.bhs
    case Continue(t) => !s.At(t).Rest? && s.At(t).bh in s.bhs
    case Create(b) => b !in s.bhs
    case Cancel(b) => b in s.bhs
    case Delete(b) => b in s.bhs
  }

  predicate InWalk(pc: Pc) {
    pc.StartWalk? || pc.Walk? || pc.Take? || pc.LoadIdle? || pc.ResetIdle?
  }

  // Where a step of aio_bh_poll leads; `bh` is the bottom half it looks at.
  function WalkPc(pc: Pc, order: seq<nat>, bh: Bh): (r: Pc)
    requires InWalk(pc)
    ensures (InWalk(r) && !r.StartWalk?) || r.SecondStore?
    ensures r.blocking ==> pc.blocking
  {
    match pc
    case StartWalk(blocking) => Walk(blocking, order, false)
    case Walk(blocking, todo, ret) =>
      if todo == [] then SecondStore(blocking && !ret, ret)
      else if !bh.deleted && bh.scheduled then Take(blocking, todo[0], todo[1..], ret)
      else Walk(blocking, todo[1..], ret)
    case Take(blocking, b, todo, ret) => LoadIdle(blocking, b, todo, ret)
    case LoadIdle(blocking, b, todo, ret) => ResetIdle(blocking, b, todo, ret || !bh.idle)
    case ResetIdle(blocking, b, todo, ret) => Walk(blocking, todo, ret)
  }

  // The bottom half that the next step of the walk looks at.
  function Visited(pc: Pc): nat {
    if pc.Take? || pc.LoadIdle? || pc.ResetIdle? then pc.bh else if pc.Walk? && pc.todo != [] then pc.todo[0] else 0
  }

  // `scheduled` is cleared.
  function Unscheduled(bh: Bh, idleUnderWay: bool): Bh {
    bh.(scheduled := false, urgent := false, crossed := bh.crossed && idleUnderWay)
  }

  // What the step stores in it.
  function WalkBh(pc: Pc, bh: Bh, idleUnderWay: bool): Bh {
    if pc.Take? then Unscheduled(bh, idleUnderWay)
    else if pc.ResetIdle? then bh.(idle := false, crossed := bh.crossed || idleUnderWay || (bh.scheduled && !bh.urgent))
    else bh
  }

  /** One step of the iothread in aio_bh_poll. At the end of the walk the deleted bottom
      halves are unlinked. */
  ghost function WalkStep(s: State): State
    requires InWalk(s.pc)
  {
    var b := Visited(s.pc);
    var bh := s.Of(b);
    s.(bhs := if s.pc.Take? || s.pc.ResetIdle? then s.bhs[b := WalkBh(s.pc, bh, s.IdleUnderWay(b))] else s.bhs,
       order := if s.pc.Walk? && s.pc.todo == [] then Live(s.order, s) else s.order,
       pc := WalkPc(s.pc, s.order, bh))
  }

  /** One step of the iothread in the rest of aio_poll. In Poll, `flag` says that another
      descriptor or a timer ends the poll; in Dispatch, that a handler made progress. */
  function PollStep(s: State, flag: bool): (r: State)
    requires !InWalk(s.pc) && !s.pc.Outside?
    ensures r == s.(dispatching := r.dispatching, notifier := r.notifier, revents := r.revents, pc := r.pc)
  {
    match s.pc
    case FirstStore(blocking) => s.(dispatching := !blocking).To(StartWalk(blocking))
    case SecondStore(blocking, progress) => s.(dispatching := !blocking).To(Dispatch(blocking, progress))
    case Dispatch(blocking, progress) =>
      var after := Handle(s);
      if (progress || flag) && !blocking then after.To(Restore) else after.To(Poll(blocking))
    case Poll(blocking) => s.(revents := s.notifier).To(ThirdStore)
    case ThirdStore => s.(dispatching := true).To(DispatchAgain)
    case DispatchAgain => Handle(s).To(Restore)
    case Restore => s.(dispatching := s.was).To(Outside)
  }

  ghost function Iothread(s: State, flag: bool): State
    requires !s.pc.Outside?
  {
    if InWalk(s.pc) then WalkStep(s) else PollStep(s, flag)
  }

  // The handler of the notifier clears it when the last poll found it set.
  function Handle(s: State): State {
    s.(notifier := s.notifier && !s.revents, revents := false)
  }

  function Live(order: seq<nat>, s: State): (r: seq<nat>)
    ensures forall b :: b in r <==> b in order && !s.Of(b).deleted
  {
    if order == [] then [] else (if s.Of(order[0]).deleted then [] else [order[0]]) + Live(order[1..], s)
  }

  // What a thread stores in its bottom half, and where it goes.
  function ThreadBh(at: Thread, bh: Bh, idleUnderWay: bool): Bh {
    match at
    case StoreNotIdle(_) => bh.(idle := false, crossed := bh.crossed || idleUnderWay)
    case StoreScheduled(_) => bh.(scheduled := true, urgent := true)
    case StoreIdle(_) => bh.(idle := true)
    case StoreIdleScheduled(_) => bh.(scheduled := true)
    case _ => bh
  }

  function ThreadNext(at: Thread, dispatching: bool): Thread {
    match at
    case StoreNotIdle(b) => StoreScheduled(b)
    case StoreScheduled(b) => LoadDispatching(b)
    case LoadDispatching(b) => if dispatching then Rest else SetNotifier(b)
    case StoreIdle(b) => StoreIdleScheduled(b)
    case _ => Rest
  }

  /** One load or store of a thread that schedules. */
  ghost function ThreadStep(s: State, t: nat): State
    requires !s.At(t).Rest?
  {
    var at := s.At(t);
    s.(bhs := s.bhs[at.bh := ThreadBh(at, s.Of(at.bh), s.IdleUnderWay(at.bh))],
       notifier := s.notifier || at.SetNotifier?,
       threads := s.threads[t := ThreadNext(at, s.dispatching)])
  }

  ghost function Do(s: State, a: Action): State
    requires Enabled(s, a)
  {
    match a
    case Enter(blocking) => s.(was := s.dispatching).To(FirstStore(blocking))
    case Proceed(flag) => Iothread(s, flag)
    case Schedule(t, b) => if s.Of(b).scheduled then s else s.Goes(t, StoreNotIdle(b))
    case ScheduleIdle(t, b) => if s.Of(b).scheduled then s else s.Goes(t, StoreIdle(b))
    case Continue(t) => ThreadStep(s, t)
    case Create(b) => s.(bhs := s.bhs[b := Bh(false, false, false, false, false)], order := [b] + s.order)
    case Cancel(b) => s.With(b, Unscheduled(s.Of(b), s.IdleUnderWay(b)))
    case Delete(b) => s.With(b, Unscheduled(s.Of(b), s.IdleUnderWay(b)).(deleted := true))
  }

  ghost predicate Inv(s: State) {
    && Listed(s) && Quiet(s)
    && (s.Critical() ==> !s.dispatching && (s.pc.StartWalk? || forall b | s.Pending(b) :: s.Ahead(b) || s.Woken(b)))
  }

  // The list holds every bottom half that is not deleted.
  ghost predicate Listed(s: State) {
    forall b :: Known(s, b)
  }

  // Between calls `dispatching` is false, and results of a poll are used up by the dispatch after it.
  ghost predicate Quiet(s: State) {
    && !s.was && (s.pc.Outside? ==> !s.dispatching)
    && (!s.pc.ThirdStore? && !s.pc.DispatchAgain? ==> !s.revents)
  }

  // What wakes the iothread for b still does after the step.
  lemma StillWoken(s: State, after: State, b: nat)
    requires s.Woken(b) && (s.notifier ==> after.notifier)
    requires forall t | s.Notifies(t, b) :: after.notifier || after.Notifies(t, b)
    ensures after.Woken(b)
  {
    if !s.notifier {
      var t :| s.Notifies(t, b);
      assert after.notifier || after.Notifies(t, b);
    }
  }

  // Of(b) is where the list and the flags say it is.
  ghost predicate Known(s: State, b: nat) {
    (s.Of(b).deleted || b in s.order) && (s.Of(b).urgent ==> s.Of(b).scheduled)
  }

  lemma WalkKnown(s: State, b: nat)
    requires InWalk(s.pc) && Known(s, b)
    ensures Known(WalkStep(s), b)
  {
    hide State.IdleUnderWay;
  }

  lemma WalkAhead(s: State, b: nat)
    requires InWalk(s.pc) && Known(s, b) && (s.pc.StartWalk? || s.Ahead(b)) && WalkStep(s).Pending(b)
    ensures WalkStep(s).Ahead(b)
  {
    hide State.IdleUnderWay, Live;
  }

  lemma WalkPending(s: State, b: nat)
    requires InWalk(s.pc) && WalkStep(s).Pending(b)
    ensures s.Pending(b)
  {
    hide State.IdleUnderWay, Live;
  }

  lemma WalkKeeps(s: State)
    requires Inv(s) && InWalk(s.pc)
    ensures Inv(WalkStep(s))
  {
    var after := WalkStep(s);
    forall b
      ensures Known(after, b)
      ensures after.Critical() && after.Pending(b) ==> after.Ahead(b) || after.Woken(b)
    {
      WalkKnown(s, b);
      hide WalkStep, State.Woken;
      if after.Critical() && after.Pending(b) {
        WalkPending(s, b);
        if s.pc.StartWalk? || s.Ahead(b) {
          WalkAhead(s, b);
        } else {
          StillWoken(s, after, b);
        }
      }
    }
    hide WalkStep, State.Woken;
  }

  lemma PollKeeps(s: State, flag: bool)
    requires Inv(s) && !InWalk(s.pc) && Enabled(s, Proceed(flag))
    ensures Inv(PollStep(s, flag))
  {
    var after := PollStep(s, flag);
    hide State.Woken;
    forall b
      ensures Known(after, b)
    {
      assert Known(s, b);
    }
    if after.Critical() && !after.pc.StartWalk? {
      forall b | after.Pending(b)
        ensures after.Woken(b)
      {
        assert s.Pending(b);
        StillWoken(s, after, b);
      }
    }
  }

  // A step of a thread changes one bottom half, and `urgent` only together with `scheduled`.
  lemma ThreadKnown(s: State, t: nat, b: nat)
    requires Known(s, b) && Enabled(s, Continue(t))
    ensures Known(ThreadStep(s, t), b)
    ensures ThreadStep(s, t).Pending(b) ==> s.Pending(b) || s.At(t) == StoreScheduled(b)
  {
    hide State.IdleUnderWay;
    if b != s.At(t).bh {
      assert ThreadStep(s, t).Of(b) == s.Of(b);
    } else {
      assert ThreadStep(s, t).Of(b).deleted == s.Of(b).deleted;
    }
  }

  lemma ThreadWakes(s: State, t: nat, b: nat)
    requires !s.At(t).Rest? && !s.dispatching && (s.Woken(b) || s.At(t) == StoreScheduled(b))
    ensures ThreadStep(s, t).Woken(b)
  {
    hide State.IdleUnderWay, State.Woken;
    if s.At(t) == StoreScheduled(b) {
      Fresh(ThreadStep(s, t), t, b);
    } else {
      StillWoken(s, ThreadStep(s, t), b);
    }
  }

  lemma ThreadKeeps(s: State, t: nat)
    requires Inv(s) && Enabled(s, Continue(t))
    ensures Inv(ThreadStep(s, t))
  {
    hide State.Woken, State.IdleUnderWay, ThreadBh, ThreadNext;
    var after := ThreadStep(s, t);
    forall b
      ensures Known(after, b)
      ensures after.Critical() && !after.pc.StartWalk? && after.Pending(b) ==> after.Ahead(b) || after.Woken(b)
    {
      ThreadKnown(s, t, b);
      if after.Critical() && (s.Woken(b) || s.At(t) == StoreScheduled(b)) {
        ThreadWakes(s, t, b);
      }
    }
  }

  lemma Fresh(s: State, t: nat, b: nat)
    requires s.Notifies(t, b)
    ensures s.Woken(b)
  {
  }

  lemma OthersKeep(s: State, a: Action)
    requires Inv(s) && Enabled(s, a) && !a.Proceed? && !a.Continue?
    ensures Inv(Do(s, a))
  {
    var after := Do(s, a);
    hide State.Woken, State.IdleUnderWay;
    forall b
      ensures Known(after, b)
    {
      assert Known(s, b);
    }
    if after.Critical() && !after.pc.StartWalk? {
      forall b | after.Pending(b)
        ensures after.Ahead(b) || after.Woken(b)
      {
        assert s.Pending(b);
        if s.Woken(b) {
          StillWoken(s, after, b);
        }
      }
    }
  }

  /** No step of any thread loses a wakeup. */
  lemma InvKept(s: State, a: Action)
    requires Inv(s) && Enabled(s, a)
    ensures Inv(Do(s, a))
  {
    hide Inv;
    match a {
      case Proceed(flag) =>
        if InWalk(s.pc) {
          WalkKeeps(s);
        } else {
          PollKeeps(s, flag);
        }
      case Continue(t) => ThreadKeeps(s, t);
      case _ => OthersKeep(s, a);
    }
  }

  // ---- runs ----

  /** A run: a sequence of steps, each of which can be taken. */
  ghost predicate IsRun(run: seq<Action>)
    decreases |run|, 0
  {
    run == [] || (IsRun(run[..|run| - 1]) && Enabled(After(run[..|run| - 1]), run[|run| - 1]))
  }

  // The state a run leads to, from a new context.
  ghost function After(run: seq<Action>): State
    requires IsRun(run)
    decreases |run|, 1
  {
    if run == [] then START else Do(After(run[..|run| - 1]), run[|run| - 1])
  }

  lemma {:induction false} RunKeepsInv(run: seq<Action>)
    requires IsRun(run)
    ensures Inv(After(run))
    decreases |run|
  {
    if run != [] {
      RunKeepsInv(run[..|run| - 1]);
      InvKept(After(run[..|run| - 1]), run[|run| - 1]);
    }
  }

  /** No lost wakeup: whenever the iothread sleeps in a blocking poll, each bottom half
      that qemu_bh_schedule has marked and that is not deleted has a thread on its way to
      set the notifier. */
  lemma NoLostWakeup(run: seq<Action>, b: nat)
    requires IsRun(run) && After(run).Blocked() && After(run).Pending(b)
    ensures exists t :: After(run).Notifies(t, b)
  {
    RunKeepsInv(run);
    assert After(run).Ahead(b) || After(run).Woken(b);
  }

  // ---- what the flags alone say ----

  // The flags call for a wakeup.
  predicate Flagged(s: State, b: nat) {
    s.Of(b).scheduled && !s.Of(b).idle && !s.Of(b).deleted
  }

  // A thread is between the stores of qemu_bh_schedule.
  ghost predicate Scheduling(s: State, b: nat) {
    exists t :: s.At(t) == StoreScheduled(b)
  }

  ghost predicate FlagsOk(s: State, b: nat) {
    && (Flagged(s, b) ==> s.Of(b).urgent || s.Of(b).crossed || Scheduling(s, b))
    && (s.IdleUnderWay(b) ==> s.Of(b).idle || s.Of(b).crossed)
    && (s.Of(b).crossed ==> s.Of(b).scheduled || s.IdleUnderWay(b))
  }

  lemma WalkFlags(s: State, b: nat)
    requires InWalk(s.pc) && FlagsOk(s, b)
    ensures FlagsOk(WalkStep(s), b)
  {
    SameThreads(s, WalkStep(s), b);
    hide State.IdleUnderWay, Scheduling, Live;
    if s.pc.Take? && s.pc.bh == b {
      assert !Flagged(WalkStep(s), b);
    } else if !(s.pc.ResetIdle? && s.pc.bh == b) {
      assert WalkStep(s).Of(b) == s.Of(b);
    }
  }

  lemma FlagsKept(s: State, a: Action, b: nat)
    requires Enabled(s, a) && FlagsOk(s, b)
    ensures FlagsOk(Do(s, a), b)
  {
    var after := Do(s, a);
    match a {
      case Proceed(flag) =>
        if InWalk(s.pc) {
          WalkFlags(s, b);
        } else {
          SameThreads(s, after, b);
          hide State.IdleUnderWay, Scheduling, PollStep;
        }
      case Continue(t) => FlagsStep(s, t, b);
      case _ => OtherFlags(s, a, b);
    }
  }

  lemma OtherFlags(s: State, a: Action, b: nat)
    requires Enabled(s, a) && FlagsOk(s, b) && !a.Proceed? && !a.Continue?
    ensures FlagsOk(Do(s, a), b)
  {
    FewThreads(s, a, b);
    hide State.IdleUnderWay, Scheduling;
  }

  lemma SameThreads(s: State, after: State, b: nat)
    requires after.threads == s.threads
    ensures after.IdleUnderWay(b) <==> s.IdleUnderWay(b)
    ensures Scheduling(after, b) <==> Scheduling(s, b)
  {
    assert forall t :: after.At(t) == s.At(t);
  }

  // Only the threads that begin to schedule move.
  lemma OtherThreads(s: State, a: Action)
    requires Enabled(s, a) && !a.Proceed? && !a.Continue?
    ensures forall t :: || Do(s, a).At(t) == s.At(t)
                        || (s.At(t).Rest? && (Do(s, a).At(t).StoreNotIdle? ||
                           (a.ScheduleIdle? && Do(s, a).At(t) == StoreIdle(a.b))))
  {
  }

  lemma FewThreads(s: State, a: Action, b: nat)
    requires Enabled(s, a) && !a.Proceed? && !a.Continue?
    ensures Do(s, a).IdleUnderWay(b) <==> s.IdleUnderWay(b)
    ensures Scheduling(s, b) ==> Scheduling(Do(s, a), b)
  {
    hide Do;
    var after := Do(s, a);
    OtherThreads(s, a);
    if after.IdleUnderWay(b) {
      var t :| after.At(t) == StoreIdleScheduled(b);
      assert s.At(t) == StoreIdleScheduled(b);
    }
    if s.IdleUnderWay(b) {
      var t :| s.At(t) == StoreIdleScheduled(b);
      assert after.At(t) == StoreIdleScheduled(b);
    }
    if Scheduling(s, b) {
      var t :| s.At(t) == StoreScheduled(b);
      assert after.At(t) == StoreScheduled(b);
    }
  }

  lemma FlagsStep(s: State, t: nat, b: nat)
    requires !s.At(t).Rest? && FlagsOk(s, b)
    ensures FlagsOk(ThreadStep(s, t), b)
  {
    var after, at := ThreadStep(s, t), s.At(t);
    assert forall u | u != t :: after.At(u) == s.At(u);
    if at.bh != b {
      assert after.Of(b) == s.Of(b);
    } else if at.StoreNotIdle? {
      assert after.At(t) == StoreScheduled(b);
    } else if at.StoreScheduled? {
      assert after.Of(b).urgent;
    } else if at.StoreIdle? {
      assert after.Of(b).idle;
    } else if at.StoreIdleScheduled? {
      assert s.IdleUnderWay(b);
    }
  }

  lemma {:induction false} RunKeepsFlags(run: seq<Action>, b: nat)
    requires IsRun(run)
    ensures FlagsOk(After(run), b)
    decreases |run|
  {
    if run != [] {
      RunKeepsFlags(run[..|run| - 1], b);
      FlagsKept(After(run[..|run| - 1]), run[|run| - 1], b);
    }
  }

  /** The same, read off the flags: a sleeping iothread has a thread on its way to notify
      it of every bottom half marked as scheduled and not idle, if no idle schedule of it
      was crossed by a run or another schedule. */
  lemma NoLostFlag(run: seq<Action>, b: nat)
    requires IsRun(run) && After(run).Blocked() && Flagged(After(run), b) && !After(run).Of(b).crossed
    ensures exists t :: After(run).Notifies(t, b) || After(run).At(t) == StoreScheduled(b)
  {
    RunKeepsFlags(run, b);
    if After(run).Of(b).urgent {
      NoLostWakeup(run, b);
    }
  }

  /** A crossing is about the mark that stands now or one that is being stored: once the
      bottom half has run and no idle schedule is under way, the flags can be trusted again. */
  lemma CrossingEnds(run: seq<Action>, b: nat)
    requires IsRun(run) && After(run).Of(b).crossed
    ensures After(run).Of(b).scheduled || After(run).IdleUnderWay(b)
  {
    RunKeepsFlags(run, b);
  }

  // No idle schedule of b was ever begun.
  ghost predicate NoIdle(s: State, b: nat) {
    && !s.Of(b).crossed && (s.Of(b).scheduled ==> s.Of(b).urgent)
    && forall t :: s.At(t) != StoreIdle(b) && s.At(t) != StoreIdleScheduled(b)
  }

  lemma NoIdleStep(s: State, a: Action, b: nat)
    requires Enabled(s, a) && NoIdle(s, b) && (a.ScheduleIdle? ==> a.b != b)
    ensures NoIdle(Do(s, a), b)
  {
    hide NoIdle;
    match a {
      case Proceed(flag) =>
        if InWalk(s.pc) {
          NoIdleWalk(s, b);
        } else {
          NoIdlePoll(s, flag, b);
        }
      case Continue(t) => NoIdleThread(s, t, b);
      case _ => NoIdleOther(s, a, b);
    }
  }

  lemma NoIdleOther(s: State, a: Action, b: nat)
    requires Enabled(s, a) && NoIdle(s, b) && (a.ScheduleIdle? ==> a.b != b) && !a.Proceed? && !a.Continue?
    ensures NoIdle(Do(s, a), b)
  {
    hide Do;
    OtherThreads(s, a);
    OtherBh(s, a, b);
  }

  lemma OtherBh(s: State, a: Action, b: nat)
    requires Enabled(s, a) && !a.Proceed? && !a.Continue? && !s.Of(b).crossed && (s.Of(b).scheduled ==> s.Of(b).urgent)
    ensures !Do(s, a).Of(b).crossed && (Do(s, a).Of(b).scheduled ==> Do(s, a).Of(b).urgent)
  {
  }

  lemma NoIdlePoll(s: State, flag: bool, b: nat)
    requires !InWalk(s.pc) && !s.pc.Outside? && NoIdle(s, b)
    ensures NoIdle(PollStep(s, flag), b)
  {
    hide PollStep;
    assert forall u :: PollStep(s, flag).At(u) == s.At(u);
  }

  lemma NoIdleWalk(s: State, b: nat)
    requires InWalk(s.pc) && NoIdle(s, b)
    ensures NoIdle(WalkStep(s), b)
  {
    var after := WalkStep(s);
    assert !s.IdleUnderWay(b);
    assert forall t :: after.At(t) == s.At(t);
    hide State.IdleUnderWay, Live;
    if (s.pc.Take? || s.pc.ResetIdle?) && s.pc.bh == b {
      assert !after.Of(b).crossed;
    } else {
      assert after.Of(b) == s.Of(b);
    }
  }

  lemma NoIdleThread(s: State, t: nat, b: nat)
    requires !s.At(t).Rest? && NoIdle(s, b)
    ensures NoIdle(ThreadStep(s, t), b)
  {
    var after := ThreadStep(s, t);
    assert !s.IdleUnderWay(b);
    assert forall u | u != t :: after.At(u) == s.At(u);
    hide State.IdleUnderWay;
    if s.At(t).bh != b {
      assert after.Of(b) == s.Of(b);
    } else {
      assert !after.Of(b).crossed && (after.Of(b).scheduled ==> after.Of(b).urgent);
    }
  }

  /** Nothing is crossed if the bottom half is never scheduled as idle, so then the flags
      can be trusted. */
  lemma {:induction false} NeverIdle(run: seq<Action>, b: nat)
    requires IsRun(run) && forall a | a in run && a.ScheduleIdle? :: a.b != b
    ensures NoIdle(After(run), b)
    decreases |run|
  {
    if run != [] {
      var n := |run| - 1;
      assert forall a | a in run[..n] :: a in run;
      NeverIdle(run[..n], b);
      NoIdleStep(After(run[..n]), run[n], b);
    }
  }

  // ---- a crossed idle schedule ----

  lemma Then(run: seq<Action>, a: Action) returns (r: seq<Action>)
    requires IsRun(run) && Enabled(After(run), a)
    ensures IsRun(r) && After(r) == Do(After(run), a)
  {
    r := run + [a];
    assert r[..|r| - 1] == run;
  }

  // One bottom half, quiet notifier, and the given flags and positions.
  ghost predicate Stands(s: State, scheduled: bool, idle: bool, urgent: bool, dispatching: bool, pc: Pc,
                         threads: map<nat, Thread>) {
    s == State(map[0 := Bh(scheduled, idle, false, urgent, s.Of(0).crossed)], [0], dispatching, false, false, false, pc,
               threads)
  }

  // Thread 2 has stored `idle` and not yet `scheduled`, and the iothread is in a call that does not block.
  lemma IdleStored() returns (r: seq<Action>)
    ensures IsRun(r) && Stands(After(r), false, true, false, true, StartWalk(false), map[2 := StoreIdleScheduled(0)])
  {
    hide State.IdleUnderWay;
    r := [];
    r := Then(r, Create(0));
    r := Then(r, ScheduleIdle(2, 0));
    r := Then(r, Continue(2));
    r := Then(r, Enter(false));
    r := Then(r, Proceed(false));
  }

  // Thread 1 schedules the bottom half, and need not notify.
  lemma Interrupted() returns (r: seq<Action>)
    ensures IsRun(r) && Stands(After(r), false, false, false, true, StartWalk(false),
                               map[1 := StoreScheduled(0), 2 := StoreIdleScheduled(0)])
  {
    hide State.IdleUnderWay;
    r := IdleStored();
    r := Then(r, Schedule(1, 0));
    assert Stands(After(r), false, true, false, true, StartWalk(false),
                  map[1 := StoreNotIdle(0), 2 := StoreIdleScheduled(0)]);
    r := Then(r, Continue(1));
  }

  lemma Scheduled() returns (r: seq<Action>)
    ensures IsRun(r) && Stands(After(r), true, false, true, true, StartWalk(false),
                               map[1 := Rest, 2 := StoreIdleScheduled(0)])
  {
    hide State.IdleUnderWay;
    r := Interrupted();
    r := Then(r, Continue(1));
    assert Stands(After(r), true, false, true, true, StartWalk(false),
                  map[1 := LoadDispatching(0), 2 := StoreIdleScheduled(0)]);
    r := Then(r, Continue(1));
  }

  lemma LiveOne(s: State)
    requires !s.Of(0).deleted
    ensures Live([0], s) == [0]
  {
    assert Live([], s) == [];
  }

  // The walk ends with nothing to unlink.
  lemma WalkEnds(run: seq<Action>, blocking: bool, ret: bool, threads: map<nat, Thread>) returns (r: seq<Action>)
    requires IsRun(run) && Stands(After(run), false, false, false, !blocking, Walk(blocking, [], ret), threads)
    ensures IsRun(r) && Stands(After(r), false, false, false, !blocking, SecondStore(blocking && !ret, ret), threads)
  {
    LiveOne(After(run));
    r := Then(run, Proceed(false));
  }

  // The iothread runs it.
  lemma RunOnce() returns (r: seq<Action>)
    ensures IsRun(r) && Stands(After(r), false, false, false, true, Walk(false, [], true),
                               map[1 := Rest, 2 := StoreIdleScheduled(0)])
  {
    hide State.IdleUnderWay, Live;
    r := Scheduled();
    r := Then(r, Proceed(false));
    r := Then(r, Proceed(false));
    assert Stands(After(r), true, false, true, true, Take(false, 0, [], false),
                  map[1 := Rest, 2 := StoreIdleScheduled(0)]);
    r := Then(r, Proceed(false));
    r := Then(r, Proceed(false));
    r := Then(r, Proceed(false));
  }

  lemma Dispatched() returns (r: seq<Action>)
    ensures IsRun(r) && Stands(After(r), false, false, false, true, Restore, map[1 := Rest, 2 := StoreIdleScheduled(0)])
  {
    hide State.IdleUnderWay, Live;
    r := RunOnce();
    r := WalkEnds(r, false, true, map[1 := Rest, 2 := StoreIdleScheduled(0)]);
    r := Then(r, Proceed(false));
    assert Stands(After(r), false, false, false, true, Dispatch(false, true),
                  map[1 := Rest, 2 := StoreIdleScheduled(0)]);
    r := Then(r, Proceed(false));
  }

  lemma Returned() returns (r: seq<Action>)
    ensures IsRun(r) && Stands(After(r), false, false, false, false, Outside,
                               map[1 := Rest, 2 := StoreIdleScheduled(0)])
  {
    hide State.IdleUnderWay, Live;
    r := Dispatched();
    r := Then(r, Proceed(false));
  }

  // The iothread finds nothing to run and goes to sleep.
  lemma NothingFound() returns (r: seq<Action>)
    ensures IsRun(r) && Stands(After(r), false, false, false, false, Walk(true, [], false),
                               map[1 := Rest, 2 := StoreIdleScheduled(0)])
  {
    hide State.IdleUnderWay, Live;
    r := Returned();
    r := Then(r, Enter(true));
    r := Then(r, Proceed(false));
    r := Then(r, Proceed(false));
    assert Stands(After(r), false, false, false, false, Walk(true, [0], false),
                  map[1 := Rest, 2 := StoreIdleScheduled(0)]);
    r := Then(r, Proceed(false));
  }

  lemma Asleep() returns (r: seq<Action>)
    ensures IsRun(r) && Stands(After(r), false, false, false, false, Poll(true),
                               map[1 := Rest, 2 := StoreIdleScheduled(0)])
  {
    hide State.IdleUnderWay, Live;
    r := NothingFound();
    r := WalkEnds(r, true, false, map[1 := Rest, 2 := StoreIdleScheduled(0)]);
    r := Then(r, Proceed(false));
    r := Then(r, Proceed(false));
  }

  /** The flags alone can mislead: here the iothread sleeps, a bottom half is marked as
      scheduled and not idle, and no thread is about to notify. */
  lemma CrossedSleeps() returns (r: seq<Action>)
    ensures IsRun(r) && After(r).Blocked() && Flagged(After(r), 0) && forall t :: After(r).At(t).Rest?
  {
    hide State.IdleUnderWay;
    r := Asleep();
    r := Then(r, Continue(2));
  }
}
