/** The handler list and the bottom half list of an AioContext while callbacks run
    (aio-posix.c, async.c). A callback may add and delete handlers and bottom halves and
    may call aio_poll again, so walks of the lists are suspended inside one another. */
module AioHandlers {
  import opened Options

  type Id = nat

  // G_IO_IN, G_IO_HUP, G_IO_ERR, G_IO_OUT
  datatype Flag = In | Hup | Err | Out

  // AioHandler; `canRead` and `canWrite` say whether io_read and io_write are set.
  datatype Handler = Handler(
    fd: nat, canRead: bool, canWrite: bool, notifier: bool, events: set<Flag>, revents: set<Flag>,
    deleted: bool, pollIdx: int)

  datatype Bh = Bh(scheduled: bool, idle: bool, deleted: bool)

  datatype PollFd = PollFd(fd: nat, events: set<Flag>)

  /** What the code of a callback does, in order. A call of aio_poll says what the poll will report for the
      descriptors, and what the callbacks that it calls will do. */
  datatype Op =
    | SetFd(fd: nat, canRead: bool, canWrite: bool, notifier: bool)
    | NewBh | DeleteBh(id: Id) | ScheduleBh(id: Id, idle: bool) | CancelBh(id: Id)
    | Poll(blocking: bool, reports: map<nat, set<Flag>>, calls: Script)

  datatype Ops = Return | Do(op: Op, next: Ops)

  // The callbacks in the order in which they are called; after the last of them callbacks do nothing.
  datatype Script = NoCalls | Call(ops: Ops, rest: Script)

  function OpSize(op: Op): nat {
    match op
    case Poll(_, _, calls) => 1 + ScriptSize(calls)
    case _ => 0
  }

  function OpsSize(ops: Ops): nat {
    match ops
    case Return => 0
    case Do(op, next) => 1 + OpSize(op) + OpsSize(next)
  }

  function ScriptSize(calls: Script): nat {
    match calls
    case NoCalls => 0
    case Call(ops, rest) => 1 + OpsSize(ops) + ScriptSize(rest)
  }

  // ---- what has happened ----

  // A handler or bottom half is never given the number of another one, freed or not.
  datatype Event =
    | HandlerAdded(n: Id) | HandlerDeleted(n: Id)
    | HandlerReady(n: Id, flags: set<Flag>) | HandlerCalled(n: Id, write: bool)
    | BhAdded(n: Id) | BhDeleted(n: Id) | BhCalled(n: Id)

  predicate HandlerLive(log: seq<Event>, n: Id) {
    HandlerAdded(n) in log && HandlerDeleted(n) !in log
  }

  predicate BhLive(log: seq<Event>, n: Id) {
    BhAdded(n) in log && BhDeleted(n) !in log
  }

  // The flags for which io_read or io_write is called.
  predicate Fits(flags: set<Flag>, write: bool) {
    if write then Out in flags || Err in flags else In in flags || Hup in flags || Err in flags
  }

  // How often a callback of handler n was called.
  function Calls(log: seq<Event>, n: Id, write: bool): nat {
    if log == [] then 0
    else Calls(log[..|log| - 1], n, write) + if log[|log| - 1] == HandlerCalled(n, write) then 1 else 0
  }

  // The event reports something that handler n has this callback for.
  predicate ReportsFor(e: Event, n: Id, write: bool) {
    e.HandlerReady? && e.n == n && Fits(e.flags, write)
  }

  function Reports(log: seq<Event>, n: Id, write: bool): nat {
    if log == [] then 0
    else Reports(log[..|log| - 1], n, write) + if ReportsFor(log[|log| - 1], n, write) then 1 else 0
  }

  lemma Counted(log: seq<Event>, e: Event)
    ensures forall n, write {:trigger Calls(log + [e], n, write)} ::
              Calls(log + [e], n, write) == Calls(log, n, write) + if e == HandlerCalled(n, write) then 1 else 0
    ensures forall n, write {:trigger Reports(log + [e], n, write)} ::
              Reports(log + [e], n, write) == Reports(log, n, write) + if ReportsFor(e, n, write) then 1 else 0
  {
    assert (log + [e])[..|log|] == log;
  }

  // The event is in order after the others.
  ghost predicate InOrder(log: seq<Event>, e: Event) {
    match e
    case HandlerAdded(n) => HandlerAdded(n) !in log
    case HandlerDeleted(n) => HandlerLive(log, n)
    case HandlerReady(n, _) => HandlerLive(log, n)
    case HandlerCalled(n, write) => HandlerLive(log, n) && Calls(log, n, write) < Reports(log, n, write)
    case BhAdded(n) => BhAdded(n) !in log
    case BhDeleted(n) => BhAdded(n) in log
    case BhCalled(n) => BhLive(log, n)
  }

  ghost predicate LogOk(log: seq<Event>) {
    forall j | 0 <= j < |log| :: InOrder(log[..j], log[j])
  }

  lemma LogExtend(log: seq<Event>, e: Event)
    requires LogOk(log) && InOrder(log, e)
    ensures LogOk(log + [e])
  {
    forall j | 0 <= j <= |log|
      ensures InOrder((log + [e])[..j], (log + [e])[j])
    {
      if j < |log| {
        assert (log + [e])[..j] == log[..j];
      } else {
        assert (log + [e])[..j] == log;
      }
    }
  }

  /** After its deletion a handler is not called, nor a bottom half. */
  lemma NoCallAfterDelete(log: seq<Event>, i: nat, j: nat)
    requires LogOk(log) && i < j < |log|
    ensures log[i].HandlerDeleted? ==> !(log[j].HandlerCalled? && log[j].n == log[i].n)
    ensures log[i].BhDeleted? ==> log[j] != BhCalled(log[i].n)
  {
    assert InOrder(log[..j], log[j]);
    assert log[..j][i] == log[i];
  }

  /** At no time has a callback been called more often than something was reported for it. */
  lemma {:induction false} CallsAnswerReports(log: seq<Event>, k: nat, n: Id, write: bool)
    requires LogOk(log) && k <= |log|
    ensures Calls(log[..k], n, write) <= Reports(log[..k], n, write)
  {
    if k > 0 {
      CallsAnswerReports(log, k - 1, n, write);
      assert log[..k] == log[..k - 1] + [log[k - 1]];
      Counted(log[..k - 1], log[k - 1]);
      assert InOrder(log[..k - 1], log[k - 1]);
    }
  }

  // ---- lists ----

  ghost predicate Distinct(list: seq<Id>) {
    forall i, j | 0 <= i < j < |list| :: list[i] != list[j]
  }

  // QLIST_REMOVE
  function Without(list: seq<Id>, x: Id): (r: seq<Id>)
    ensures forall y :: y in r <==> y in list && y != x
  {
    if list == [] then [] else (if list[0] == x then [] else [list[0]]) + Without(list[1..], x)
  }

  lemma {:induction false} WithoutDistinct(list: seq<Id>, x: Id)
    requires Distinct(list)
    ensures Distinct(Without(list, x))
  {
    if list != [] {
      WithoutDistinct(list[1..], x);
      var rest := Without(list[1..], x);
      assert list[0] !in list[1..];
      assert forall j | 0 <= j < |rest| :: rest[j] in rest;
    }
  }

  lemma {:induction false} WithoutAbsent(list: seq<Id>, x: Id)
    requires x !in list
    ensures Without(list, x) == list
  {
    if list != [] {
      WithoutAbsent(list[1..], x);
    }
  }

  lemma {:induction false} WithoutAt(list: seq<Id>, i: nat)
    requires Distinct(list) && i < |list|
    ensures Without(list, list[i]) == list[..i] + list[i + 1..]
    ensures forall k | 0 <= k < i :: list[k] != list[i]
  {
    if i == 0 {
      assert list[0] !in list[1..];
      WithoutAbsent(list[1..], list[0]);
    } else {
      WithoutAt(list[1..], i - 1);
      assert list[..i] == [list[0]] + list[1..][..i - 1] && list[i + 1..] == list[1..][i..];
    }
  }

  lemma Prepend(list: seq<Id>, x: Id)
    requires Distinct(list) && x !in list
    ensures Distinct([x] + list) && Grown(list, [x] + list)
  {
    assert ([x] + list)[1..] == list;
  }

  // The list has only grown at its head.
  predicate Grown(tail: seq<Id>, list: seq<Id>) {
    |tail| <= |list| && list[|list| - |tail|..] == tail
  }

  lemma GrownSelf(list: seq<Id>)
    ensures Grown(list, list)
  {
  }

  lemma GrownTrans(a: seq<Id>, b: seq<Id>, c: seq<Id>)
    requires Grown(a, b) && Grown(b, c)
    ensures Grown(a, c)
  {
    assert c[|c| - |a|..] == c[|c| - |b|..][|b| - |a|..];
  }

  function First(list: seq<Id>): Option<Id> {
    if list == [] then None else Some(list[0])
  }

  // QLIST_NEXT
  function After(list: seq<Id>, x: Id): Option<Id> {
    if list == [] then None else if list[0] == x then First(list[1..]) else After(list[1..], x)
  }

  lemma {:induction false} AfterHead(list: seq<Id>, tail: seq<Id>)
    requires Distinct(list) && Grown(tail, list) && tail != []
    ensures After(list, tail[0]) == First(tail[1..]) && tail[0] in list && Grown(tail[1..], list)
    ensures Grown(tail[1..], Without(list, tail[0]))
  {
    if |list| == |tail| {
      assert list == tail;
      assert list[0] !in list[1..];
      WithoutAbsent(list[1..], list[0]);
      assert Without(list, list[0]) == list[1..];
    } else {
      assert list[|list| - |tail|] == tail[0];
      assert list[1..][|list[1..]| - |tail|..] == tail;
      AfterHead(list[1..], tail);
      var rest := Without(list[1..], tail[0]);
      assert Without(list, tail[0]) == [list[0]] + rest;
      Prefixed(tail[1..], rest, list[0]);
      assert list[|list| - |tail|..][1..] == list[|list| - |tail| + 1..];
    }
  }

  lemma Prefixed(tail: seq<Id>, list: seq<Id>, x: Id)
    requires Grown(tail, list)
    ensures Grown(tail, [x] + list)
  {
    assert ([x] + list)[|list| + 1 - |tail|..] == list[|list| - |tail|..];
  }

  // ---- the context ----

  // What the callers of a callback rely on.
  datatype Snap = Snap(
    list: seq<Id>, walkingHandlers: nat, bhList: seq<Id>, walkingBh: nat, log: seq<Event>, owed: Owed)

  // The callbacks that suspended walks have still to offer a report to.
  type Owed = multiset<(Id, bool)>

  /** The walks of the callers find their lists as they left them, but for new nodes at the
      head: while a list is walked, nothing is unlinked. */
  ghost predicate Follows(before: Snap, after: Snap) {
    && after.walkingHandlers == before.walkingHandlers && after.walkingBh == before.walkingBh
    && before.log <= after.log && after.owed == before.owed
    && (before.walkingHandlers > 0 ==> Grown(before.list, after.list))
    && (before.walkingBh > 0 ==> Grown(before.bhList, after.bhList))
  }

  lemma FollowsTrans(a: Snap, b: Snap, c: Snap)
    requires Follows(a, b) && Follows(b, c)
    ensures Follows(a, c)
  {
    if a.walkingHandlers > 0 {
      GrownTrans(a.list, b.list, c.list);
    }
    if a.walkingBh > 0 {
      GrownTrans(a.bhList, b.bhList, c.bhList);
    }
  }

  lemma FollowsSelf(s: Snap)
    ensures Follows(s, s)
  {
  }

  lemma SameWalks(a: Snap, b: Snap)
    requires Follows(a, b)
    ensures a.log <= b.log && b.owed == a.owed && b.walkingHandlers == a.walkingHandlers && b.walkingBh == a.walkingBh
  {
  }

  // What is owed is no part of the lists.
  lemma OwedAside(a: Snap, b: Snap, owed: Owed)
    requires Follows(a, b)
    ensures Follows(a.(owed := owed), b.(owed := owed))
  {
  }

  // Each node is in the list once.
  ghost predicate Linked<T>(list: seq<Id>, nodes: map<Id, T>) {
    Distinct(list) && forall n :: n in list <==> n in nodes
  }

  // At most one handler of a descriptor is live.
  ghost predicate OnePerFd(handlers: map<Id, Handler>) {
    forall m, n | m in handlers && n in handlers && m != n && !handlers[m].deleted && !handlers[n].deleted ::
      handlers[m].fd != handlers[n].fd
  }

  function Asked(canRead: bool, canWrite: bool): set<Flag> {
    (if canRead then {In, Hup, Err} else {}) + (if canWrite then {Out, Err} else {})
  }

  // The log and the nodes agree on which are live, and new numbers are new.
  ghost predicate Recorded(handlers: map<Id, Handler>, bhs: map<Id, Bh>, log: seq<Event>, nextId: Id) {
    && (forall n :: n in handlers && !handlers[n].deleted <==> HandlerLive(log, n))
    && (forall n :: n in bhs && !bhs[n].deleted <==> BhLive(log, n))
    && (forall n: Id | HandlerAdded(n) in log || BhAdded(n) in log || n in handlers || n in bhs :: n < nextId)
    && (forall n | n in bhs :: BhAdded(n) in log)
  }

  // A handler asks for what it can handle.
  ghost predicate Justified(handlers: map<Id, Handler>) {
    forall n | n in handlers :: handlers[n].events == Asked(handlers[n].canRead, handlers[n].canWrite)
  }

  // What a handler has for a callback and no walk has taken.
  function Waiting(handlers: map<Id, Handler>, n: Id, write: bool): nat {
    if n in handlers && Fits(handlers[n].revents, write) then 1 else 0
  }

  // Each report leads to one call at most: calls made, calls owed and flags that wait are all accounted for.
  ghost predicate Balanced(handlers: map<Id, Handler>, log: seq<Event>, owed: Owed) {
    forall n: Id, write: bool ::
      Calls(log, n, write) + owed[(n, write)] + Waiting(handlers, n, write) <= Reports(log, n, write)
  }

  // The callbacks that a walk owes for the flags it has taken.
  function Taken(n: Id, flags: set<Flag>): Owed {
    (if Fits(flags, false) then multiset{(n, false)} else multiset{})
    + (if Fits(flags, true) then multiset{(n, true)} else multiset{})
  }

  // What is owed once one of the callbacks has been offered the flags.
  function Spent(owed: Owed, n: Id, write: bool, flags: set<Flag>): Owed {
    if Fits(flags, write) then owed - multiset{(n, write)} else owed
  }

  lemma AllSpent(owed: Owed, n: Id, flags: set<Flag>)
    ensures Spent(Spent(owed + Taken(n, flags), n, false, flags), n, true, flags) == owed
    ensures Fits(flags, false) ==> (owed + Taken(n, flags))[(n, false)] > 0
    ensures Fits(flags, true) ==> Spent(owed + Taken(n, flags), n, false, flags)[(n, true)] > 0
  {
    hide Fits;
  }

  // One more event that is neither a call of a handler nor a report.
  lemma BalancedNext(handlers: map<Id, Handler>, handlers': map<Id, Handler>, log: seq<Event>, owed: Owed, e: Event)
    requires Balanced(handlers, log, owed) && !e.HandlerCalled? && !e.HandlerReady?
    requires forall n, write :: Waiting(handlers', n, write) <= Waiting(handlers, n, write)
    ensures Balanced(handlers', log + [e], owed)
  {
    Counted(log, e);
    hide Calls, Reports, Waiting;
  }

  /** The lists hold each node once, the log is in order, and both agree on what is live. */
  ghost predicate Ok(list: seq<Id>, handlers: map<Id, Handler>, bhList: seq<Id>, bhs: map<Id, Bh>, log: seq<Event>,
                     nextId: Id, owed: Owed) {
    && Linked(list, handlers) && Linked(bhList, bhs) && OnePerFd(handlers)
    && Recorded(handlers, bhs, log, nextId) && Justified(handlers) && Balanced(handlers, log, owed) && LogOk(log)
  }

  lemma OkBhCalled(list: seq<Id>, handlers: map<Id, Handler>, bhList: seq<Id>, bhs: map<Id, Bh>, log: seq<Event>,
                   nextId: Id, owed: Owed, b: Id)
    requires Ok(list, handlers, bhList, bhs, log, nextId, owed) && BhLive(log, b)
    ensures Ok(list, handlers, bhList, bhs, log + [BhCalled(b)], nextId, owed)
  {
    LogExtend(log, BhCalled(b));
    NotedRecord(handlers, bhs, log, nextId, BhCalled(b));
    BalancedNext(handlers, handlers, log, owed, BhCalled(b));
    hide Recorded, Justified, Linked, OnePerFd, Balanced, LogOk;
  }

  // A call that was owed is made.
  lemma OkCalled(list: seq<Id>, handlers: map<Id, Handler>, bhList: seq<Id>, bhs: map<Id, Bh>, log: seq<Event>,
                 nextId: Id, owed: Owed, n: Id, write: bool)
    requires Ok(list, handlers, bhList, bhs, log, nextId, owed) && HandlerLive(log, n) && owed[(n, write)] > 0
    ensures Ok(list, handlers, bhList, bhs, log + [HandlerCalled(n, write)], nextId, owed - multiset{(n, write)})
  {
    hide Linked, Justified, OnePerFd, Calls, Reports, Waiting;
    var e := HandlerCalled(n, write);
    assert Calls(log, n, write) < Reports(log, n, write);
    LogExtend(log, e);
    NotedRecord(handlers, bhs, log, nextId, e);
    Counted(log, e);
    hide Recorded, LogOk;
  }

  // A call that was owed is not made.
  lemma OkDropped(list: seq<Id>, handlers: map<Id, Handler>, bhList: seq<Id>, bhs: map<Id, Bh>, log: seq<Event>,
                  nextId: Id, owed: Owed, n: Id, write: bool)
    requires Ok(list, handlers, bhList, bhs, log, nextId, owed)
    ensures Ok(list, handlers, bhList, bhs, log, nextId, owed - multiset{(n, write)})
  {
    hide Linked, Justified, OnePerFd, Calls, Reports, Waiting, Recorded, LogOk;
  }

  // A walk takes the flags of a handler.
  lemma OkTaken(list: seq<Id>, handlers: map<Id, Handler>, bhList: seq<Id>, bhs: map<Id, Bh>, log: seq<Event>,
                nextId: Id, owed: Owed, n: Id)
    requires Ok(list, handlers, bhList, bhs, log, nextId, owed) && n in handlers
    ensures Ok(list, handlers[n := handlers[n].(revents := {})], bhList, bhs, log, nextId,
               owed + Taken(n, handlers[n].revents * handlers[n].events))
  {
    hide LogOk, Distinct, HandlerLive, BhLive, Asked, Calls, Reports;
    var now := handlers[n := handlers[n].(revents := {})];
    var flags := handlers[n].revents * handlers[n].events;
    assert now.Keys == handlers.Keys;
    forall m: Id, write: bool
      ensures Taken(n, flags)[(m, write)] + Waiting(now, m, write) <= Waiting(handlers, m, write)
    {
    }
    assert Balanced(now, log, owed + Taken(n, flags)) by { hide Taken, Waiting; }
  }

  // A poll has reported the flags.
  lemma OkReady(list: seq<Id>, handlers: map<Id, Handler>, bhList: seq<Id>, bhs: map<Id, Bh>, log: seq<Event>,
                nextId: Id, owed: Owed, n: Id, flags: set<Flag>)
    requires Ok(list, handlers, bhList, bhs, log, nextId, owed) && n in handlers && !handlers[n].deleted
    ensures Ok(list, handlers[n := handlers[n].(revents := flags)], bhList, bhs, log + [HandlerReady(n, flags)], nextId,
               owed)
  {
    hide Calls, Reports, Fits, Asked, Distinct;
    var e := HandlerReady(n, flags);
    var now := handlers[n := handlers[n].(revents := flags)];
    assert now.Keys == handlers.Keys;
    assert HandlerLive(log, n);
    LogExtend(log, e);
    NotedRecord(handlers, bhs, log, nextId, e);
    Counted(log, e);
    hide LogOk, InOrder, HandlerLive, BhLive;
    forall m: Id, write: bool
      ensures Waiting(now, m, write) <= Waiting(handlers, m, write) + if ReportsFor(e, m, write) then 1 else 0
    {
    }
    assert Balanced(now, log + [e], owed) by { hide Waiting, ReportsFor; }
  }

  lemma NotedRecord(handlers: map<Id, Handler>, bhs: map<Id, Bh>, log: seq<Event>, nextId: Id, e: Event)
    requires Recorded(handlers, bhs, log, nextId) && (e.HandlerCalled? || e.BhCalled? || e.HandlerReady?)
    ensures Recorded(handlers, bhs, log + [e], nextId)
  {
    forall n: Id
      ensures HandlerLive(log + [e], n) <==> HandlerLive(log, n)
      ensures BhLive(log + [e], n) <==> BhLive(log, n)
    {
    }
    hide HandlerLive, BhLive;
  }

  // A handler changes, but not its descriptor, nor whether it is deleted.
  lemma OkChanged(list: seq<Id>, handlers: map<Id, Handler>, bhList: seq<Id>, bhs: map<Id, Bh>, log: seq<Event>,
                  nextId: Id, owed: Owed, node: Id, h: Handler)
    requires Ok(list, handlers, bhList, bhs, log, nextId, owed) && node in handlers
    requires h.fd == handlers[node].fd && h.deleted == handlers[node].deleted
    requires h.events == Asked(h.canRead, h.canWrite) && h.revents == handlers[node].revents
    ensures Ok(list, handlers[node := h], bhList, bhs, log, nextId, owed)
  {
    hide LogOk, Distinct, HandlerLive, BhLive, Asked, Calls, Reports, Fits;
    assert handlers[node := h].Keys == handlers.Keys;
  }

  lemma OkDeleted(list: seq<Id>, handlers: map<Id, Handler>, bhList: seq<Id>, bhs: map<Id, Bh>, log: seq<Event>,
                  nextId: Id, owed: Owed, node: Id)
    requires Ok(list, handlers, bhList, bhs, log, nextId, owed) && node in handlers && !handlers[node].deleted
    ensures Ok(list, handlers[node := handlers[node].(deleted := true, revents := {})], bhList, bhs,
               log + [HandlerDeleted(node)], nextId, owed)
  {
    hide Recorded, Balanced, LogOk, Distinct, Asked, Calls, Reports;
    var e := HandlerDeleted(node);
    var h := handlers[node].(deleted := true, revents := {});
    DeletedRecord(handlers, bhs, log, nextId, node, h);
    LogExtend(log, e);
    BalancedNext(handlers, handlers[node := h], log, owed, e);
    assert handlers[node := h].Keys == handlers.Keys;
  }

  lemma DeletedRecord(handlers: map<Id, Handler>, bhs: map<Id, Bh>, log: seq<Event>, nextId: Id, node: Id, h: Handler)
    requires Recorded(handlers, bhs, log, nextId) && node in handlers && !handlers[node].deleted && h.deleted
    ensures Recorded(handlers[node := h], bhs, log + [HandlerDeleted(node)], nextId) && HandlerLive(log, node)
  {
    var e := HandlerDeleted(node);
    forall n: Id
      ensures HandlerLive(log + [e], n) <==> HandlerLive(log, n) && n != node
      ensures BhLive(log + [e], n) <==> BhLive(log, n)
    {
    }
    hide HandlerLive, BhLive;
  }

  lemma OkFreed(list: seq<Id>, handlers: map<Id, Handler>, bhList: seq<Id>, bhs: map<Id, Bh>, log: seq<Event>,
                nextId: Id, owed: Owed, node: Id)
    requires Ok(list, handlers, bhList, bhs, log, nextId, owed) && node in handlers && handlers[node].deleted
    ensures Ok(Without(list, node), handlers - {node}, bhList, bhs, log, nextId, owed)
  {
    WithoutDistinct(list, node);
    hide LogOk, Distinct, HandlerLive, BhLive, Asked, Calls, Reports, Fits;
  }

  lemma OkAdded(list: seq<Id>, handlers: map<Id, Handler>, bhList: seq<Id>, bhs: map<Id, Bh>, log: seq<Event>,
                nextId: Id, owed: Owed, h: Handler)
    requires Ok(list, handlers, bhList, bhs, log, nextId, owed)
    requires !h.deleted && h.revents == {} && h.events == Asked(h.canRead, h.canWrite)
    requires forall n | n in handlers && handlers[n].fd == h.fd :: handlers[n].deleted
    ensures Ok([nextId] + list, handlers[nextId := h], bhList, bhs, log + [HandlerAdded(nextId)], nextId + 1, owed)
    ensures nextId !in handlers && Grown(list, [nextId] + list)
  {
    var e := HandlerAdded(nextId);
    Prepend(list, nextId);
    AddedRecord(handlers, bhs, log, nextId, h);
    LogExtend(log, e);
    BalancedNext(handlers, handlers[nextId := h], log, owed, e);
    hide LogOk, Balanced, Distinct, InOrder, Asked, Recorded;
  }

  lemma AddedRecord(handlers: map<Id, Handler>, bhs: map<Id, Bh>, log: seq<Event>, nextId: Id, h: Handler)
    requires Recorded(handlers, bhs, log, nextId) && LogOk(log) && !h.deleted
    ensures Recorded(handlers[nextId := h], bhs, log + [HandlerAdded(nextId)], nextId + 1)
    ensures nextId !in handlers && HandlerAdded(nextId) !in log
  {
    DeletedWasAdded(log, nextId);
    var e := HandlerAdded(nextId);
    forall n: Id
      ensures HandlerLive(log + [e], n) <==> HandlerLive(log, n) || n == nextId
      ensures BhLive(log + [e], n) <==> BhLive(log, n)
    {
    }
    hide HandlerLive, BhLive, LogOk;
  }

  lemma DeletedWasAdded(log: seq<Event>, n: Id)
    requires LogOk(log)
    ensures HandlerDeleted(n) in log ==> HandlerAdded(n) in log
    ensures BhDeleted(n) in log ==> BhAdded(n) in log
  {
    if HandlerDeleted(n) in log {
      var j :| 0 <= j < |log| && log[j] == HandlerDeleted(n);
      assert InOrder(log[..j], log[j]);
    }
    if BhDeleted(n) in log {
      var j :| 0 <= j < |log| && log[j] == BhDeleted(n);
      assert InOrder(log[..j], log[j]);
    }
  }

  lemma OkBhAdded(list: seq<Id>, handlers: map<Id, Handler>, bhList: seq<Id>, bhs: map<Id, Bh>, log: seq<Event>,
                  nextId: Id, owed: Owed)
    requires Ok(list, handlers, bhList, bhs, log, nextId, owed)
    ensures Ok(list, handlers, [nextId] + bhList, bhs[nextId := Bh(false, false, false)], log + [BhAdded(nextId)],
               nextId + 1, owed)
    ensures nextId !in bhs && Grown(bhList, [nextId] + bhList)
  {
    var e := BhAdded(nextId);
    Prepend(bhList, nextId);
    BhAddedRecord(handlers, bhs, log, nextId);
    BalancedNext(handlers, handlers, log, owed, e);
    LogExtend(log, e);
    hide LogOk, Justified, Balanced, Distinct, InOrder, Recorded, OnePerFd;
  }

  lemma BhAddedRecord(handlers: map<Id, Handler>, bhs: map<Id, Bh>, log: seq<Event>, nextId: Id)
    requires Recorded(handlers, bhs, log, nextId) && LogOk(log)
    ensures Recorded(handlers, bhs[nextId := Bh(false, false, false)], log + [BhAdded(nextId)], nextId + 1)
    ensures nextId !in bhs && BhAdded(nextId) !in log
  {
    DeletedWasAdded(log, nextId);
    var e := BhAdded(nextId);
    forall n: Id
      ensures HandlerLive(log + [e], n) <==> HandlerLive(log, n)
      ensures BhLive(log + [e], n) <==> BhLive(log, n) || n == nextId
    {
    }
    hide HandlerLive, BhLive, LogOk;
  }

  lemma OkBhDeleted(list: seq<Id>, handlers: map<Id, Handler>, bhList: seq<Id>, bhs: map<Id, Bh>, log: seq<Event>,
                    nextId: Id, owed: Owed, b: Id)
    requires Ok(list, handlers, bhList, bhs, log, nextId, owed) && b in bhs
    ensures Ok(list, handlers, bhList, bhs[b := bhs[b].(scheduled := false, deleted := true)], log + [BhDeleted(b)],
               nextId, owed)
  {
    var e := BhDeleted(b);
    BhDeletedRecord(handlers, bhs, log, nextId, b);
    BalancedNext(handlers, handlers, log, owed, e);
    LogExtend(log, e);
    hide LogOk, Justified, Balanced, Distinct, InOrder, Recorded, OnePerFd;
  }

  lemma BhDeletedRecord(handlers: map<Id, Handler>, bhs: map<Id, Bh>, log: seq<Event>, nextId: Id, b: Id)
    requires Recorded(handlers, bhs, log, nextId) && b in bhs
    ensures Recorded(handlers, bhs[b := bhs[b].(scheduled := false, deleted := true)], log + [BhDeleted(b)], nextId)
    ensures BhAdded(b) in log
  {
    var e := BhDeleted(b);
    forall n: Id
      ensures HandlerLive(log + [e], n) <==> HandlerLive(log, n)
      ensures BhLive(log + [e], n) <==> BhLive(log, n) && n != b
    {
    }
    hide HandlerLive, BhLive;
  }

  lemma OkBhChanged(list: seq<Id>, handlers: map<Id, Handler>, bhList: seq<Id>, bhs: map<Id, Bh>, log: seq<Event>,
                    nextId: Id, owed: Owed, b: Id, bh: Bh)
    requires Ok(list, handlers, bhList, bhs, log, nextId, owed) && b in bhs && bh.deleted == bhs[b].deleted
    ensures Ok(list, handlers, bhList, bhs[b := bh], log, nextId, owed)
  {
    hide LogOk, Justified, Balanced, Distinct, OnePerFd, HandlerLive, BhLive;
  }

  lemma OkBhFreed(list: seq<Id>, handlers: map<Id, Handler>, bhList: seq<Id>, bhs: map<Id, Bh>, log: seq<Event>,
                  nextId: Id, owed: Owed, b: Id)
    requires Ok(list, handlers, bhList, bhs, log, nextId, owed) && b in bhs && bhs[b].deleted
    ensures Ok(list, handlers, Without(bhList, b), bhs - {b}, log, nextId, owed)
  {
    WithoutDistinct(bhList, b);
    hide LogOk, Justified, Balanced, Distinct, OnePerFd, HandlerLive, BhLive;
  }

  // The calls that a handler gets if its callbacks do nothing.
  function Due(n: Id, h: Handler): seq<Event> {
    (if !h.deleted && Fits(h.revents * h.events, false) && h.canRead then [HandlerCalled(n, false)] else [])
    + (if !h.deleted && Fits(h.revents * h.events, true) && h.canWrite then [HandlerCalled(n, true)] else [])
  }

  // aio_notify() does not count as progress.
  predicate Counts(h: Handler) {
    && !h.deleted
    && ((Fits(h.revents * h.events, false) && h.canRead && !h.notifier) ||
        (Fits(h.revents * h.events, true) && h.canWrite))
  }

  function DueCalls(list: seq<Id>, handlers: map<Id, Handler>): seq<Event>
    requires forall n | n in list :: n in handlers
  {
    if list == [] then [] else Due(list[0], handlers[list[0]]) + DueCalls(list[1..], handlers)
  }

  predicate SomeCounts(list: seq<Id>, handlers: map<Id, Handler>)
    requires forall n | n in list :: n in handlers
  {
    exists n | n in list :: Counts(handlers[n])
  }

  lemma DueNext(todo: seq<Id>, handlers: map<Id, Handler>, log: seq<Event>)
    requires todo != [] && forall n | n in todo :: n in handlers
    ensures log + DueCalls(todo, handlers) == log + Due(todo[0], handlers[todo[0]]) + DueCalls(todo[1..], handlers)
    ensures SomeCounts(todo, handlers) <==> Counts(handlers[todo[0]]) || SomeCounts(todo[1..], handlers)
  {
    hide Due, Counts;
    assert forall n :: n in todo <==> n == todo[0] || n in todo[1..];
  }

  // What a dispatch leaves of a handler if the callbacks do nothing.
  predicate Dispatched(was: Handler, handlers: map<Id, Handler>, n: Id, outermost: bool) {
    if was.deleted && outermost then n !in handlers else n in handlers && handlers[n] == was.(revents := {})
  }

  // A dispatch with idle callbacks has `todo` before it.
  ghost predicate SoFar(todo: seq<Id>, all: map<Id, Handler>, handlers: map<Id, Handler>, list: seq<Id>,
                        log0: seq<Event>, log: seq<Event>, progress: bool, outermost: bool) {
    && (forall n | n in todo :: n in all && n in handlers && handlers[n] == all[n]) &&
        (forall n | n in list :: n in all)
    && (forall n | n in all && n !in todo :: Dispatched(all[n], handlers, n, outermost))
    && log + DueCalls(todo, all) == log0 + DueCalls(list, all)
    && (progress || SomeCounts(todo, all) <==> SomeCounts(list, all))
  }

  lemma SoFarNext(todo: seq<Id>, all: map<Id, Handler>, handlers: map<Id, Handler>, list: seq<Id>, log0: seq<Event>,
                  log: seq<Event>, progress: bool, outermost: bool)
    requires SoFar(todo, all, handlers, list, log0, log, progress, outermost) && todo != [] && todo[0] !in todo[1..]
    ensures todo[0] in all && todo[0] in handlers && all[todo[0]] == handlers[todo[0]]
    ensures SoFar(
      todo[1..], all,
      if outermost && all[todo[0]].deleted then handlers - {todo[0]}
      else handlers[todo[0] := all[todo[0]].(revents := {})],
      list, log0, log + Due(todo[0], all[todo[0]]), progress || Counts(all[todo[0]]), outermost)
  {
    DueNext(todo, all, log);
    hide DueCalls, SomeCounts, Due, Counts;
    assert forall n :: n in todo <==> n == todo[0] || n in todo[1..];
  }

  lemma SoFarEnds(all: map<Id, Handler>, handlers: map<Id, Handler>, list: seq<Id>, log0: seq<Event>, log: seq<Event>,
                  progress: bool, outermost: bool)
    requires SoFar([], all, handlers, list, log0, log, progress, outermost)
    ensures log == log0 + DueCalls(list, all) && (progress <==> SomeCounts(list, all))
    ensures forall n | n in all :: Dispatched(all[n], handlers, n, outermost)
  {
  }

  predicate Runs(bh: Bh) {
    bh.scheduled && !bh.deleted
  }

  function DueBhs(list: seq<Id>, bhs: map<Id, Bh>): seq<Event>
    requires forall b | b in list :: b in bhs
  {
    if list == [] then [] else (if Runs(bhs[list[0]]) then [BhCalled(list[0])] else []) + DueBhs(list[1..], bhs)
  }

  function Ran(bh: Bh): Bh {
    if Runs(bh) then Bh(false, false, false) else bh
  }

  predicate SomeNotIdle(list: seq<Id>, bhs: map<Id, Bh>)
    requires forall b | b in list :: b in bhs
  {
    exists b | b in list :: Runs(bhs[b]) && !bhs[b].idle
  }

  lemma DueBhNext(todo: seq<Id>, bhs: map<Id, Bh>, log: seq<Event>)
    requires todo != [] && forall b | b in todo :: b in bhs
    ensures log + DueBhs(todo, bhs) ==
            log + (if Runs(bhs[todo[0]]) then [BhCalled(todo[0])] else []) + DueBhs(todo[1..], bhs)
    ensures SomeNotIdle(todo, bhs) <==> (Runs(bhs[todo[0]]) && !bhs[todo[0]].idle) || SomeNotIdle(todo[1..], bhs)
  {
    assert forall b :: b in todo <==> b == todo[0] || b in todo[1..];
  }

  lemma NoBhDue(bhs: map<Id, Bh>)
    ensures DueBhs([], bhs) == [] && !SomeNotIdle([], bhs)
  {
  }

  function LiveBhs(bhs: map<Id, Bh>): map<Id, Bh> {
    map b | b in bhs && !bhs[b].deleted :: bhs[b]
  }

  // The handler takes part in a poll.
  predicate Polled(h: Handler) {
    !h.deleted && h.events != {}
  }

  function Report(reports: map<nat, set<Flag>>, fd: nat): set<Flag> {
    if fd in reports then reports[fd] else {}
  }

  // The place of a handler among the polled descriptors.
  predicate Placed(h: Handler, pollfds: seq<PollFd>) {
    if Polled(h) then 0 <= h.pollIdx < |pollfds| && pollfds[h.pollIdx] == PollFd(h.fd, h.events) else h.pollIdx == -1
  }

  // Giving a handler its place changes nothing else.
  lemma FilledTold(handlers: map<Id, Handler>, filled: map<Id, Handler>, pollfds: seq<PollFd>,
                   reports: map<nat, set<Flag>>)
    requires handlers.Keys == filled.Keys && forall n | n in handlers :: FilledIn(handlers[n], filled[n], pollfds)
    ensures forall n | n in handlers ::
              && Placed(filled[n], pollfds) && filled[n].(pollIdx := -1) == handlers[n].(pollIdx := -1)
              && Told(filled[n], reports).(pollIdx := -1) == Told(handlers[n], reports).(pollIdx := -1)
  {
  }

  // A handler after a poll that found some descriptor ready.
  function Told(h: Handler, reports: map<nat, set<Flag>>): Handler {
    if Polled(h) then h.(revents := Report(reports, h.fd)) else h
  }

  ghost predicate SomeReady(handlers: map<Id, Handler>, reports: map<nat, set<Flag>>) {
    exists n :: n in handlers && Polled(handlers[n]) && Report(reports, handlers[n].fd) != {}
  }

  lemma ReadyExact(handlers: map<Id, Handler>, filled: map<Id, Handler>, pollfds: seq<PollFd>,
                   reports: map<nat, set<Flag>>)
    requires handlers.Keys == filled.Keys && forall n | n in handlers :: FilledIn(handlers[n], filled[n], pollfds)
    requires forall k | 0 <= k < |pollfds| :: From(pollfds[k], handlers)
    ensures (exists k | 0 <= k < |pollfds| :: Report(reports, pollfds[k].fd) != {}) <==> SomeReady(handlers, reports)
  {
    if n :| n in handlers && Polled(handlers[n]) && Report(reports, handlers[n].fd) != {} {
      assert FilledIn(handlers[n], filled[n], pollfds);
      assert Report(reports, pollfds[filled[n].pollIdx].fd) != {};
    }
    if k :| 0 <= k < |pollfds| && Report(reports, pollfds[k].fd) != {} {
      assert From(pollfds[k], handlers);
    }
  }

  // The handler has been given its place among the polled descriptors, or none.
  predicate FilledIn(was: Handler, now: Handler, pollfds: seq<PollFd>) {
    now == was.(pollIdx := now.pollIdx) && Placed(now, pollfds)
  }

  ghost predicate From(pfd: PollFd, handlers: map<Id, Handler>) {
    exists n :: n in handlers && Polled(handlers[n]) && handlers[n].fd == pfd.fd
  }

  class AioContext {
    var list: seq<Id>
    var handlers: map<Id, Handler>
    var walkingHandlers: nat
    var pollfds: seq<PollFd>
    var bhList: seq<Id>
    var bhs: map<Id, Bh>
    var walkingBh: nat
    var nextId: Id
    ghost var log: seq<Event>
    ghost var owed: Owed

    ghost predicate Inv()
      reads this`list, this`handlers, this`bhList, this`bhs, this`log, this`nextId, this`owed
    {
      Ok(list, handlers, bhList, bhs, log, nextId, owed)
    }

    ghost function Now(): Snap
      reads this`list, this`walkingHandlers, this`bhList, this`walkingBh, this`log, this`owed
    {
      Snap(list, walkingHandlers, bhList, walkingBh, log, owed)
    }

    constructor ()
      ensures Inv() && walkingHandlers == 0 && walkingBh == 0 && log == [] && owed == multiset{}
    {
      list, handlers, walkingHandlers, pollfds := [], map[], 0, [];
      bhList, bhs, walkingBh, nextId, log, owed := [], map[], 0, 0, [], multiset{};
    }

    // ---- handlers ----

    /** find_aio_handler */
    method Find(fd: nat) returns (node: Option<Id>)
      requires Linked(list, handlers)
      ensures node.Some? ==> node.value in handlers && handlers[node.value].fd == fd && !handlers[node.value].deleted
      ensures node.None? ==> forall n | n in handlers && handlers[n].fd == fd :: handlers[n].deleted
    {
      var i := 0;
      while i < |list|
        invariant 0 <= i <= |list|
        invariant forall k | 0 <= k < i :: !(handlers[list[k]].fd == fd && !handlers[list[k]].deleted)
      {
        if handlers[list[i]].fd == fd {
          if !handlers[list[i]].deleted {
            return Some(list[i]);
          }
        }
        i := i + 1;
      }
      return None;
    }

    /** aio_set_fd_handler: afterwards the descriptor has the handler asked for, or none. */
    method SetFdHandler(fd: nat, canRead: bool, canWrite: bool, notifier: bool)
      requires Inv()
      modifies this`list, this`handlers, this`nextId, this`log
      ensures Inv() && Follows(old(Now()), Now())
      ensures forall n | n in handlers && !handlers[n].deleted && handlers[n].fd == fd ::
                handlers[n].canRead == canRead && handlers[n].canWrite == canWrite && handlers[n].notifier == notifier
      ensures (exists n :: n in handlers && !handlers[n].deleted && handlers[n].fd == fd) <==> canRead || canWrite
      ensures forall n | n in old(handlers) && old(handlers)[n].fd != fd ::
                n in handlers && handlers[n] == old(handlers)[n]
    {
      hide Inv, Linked, Grown, Asked;
      Basics();
      GrownSelf(list);
      GrownSelf(bhList);
      var node := Find(fd);
      if !canRead && !canWrite {
        if node.Some? {
          RemoveHandler(node.value);
        }
      } else {
        if node.None? {
          node := AddHandler(fd);
        }
        Update(node.value, canRead, canWrite, notifier);
        assert node.value in handlers && !handlers[node.value].deleted && handlers[node.value].fd == fd;
      }
    }

    lemma Basics()
      requires Inv()
      ensures Linked(list, handlers) && OnePerFd(handlers)
    {
    }

    // A handler that a walk may hold is only marked.
    method RemoveHandler(node: Id)
      requires Inv() && node in handlers && !handlers[node].deleted
      modifies this`list, this`handlers, this`log
      ensures Inv() && Follows(old(Now()), Now())
      ensures if walkingHandlers > 0
              then handlers == old(handlers)[node := old(handlers)[node].(deleted := true, revents := {})]
              else handlers == old(handlers) - {node}
      ensures log == old(log) + [HandlerDeleted(node)]
    {
      hide Ok, Grown;
      GrownSelf(list);
      GrownSelf(bhList);
      OkDeleted(list, handlers, bhList, bhs, log, nextId, owed, node);
      log := log + [HandlerDeleted(node)];
      handlers := handlers[node := handlers[node].(deleted := true, revents := {})];
      if walkingHandlers == 0 {
        Unlink(node);
      }
    }

    // The node leaves the list and is freed.
    method Unlink(node: Id)
      requires Inv() && node in handlers && handlers[node].deleted && walkingHandlers == 0
      modifies this`list, this`handlers
      ensures Inv() && handlers == old(handlers) - {node} && list == Without(old(list), node)
    {
      hide Ok;
      OkFreed(list, handlers, bhList, bhs, log, nextId, owed, node);
      list := Without(list, node);
      handlers := handlers - {node};
    }

    method AddHandler(fd: nat) returns (node: Option<Id>)
      requires Inv() && forall n | n in handlers && handlers[n].fd == fd :: handlers[n].deleted
      modifies this`list, this`handlers, this`nextId, this`log
      ensures Inv() && Follows(old(Now()), Now()) && node == Some(old(nextId)) && node.value !in old(handlers)
      ensures handlers == old(handlers)[node.value := Handler(fd, false, false, false, {}, {}, false, -1)]
    {
      hide Ok, Grown;
      GrownSelf(bhList);
      var h := Handler(fd, false, false, false, {}, {}, false, -1);
      OkAdded(list, handlers, bhList, bhs, log, nextId, owed, h);
      log := log + [HandlerAdded(nextId)];
      handlers := handlers[nextId := h];
      list := [nextId] + list;
      node := Some(nextId);
      nextId := nextId + 1;
    }

    method Update(node: Id, canRead: bool, canWrite: bool, notifier: bool)
      requires Inv() && node in handlers
      modifies this`handlers
      ensures Inv()
      ensures handlers == old(handlers)[node := old(handlers)[node].(
                canRead := canRead, canWrite := canWrite, notifier := notifier,
                events := Asked(canRead, canWrite), pollIdx := -1)]
    {
      assert Justified(handlers);
      hide Ok, Asked;
      var h := handlers[node].(canRead := canRead, canWrite := canWrite, notifier := notifier,
        events := Asked(canRead, canWrite), pollIdx := -1);
      OkChanged(list, handlers, bhList, bhs, log, nextId, owed, node, h);
      handlers := handlers[node := h];
    }

    // ---- poll ----

    /** The middle of aio_poll: the descriptors of the live handlers are polled, and if one is ready,
        every one of these handlers gets what the poll reported for its descriptor. */
    method PollFds(reports: map<nat, set<Flag>>)
      requires Inv()
      modifies this`walkingHandlers, this`pollfds, this`handlers, this`log
      ensures Inv() && Follows(old(Now()), Now()) && handlers.Keys == old(handlers).Keys
      ensures forall n | n in handlers ::
                handlers[n].(pollIdx := -1) ==
                (if SomeReady(old(handlers), reports) then Told(old(handlers)[n], reports)
                 else old(handlers)[n]).(pollIdx := -1)
    {
      hide Ok, Grown, SomeReady, Told, FilledIn, From;
      GrownSelf(list);
      GrownSelf(bhList);
      walkingHandlers := walkingHandlers + 1;
      Fill();
      walkingHandlers := walkingHandlers - 1;
      ReadyExact(old(handlers), handlers, pollfds, reports);
      FilledTold(old(handlers), handlers, pollfds, reports);
      var ready := exists k | 0 <= k < |pollfds| :: Report(reports, pollfds[k].fd) != {};
      if ready {
        Copy(reports);
      }
    }

    // The list can be walked by index.
    lemma HandlersByIndex()
      requires Inv()
      ensures forall k | 0 <= k < |list| :: list[k] in handlers
      ensures forall n | n in handlers :: exists k :: 0 <= k < |list| && list[k] == n
      ensures forall i, j | 0 <= i < |list| && 0 <= j < |list| && i != j :: list[i] != list[j]
    {
      forall n | n in handlers
        ensures exists k :: 0 <= k < |list| && list[k] == n
      {
        assert n in list;
      }
    }

    method Fill()
      requires Inv()
      modifies this`pollfds, this`handlers
      ensures Inv() && handlers.Keys == old(handlers).Keys
      ensures forall n | n in handlers :: FilledIn(old(handlers)[n], handlers[n], pollfds)
      ensures forall k | 0 <= k < |pollfds| :: From(pollfds[k], old(handlers))
    {
      hide Inv, From, FilledIn;
      HandlersByIndex();
      pollfds := [];
      var i := 0;
      while i < |list|
        invariant 0 <= i <= |list| && Inv() && handlers.Keys == old(handlers).Keys
        invariant forall k | 0 <= k < i :: FilledIn(old(handlers)[list[k]], handlers[list[k]], pollfds)
        invariant forall k | i <= k < |list| :: handlers[list[k]] == old(handlers)[list[k]]
        invariant forall k | 0 <= k < |pollfds| :: From(pollfds[k], old(handlers))
      {
        FillOne(list[i], old(handlers));
        i := i + 1;
      }
    }

    method FillOne(node: Id, ghost all: map<Id, Handler>)
      requires Inv() && node in handlers && node in all && handlers[node] == all[node]
      modifies this`pollfds, this`handlers
      ensures Inv() && old(pollfds) <= pollfds && FilledIn(old(handlers)[node], handlers[node], pollfds)
      ensures handlers == old(handlers)[node := handlers[node]]
      ensures forall k | |old(pollfds)| <= k < |pollfds| :: From(pollfds[k], all)
      ensures forall was, now | FilledIn(was, now, old(pollfds)) :: FilledIn(was, now, pollfds)
    {
      assert Justified(handlers);
      hide Ok, Asked;
      var h := handlers[node].(pollIdx := -1);
      if !h.deleted && h.events != {} {
        h := h.(pollIdx := |pollfds|);
        pollfds := pollfds + [PollFd(h.fd, h.events)];
      }
      OkChanged(list, handlers, bhList, bhs, log, nextId, owed, node, h);
      handlers := handlers[node := h];
    }

    method Copy(reports: map<nat, set<Flag>>)
      requires Inv() && forall n | n in handlers :: Placed(handlers[n], pollfds)
      modifies this`handlers, this`log
      ensures Inv() && old(log) <= log && handlers.Keys == old(handlers).Keys
      ensures forall n | n in handlers :: handlers[n] == Told(old(handlers)[n], reports)
    {
      hide Inv, Told, Placed;
      HandlersByIndex();
      var i := 0;
      while i < |list|
        invariant 0 <= i <= |list| && Inv() && old(log) <= log && handlers.Keys == old(handlers).Keys
        invariant forall k | 0 <= k < i :: handlers[list[k]] == Told(old(handlers)[list[k]], reports)
        invariant forall k | i <= k < |list| :: handlers[list[k]] == old(handlers)[list[k]]
      {
        CopyOne(list[i], reports);
        i := i + 1;
      }
    }

    method CopyOne(node: Id, reports: map<nat, set<Flag>>)
      requires Inv() && node in handlers && Placed(handlers[node], pollfds)
      modifies this`handlers, this`log
      ensures Inv() && old(log) <= log
      ensures handlers == old(handlers)[node := Told(old(handlers)[node], reports)]
    {
      if handlers[node].pollIdx != -1 {
        SetRevents(node, Report(reports, pollfds[handlers[node].pollIdx].fd));
      }
    }

    method SetRevents(node: Id, flags: set<Flag>)
      requires Inv() && node in handlers && Polled(handlers[node])
      modifies this`handlers, this`log
      ensures Inv() && log == old(log) + [HandlerReady(node, flags)]
      ensures handlers == old(handlers)[node := old(handlers)[node].(revents := flags)]
    {
      hide Ok;
      OkReady(list, handlers, bhList, bhs, log, nextId, owed, node, flags);
      log := log + [HandlerReady(node, flags)];
      handlers := handlers[node := handlers[node].(revents := flags)];
    }

    // ---- aio_dispatch ----

    /** aio_dispatch. The callbacks may do anything, nested calls of aio_poll included; the
        walk and all suspended walks still find their nodes. If the callbacks do nothing,
        they are called for exactly the handlers that are due, in the order of the list. */
    method AioDispatch(calls0: Script) returns (progress: bool, calls: Script)
      requires Inv()
      modifies this
      ensures Inv() && Follows(old(Now()), Now()) && ScriptSize(calls) <= ScriptSize(calls0)
      ensures calls0.NoCalls? ==> calls.NoCalls? && forall n | n in old(list) :: n in old(handlers)
      ensures calls0.NoCalls? ==>
                && log == old(log) + DueCalls(old(list), old(handlers)) && bhs == old(bhs) && bhList == old(bhList)
                && (progress <==> SomeCounts(old(list), old(handlers)))
                && forall n | n in old(handlers) :: Dispatched(old(handlers)[n], handlers, n, walkingHandlers == 0)
      decreases ScriptSize(calls0), 3
    {
      hide Inv, Follows, Grown, DueCalls, SomeCounts, Due, Counts, SoFar, Dispatched;
      HandlersByIndex();
      FollowsSelf(Now());
      GrownSelf(list);
      progress, calls := false, calls0;
      var node := First(list);
      ghost var all, todo := handlers, list;
      assert SoFar(todo, all, handlers, list, log, log, progress, walkingHandlers == 0) by { Begin(); }
      while node.Some?
        invariant Inv() && Follows(old(Now()), Now()) && ScriptSize(calls) <= ScriptSize(calls0)
        invariant node == First(todo) && Grown(todo, list) && walkingHandlers == old(walkingHandlers)
        invariant calls0.NoCalls? ==>
                    && calls.NoCalls? && bhs == old(bhs) && bhList == old(bhList)
                    && SoFar(todo, all, handlers, old(list), old(log), log, progress, walkingHandlers == 0)
        decreases |todo|
      {
        ghost var before := Now();
        HeadAlone(todo);
        if calls0.NoCalls? {
          SoFarNext(todo, all, handlers, old(list), old(log), log, progress, walkingHandlers == 0);
        }
        var p;
        node, p, calls := Visit(node.value, calls, todo);
        FollowsTrans(old(Now()), before, Now());
        SameWalks(before, Now());
        todo := todo[1..];
        progress := progress || p;
      }
      if calls0.NoCalls? {
        SoFarEnds(all, handlers, old(list), old(log), log, progress, walkingHandlers == 0);
      }
    }

    lemma Begin()
      requires Inv()
      ensures SoFar(list, handlers, handlers, list, log, log, false, walkingHandlers == 0)
    {
      hide DueCalls, SomeCounts;
    }

    // The head of what is left of the walk is not met again.
    lemma HeadAlone(todo: seq<Id>)
      requires Inv() && Grown(todo, list) && todo != []
      ensures todo[0] !in todo[1..] && todo[0] in handlers
    {
      assert todo[0] == list[|list| - |todo|];
      forall k | 0 < k < |todo|
        ensures todo[k] != todo[0]
      {
        assert todo[k] == list[|list| - |todo| + k];
      }
    }

    /** One turn of the loop of aio_dispatch. */
    method Visit(node: Id, calls0: Script, ghost todo: seq<Id>)
      returns (next: Option<Id>, progress: bool, calls: Script)
      requires Inv() && todo != [] && todo[0] == node && Grown(todo, list)
      modifies this
      ensures Inv() && Follows(old(Now()), Now()) && ScriptSize(calls) <= ScriptSize(calls0)
      ensures next == First(todo[1..]) && Grown(todo[1..], list)
      ensures calls0.NoCalls? ==> calls.NoCalls? && node in old(handlers)
      ensures calls0.NoCalls? ==>
                && log == old(log) + Due(node, old(handlers)[node]) && (progress <==> Counts(old(handlers)[node]))
                && bhs == old(bhs) && bhList == old(bhList)
                && handlers == if walkingHandlers == 0 && old(handlers)[node].deleted then old(handlers) - {node}
                               else old(handlers)[node := old(handlers)[node].(revents := {})]
      decreases ScriptSize(calls0), 2
    {
      hide Inv, Follows, Grown, Fits, Taken, Spent;
      HeadAlone(todo);
      ghost var s0 := Now();
      walkingHandlers := walkingHandlers + 1;
      var revents := handlers[node].revents * handlers[node].events;
      ClearRevents(node);
      AllSpent(s0.owed, node, revents);
      ghost var s1 := Now();
      FollowsSelf(s1);
      progress, calls := Offer(node, false, revents, calls0, todo, s1);
      if handlers[node].notifier {
        progress := false;
      }
      ghost var s2 := s1.(owed := owed);
      var called;
      called, calls := Offer(node, true, revents, calls, todo, s2);
      progress := progress || called;
      next := Leave(node, todo, s0, s1.(owed := owed));
      assert old(handlers)[node := old(handlers)[node].(revents := {})] - {node} == old(handlers) - {node};
    }

    // One of the callbacks of a handler is called if it is set and due, unless the handler has been deleted.
    method Offer(node: Id, write: bool, revents: set<Flag>, calls0: Script, ghost todo: seq<Id>, ghost s1: Snap)
      returns (called: bool, calls: Script)
      requires Inv() && Follows(s1, Now()) && s1.walkingHandlers > 0 && Grown(todo, s1.list) && Grown(todo, list)
      requires todo != [] && todo[0] == node && node in handlers && (Fits(revents, write) ==> owed[(node, write)] > 0)
      modifies this
      ensures Inv() && owed == Spent(old(owed), node, write, revents) && Follows(s1.(owed := owed), Now())
      ensures ScriptSize(calls) <= ScriptSize(calls0)
      ensures Grown(todo, list) && node in handlers && old(log) <= log
      ensures called <==> old(!handlers[node].deleted && Fits(revents, write) &&
                              if write then handlers[node].canWrite else handlers[node].canRead)
      ensures calls0.NoCalls? ==>
                calls.NoCalls? && log == old(log) + if called then [HandlerCalled(node, write)] else []
      ensures calls0.NoCalls? ==>
                list == old(list) && handlers == old(handlers) && bhs == old(bhs) && bhList == old(bhList)
      decreases ScriptSize(calls0), 1, 1
    {
      hide Inv, Follows, Grown, Fits;
      var isSet := if write then handlers[node].canWrite else handlers[node].canRead;
      called := !handlers[node].deleted && Fits(revents, write) && isSet;
      calls := calls0;
      if called {
        ghost var s := Now().(owed := owed - multiset{(node, write)});
        OwedAside(s1, Now(), s.owed);
        calls := CallHandler(node, write, calls);
        FollowsTrans(s1.(owed := s.owed), s, Now());
        StillThere(todo, s1.(owed := s.owed));
        SameWalks(s, Now());
      } else if Fits(revents, write) {
        OwedAside(s1, Now(), owed - multiset{(node, write)});
        Drop(node, write);
      } else {
        OwedAside(s1, Now(), owed);
      }
    }

    // The rest of a suspended walk is still the end of the list.
    lemma StillThere(todo: seq<Id>, before: Snap)
      requires Inv() && Follows(before, Now()) && before.walkingHandlers > 0 && Grown(todo, before.list) && todo != []
      ensures Grown(todo, list) && todo[0] in handlers
    {
      GrownTrans(todo, before.list, list);
      assert todo[0] == list[|list| - |todo|];
    }

    ghost method Drop(node: Id, write: bool)
      requires Inv()
      modifies this`owed
      ensures Inv() && owed == old(owed) - multiset{(node, write)}
    {
      hide Ok;
      OkDropped(list, handlers, bhList, bhs, log, nextId, owed, node, write);
      owed := owed - multiset{(node, write)};
    }

    // The flags of a handler are taken out of it.
    method ClearRevents(node: Id)
      requires Inv() && node in handlers
      modifies this`handlers, this`owed
      ensures Inv() && handlers == old(handlers)[node := old(handlers)[node].(revents := {})]
      ensures owed == old(owed) + Taken(node, old(handlers)[node].revents * old(handlers)[node].events)
    {
      hide Ok;
      OkTaken(list, handlers, bhList, bhs, log, nextId, owed, node);
      owed := owed + Taken(node, handlers[node].revents * handlers[node].events);
      handlers := handlers[node := handlers[node].(revents := {})];
    }

    // The walk moves on, and the last walk to leave a deleted handler unlinks it.
    method Leave(node: Id, ghost todo: seq<Id>, ghost s0: Snap, ghost s1: Snap) returns (next: Option<Id>)
      requires Inv() && Grown(todo, list) && todo != [] && todo[0] == node && node in handlers
      requires s1 == s0.(walkingHandlers := s0.walkingHandlers + 1) && Follows(s1, Now())
      modifies this`walkingHandlers, this`list, this`handlers
      ensures Inv() && Follows(s0, Now()) && next == First(todo[1..]) && Grown(todo[1..], list)
      ensures walkingHandlers == s0.walkingHandlers
      ensures handlers == if s0.walkingHandlers == 0 && old(handlers)[node].deleted then old(handlers) - {node}
                          else old(handlers)
    {
      AfterHead(list, todo);
      hide Inv, Without, After, Grown;
      next := After(list, node);
      walkingHandlers := walkingHandlers - 1;
      if walkingHandlers == 0 && handlers[node].deleted {
        Unlink(node);
      }
    }

    method CallHandler(node: Id, write: bool, calls0: Script) returns (calls: Script)
      requires Inv() && node in handlers && !handlers[node].deleted && owed[(node, write)] > 0
      requires if write then handlers[node].canWrite else handlers[node].canRead
      modifies this
      ensures Inv() && Follows(old(Now().(owed := owed - multiset{(node, write)})), Now())
      ensures ScriptSize(calls) <= ScriptSize(calls0)
      ensures calls0.NoCalls? ==> calls.NoCalls? && log == old(log) + [HandlerCalled(node, write)]
      ensures calls0.NoCalls? ==>
                list == old(list) && handlers == old(handlers) && bhs == old(bhs) && bhList == old(bhList)
      decreases ScriptSize(calls0), 1, 0
    {
      assert HandlerLive(log, node);
      OkCalled(list, handlers, bhList, bhs, log, nextId, owed, node, write);
      GrownSelf(list);
      GrownSelf(bhList);
      hide Ok, Grown;
      log, owed := log + [HandlerCalled(node, write)], owed - multiset{(node, write)};
      ghost var s := Now();
      assert Follows(old(Now()).(owed := owed), s);
      calls := Callback(calls0);
      FollowsTrans(old(Now()).(owed := s.owed), s, Now());
    }

    // A callback does what comes next in the script.
    method Callback(calls0: Script) returns (calls: Script)
      requires Inv()
      modifies this
      ensures Inv() && Follows(old(Now()), Now()) && ScriptSize(calls) <= ScriptSize(calls0)
      ensures calls0.NoCalls? ==> calls.NoCalls? && unchanged(this)
      decreases ScriptSize(calls0), 0
    {
      match calls0 {
        case NoCalls =>
          FollowsSelf(Now());
          calls := NoCalls;
        case Call(ops, rest) =>
          Run(ops);
          calls := rest;
      }
    }

    // ---- bottom halves ----

    method CreateBh()
      requires Inv()
      modifies this`bhList, this`bhs, this`nextId, this`log
      ensures Inv() && Follows(old(Now()), Now())
      ensures bhList == [old(nextId)] + old(bhList) && bhs == old(bhs)[old(nextId) := Bh(false, false, false)]
    {
      hide Ok, Grown;
      GrownSelf(list);
      OkBhAdded(list, handlers, bhList, bhs, log, nextId, owed);
      log := log + [BhAdded(nextId)];
      bhs := bhs[nextId := Bh(false, false, false)];
      bhList := [nextId] + bhList;
      nextId := nextId + 1;
    }

    /** qemu_bh_delete leaves the bottom half in the list. */
    method MarkBhDeleted(b: Id)
      requires Inv() && b in bhs
      modifies this`bhs, this`log
      ensures Inv() && Follows(old(Now()), Now()) && !BhLive(log, b)
    {
      hide Ok, Grown;
      GrownSelf(list);
      GrownSelf(bhList);
      OkBhDeleted(list, handlers, bhList, bhs, log, nextId, owed, b);
      log := log + [BhDeleted(b)];
      bhs := bhs[b := bhs[b].(scheduled := false, deleted := true)];
    }

    // qemu_bh_schedule, qemu_bh_schedule_idle, qemu_bh_cancel and the start of a run.
    method SetBh(b: Id, scheduled: bool, idle: bool)
      requires Inv() && b in bhs
      modifies this`bhs
      ensures Inv() && bhs == old(bhs)[b := Bh(scheduled, idle, old(bhs)[b].deleted)]
    {
      hide Ok;
      OkBhChanged(list, handlers, bhList, bhs, log, nextId, owed, b, bhs[b].(scheduled := scheduled, idle := idle));
      bhs := bhs[b := bhs[b].(scheduled := scheduled, idle := idle)];
    }

    /** aio_bh_poll. If the callbacks do nothing, exactly the scheduled bottom halves run, in
        the order of the list. Only the outermost walk unlinks the deleted ones. */
    method AioBhPoll(calls0: Script) returns (ret: bool, calls: Script)
      requires Inv()
      modifies this
      ensures Inv() && Follows(old(Now()), Now()) && ScriptSize(calls) <= ScriptSize(calls0)
      ensures calls0.NoCalls? ==> calls.NoCalls? && forall b | b in old(bhList) :: b in old(bhs)
      ensures calls0.NoCalls? ==>
                log == old(log) + DueBhs(old(bhList), old(bhs)) && (ret <==> SomeNotIdle(old(bhList), old(bhs)))
      ensures calls0.NoCalls? ==> list == old(list) && handlers == old(handlers)
      ensures calls0.NoCalls? ==> forall b | b in bhs :: b in old(bhs) && bhs[b] == Ran(old(bhs)[b])
      ensures walkingBh == 0 ==> forall b | b in bhs :: !bhs[b].deleted
      decreases ScriptSize(calls0), 3
    {
      hide Inv, Follows, Grown, DueBhs, SomeNotIdle;
      BhsByIndex();
      ghost var s0, all := Now(), bhs;
      walkingBh := walkingBh + 1;
      ghost var s1 := Now();
      FollowsSelf(s1);
      GrownSelf(bhList);
      ret, calls := false, calls0;
      var bh := First(bhList);
      ghost var todo := bhList;
      while bh.Some?
        invariant Inv() && Follows(s1, Now()) && walkingBh > 0 && ScriptSize(calls) <= ScriptSize(calls0)
        invariant bh == First(todo) && Grown(todo, bhList) && (calls0.NoCalls? ==> calls.NoCalls?)
        invariant forall b | b in todo :: b in all
        invariant calls0.NoCalls? ==>
                    (forall b | b in todo :: b in bhs && bhs[b] == all[b]) && list == old(list) &&
                        handlers == old(handlers)
        invariant calls0.NoCalls? ==> bhs.Keys == all.Keys && forall b | b in all && b !in todo :: bhs[b] == Ran(all[b])
        invariant calls0.NoCalls? ==> log + DueBhs(todo, all) == old(log) + DueBhs(old(bhList), all)
        invariant calls0.NoCalls? ==> (ret || SomeNotIdle(todo, all) <==> SomeNotIdle(old(bhList), all))
        decreases |todo|
      {
        ghost var before := Now();
        DueBhNext(todo, all, log);
        var p;
        bh, p, calls := VisitBh(bh.value, calls, todo, s1);
        assert forall b :: b in todo <==> b == todo[0] || b in todo[1..];
        todo := todo[1..];
        ret := ret || p;
      }
      NoBhDue(all);
      EndBhPoll(s0, s1);
    }

    /** One turn of the loop of aio_bh_poll; the next bottom half is remembered before the callback of this one. */
    method VisitBh(b: Id, calls0: Script, ghost todo: seq<Id>, ghost s1: Snap)
      returns (next: Option<Id>, progress: bool, calls: Script)
      requires Inv() && todo != [] && todo[0] == b && Grown(todo, bhList) && Follows(s1, Now()) && walkingBh > 0
      modifies this
      ensures Inv() && Follows(s1, Now()) && walkingBh > 0 && ScriptSize(calls) <= ScriptSize(calls0)
      ensures next == First(todo[1..]) && Grown(todo[1..], bhList)
      ensures b !in todo[1..] && (calls0.NoCalls? ==> calls.NoCalls? && b in old(bhs))
      ensures calls0.NoCalls? ==>
                && log == old(log) + (if Runs(old(bhs)[b]) then [BhCalled(b)] else [])
                && (progress <==> Runs(old(bhs)[b]) && !old(bhs)[b].idle) && list == old(list) &&
                    handlers == old(handlers)
                && bhs == old(bhs)[b := Ran(old(bhs)[b])]
      decreases ScriptSize(calls0), 2
    {
      hide Inv, Follows, Grown;
      BhHeadAlone(todo);
      next := After(bhList, b);
      progress, calls := false, calls0;
      if !bhs[b].deleted && bhs[b].scheduled {
        progress := !bhs[b].idle;
        SetBh(b, false, false);
        ghost var s := Now();
        calls := CallBh(b, calls);
        FollowsTrans(s1, s, Now());
        SameWalks(s, Now());
        RestThere(todo, s);
      }
    }

    // The rest of a suspended walk of the bottom halves is still the end of the list.
    lemma RestThere(todo: seq<Id>, before: Snap)
      requires Follows(before, Now()) && before.walkingBh > 0 && Grown(todo, before.bhList) && todo != []
      ensures Grown(todo[1..], bhList)
    {
      GrownTrans(todo, before.bhList, bhList);
      assert bhList[|bhList| - |todo| + 1..] == bhList[|bhList| - |todo|..][1..];
    }

    lemma BhHeadAlone(todo: seq<Id>)
      requires Inv() && Grown(todo, bhList) && todo != []
      ensures todo[0] !in todo[1..] && todo[0] in bhs && After(bhList, todo[0]) == First(todo[1..]) &&
              Grown(todo[1..], bhList)
    {
      AfterHead(bhList, todo);
      assert todo[0] == bhList[|bhList| - |todo|];
      forall k | 0 < k < |todo|
        ensures todo[k] != todo[0]
      {
        assert todo[k] == bhList[|bhList| - |todo| + k];
      }
    }

    lemma BhsByIndex()
      requires Inv()
      ensures forall b :: b in bhList <==> b in bhs
    {
    }

    method CallBh(b: Id, calls0: Script) returns (calls: Script)
      requires Inv() && b in bhs && !bhs[b].deleted
      modifies this
      ensures Inv() && Follows(old(Now()), Now()) && ScriptSize(calls) <= ScriptSize(calls0)
      ensures calls0.NoCalls? ==> calls.NoCalls? && log == old(log) + [BhCalled(b)]
      ensures calls0.NoCalls? ==>
                list == old(list) && handlers == old(handlers) && bhs == old(bhs) && bhList == old(bhList)
      decreases ScriptSize(calls0), 1, 0
    {
      assert BhLive(log, b);
      OkBhCalled(list, handlers, bhList, bhs, log, nextId, owed, b);
      GrownSelf(list);
      GrownSelf(bhList);
      hide Ok, Grown;
      log := log + [BhCalled(b)];
      ghost var s := Now();
      assert Follows(old(Now()), s);
      calls := Callback(calls0);
      FollowsTrans(old(Now()), s, Now());
    }

    // The outermost walk frees the deleted bottom halves.
    method EndBhPoll(ghost s0: Snap, ghost s1: Snap)
      requires Inv() && s1 == s0.(walkingBh := s0.walkingBh + 1) && Follows(s1, Now())
      modifies this`walkingBh, this`bhList, this`bhs
      ensures Inv() && Follows(s0, Now())
      ensures if walkingBh == 0 then bhs == LiveBhs(old(bhs)) else bhs == old(bhs) && bhList == old(bhList)
    {
      hide Inv, Grown;
      walkingBh := walkingBh - 1;
      if walkingBh == 0 {
        var i := 0;
        while i < |bhList|
          modifies this`bhList, this`bhs
          invariant 0 <= i <= |bhList| && Inv() && bhs.Keys <= old(bhs).Keys
          invariant forall b | b in old(bhs) ::
                      (b in bhs ==> bhs[b] == old(bhs)[b]) && (b !in bhs ==> old(bhs)[b].deleted)
          invariant forall k | 0 <= k < i :: bhList[k] in bhs && !bhs[bhList[k]].deleted
          decreases |bhList| - i
        {
          BhsByIndex();
          if bhs[bhList[i]].deleted {
            UnlinkBh(i);
          } else {
            i := i + 1;
          }
        }
        AllLive(old(bhs));
      }
    }

    lemma AllLive(before: map<Id, Bh>)
      requires Inv() && bhs.Keys <= before.Keys && forall k | 0 <= k < |bhList| ::
                 bhList[k] in bhs && !bhs[bhList[k]].deleted
      requires forall b | b in before :: (b in bhs ==> bhs[b] == before[b]) && (b !in bhs ==> before[b].deleted)
      ensures bhs == LiveBhs(before)
    {
      forall b | b in bhs
        ensures !bhs[b].deleted
      {
        assert b in bhList;
      }
    }

    method UnlinkBh(i: nat)
      requires Inv() && i < |bhList| && bhList[i] in bhs && bhs[bhList[i]].deleted
      modifies this`bhList, this`bhs
      ensures Inv() && bhList == old(bhList)[..i] + old(bhList)[i + 1..] && bhs == old(bhs) - {old(bhList)[i]}
      ensures forall k | 0 <= k < i :: old(bhList)[k] != old(bhList)[i]
    {
      OkBhFreed(list, handlers, bhList, bhs, log, nextId, owed, bhList[i]);
      WithoutAt(bhList, i);
      hide Ok, Without;
      var b := bhList[i];
      bhList := Without(bhList, b);
      bhs := bhs - {b};
    }

    // ---- aio_poll ----

    /** aio_poll, but for its use of `dispatching`. */
    method AioPoll(blocking0: bool, reports: map<nat, set<Flag>>, calls0: Script) returns (progress: bool)
      requires Inv()
      modifies this
      ensures Inv() && Follows(old(Now()), Now())
      decreases ScriptSize(calls0), 4
    {
      hide Inv, Follows;
      ghost var s0 := Now();
      var blocking, calls := blocking0, calls0;
      progress, calls := AioBhPoll(calls);
      if progress {
        blocking := false;
      }
      ghost var s1 := Now();
      var p;
      p, calls := AioDispatch(calls);
      progress := progress || p;
      FollowsTrans(s0, s1, Now());
      if progress && !blocking {
        return;
      }
      ghost var s2 := Now();
      PollFds(reports);
      FollowsTrans(s0, s2, Now());
      ghost var s3 := Now();
      p, calls := AioDispatch(calls);
      progress := progress || p;
      FollowsTrans(s0, s3, Now());
    }

    /** Any program over the context: the code of a callback, or of the caller of aio_poll. */
    method Run(ops: Ops)
      requires Inv()
      modifies this
      ensures Inv() && Follows(old(Now()), Now())
      decreases OpsSize(ops), 0
    {
      hide Inv, Follows;
      FollowsSelf(Now());
      match ops {
        case Return =>
        case Do(op, next) =>
          Step(op);
          ghost var s := Now();
          Run(next);
          FollowsTrans(old(Now()), s, Now());
      }
    }

    method Step(op: Op)
      requires Inv()
      modifies this
      ensures Inv() && Follows(old(Now()), Now())
      decreases OpSize(op), 5
    {
      hide Inv;
      GrownSelf(list);
      GrownSelf(bhList);
      hide Grown;
      match op {
        case SetFd(fd, canRead, canWrite, notifier) => SetFdHandler(fd, canRead, canWrite, notifier);
        case NewBh => CreateBh();
        case DeleteBh(b) =>
          if b in bhs {
            MarkBhDeleted(b);
          }
        case ScheduleBh(b, idle) =>
          if b in bhs && !bhs[b].scheduled {
            SetBh(b, true, idle);
          }
        case CancelBh(b) =>
          if b in bhs {
            SetBh(b, false, bhs[b].idle);
          }
        case Poll(blocking, reports, calls) =>
          var _ := AioPoll(blocking, reports, calls);
      }
    }
  }

  /** Whatever a program and its callbacks do, nested polls included: no handler and no bottom
      half is called after its deletion, at no time has a callback been called more often
      than a poll reported something for it, and at the end no walk is left open. */
  method AnyProgram(ops: Ops) returns (ctx: AioContext)
    ensures fresh(ctx) && ctx.Inv() && LogOk(ctx.log) && ctx.walkingHandlers == 0 && ctx.walkingBh == 0
    ensures forall k: nat, n: Id, write: bool | k <= |ctx.log| ::
              Calls(ctx.log[..k], n, write) <= Reports(ctx.log[..k], n, write)
    ensures forall i, j | 0 <= i < j < |ctx.log| && ctx.log[i].HandlerDeleted? && ctx.log[j].HandlerCalled? ::
              ctx.log[i].n != ctx.log[j].n
    ensures forall i, j | 0 <= i < j < |ctx.log| && ctx.log[i].BhDeleted? && ctx.log[j].BhCalled? ::
              ctx.log[i].n != ctx.log[j].n
  {
    ctx := new AioContext();
    ctx.Run(ops);
    forall k: nat, n: Id, write: bool | k <= |ctx.log|
      ensures Calls(ctx.log[..k], n, write) <= Reports(ctx.log[..k], n, write)
    {
      CallsAnswerReports(ctx.log, k, n, write);
    }
    forall i, j | 0 <= i < j < |ctx.log|
      ensures ctx.log[i].HandlerDeleted? && ctx.log[j].HandlerCalled? ==> ctx.log[i].n != ctx.log[j].n
      ensures ctx.log[i].BhDeleted? && ctx.log[j].BhCalled? ==> ctx.log[i].n != ctx.log[j].n
    {
      NoCallAfterDelete(ctx.log, i, j);
    }
  }
}
