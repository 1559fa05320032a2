/** The list of requests in flight on a block device, and which of them wait for which
    (block.c). A coroutine has at most one request on the device, so a request is named
    by its coroutine. */
module TrackedRequests {
  import opened Arithmetic
  import opened Options

  type Co = nat

  /** BdrvTrackedRequest. */
  datatype Request = Request(
    offset: nat, bytes: nat, isWrite: bool,
    serialising: bool, overlapOffset: nat, overlapBytes: nat,
    waitQueue: set<Co>, waitingFor: Option<Co>)
  {
    predicate Passed() {
      waitingFor.None?
    }

    function OverlapEnd(): nat {
      overlapOffset + overlapBytes
    }
  }

  type Requests = map<Co, Request>

  // ---- overlap ----

  /** tracked_request_overlaps, for the whole region of another request. */
  predicate Overlaps(req: Request, self: Request) {
    && self.overlapOffset < req.OverlapEnd()
    && req.overlapOffset < self.OverlapEnd()
  }

  /** Two requests that must not be past their waits together. */
  predicate Conflict(a: Request, b: Request) {
    (a.serialising || b.serialising) && Overlaps(a, b)
  }

  /** tracked_request_begin */
  function Begin(offset: nat, bytes: nat, isWrite: bool): Request {
    Request(offset, bytes, isWrite, false, offset, bytes, {}, None)
  }

  /** mark_request_serialising */
  function Mark(req: Request, align: nat): Request
    requires align > 0
  {
    var overlapOffset := Down(req.offset, align);
    var end: int := Up(req.offset + req.bytes, align);
    var overlapBytes: int := end - overlapOffset;
    req.(serialising := true,
         overlapOffset := if req.overlapOffset < overlapOffset then req.overlapOffset else overlapOffset,
         overlapBytes := if req.overlapBytes > overlapBytes then req.overlapBytes else overlapBytes)
  }

  // The region of a request marked with one alignment, however often.
  predicate Spans(req: Request, align: nat)
    requires align > 0
  {
    req.overlapOffset == Down(req.offset, align) && req.OverlapEnd() == Up(req.offset + req.bytes, align)
  }

  lemma MarkSpans(req: Request, align: nat)
    requires align > 0
    requires Spans(req, align) || (req.overlapOffset == req.offset && req.overlapBytes == req.bytes)
    ensures Spans(Mark(req, align), align) && (req.serialising && Spans(req, align) ==> Mark(req, align) == req)
  {
    DownFacts(req.offset, align);
    UpFacts(req.offset + req.bytes, align);
  }

  // ---- the waits ----

  // `self` would wait for `q` now.
  predicate Blocks(requests: Requests, self: Co, q: Co)
    requires self in requests
  {
    q in requests && q != self && Conflict(requests[q], requests[self]) && requests[q].Passed()
  }

  // `q` has parked `self` in its queue.
  predicate Parked(requests: Requests, self: Co, q: Co)
    requires self in requests
  {
    q in requests && self in requests[q].waitQueue && requests[q].Passed() && requests[self].waitingFor == Some(q)
  }

  /** A request that waits is parked with one that does not, or has been woken. */
  ghost predicate QueuesOk(requests: Requests, wakeup: set<Co>) {
    && (forall a | a in requests && !requests[a].Passed() && a !in wakeup ::
         Parked(requests, a, requests[a].waitingFor.value))
    && (forall a | a in wakeup :: a in requests && !requests[a].Passed())
    && (forall q, a | q in requests && a in requests[q].waitQueue ::
        a in requests && a !in wakeup && Parked(requests, a, q))
  }

  // No two requests in conflict are both past their waits, `self` left out.
  ghost predicate ExclusiveBut(requests: Requests, self: Co) {
    forall a, b | a in requests && b in requests && a != b && a != self && b != self && requests[a].Passed() &&
        requests[b].Passed()
      :: !Conflict(requests[a], requests[b])
  }

  ghost predicate Exclusive(requests: Requests) {
    forall a, b | a in requests && b in requests && a != b && requests[a].Passed() && requests[b].Passed()
      :: !Conflict(requests[a], requests[b])
  }

  /** Whoever finds nothing to wait for is now alone in its region. */
  lemma PassedExclusive(requests: Requests, self: Co)
    requires self in requests && ExclusiveBut(requests, self)
    requires forall q | q in requests :: !Blocks(requests, self, q)
    ensures Exclusive(requests)
  {
    forall a, b | a in requests && b in requests && a != b && requests[a].Passed() && requests[b].Passed()
      ensures !Conflict(requests[a], requests[b])
    {
      assert !Blocks(requests, self, a) && !Blocks(requests, self, b);
    }
  }

  /** A request past its wait never waits again. */
  lemma NeverBlocksAgain(requests: Requests, self: Co, q: Co)
    requires self in requests && requests[self].Passed() && Exclusive(requests)
    ensures !Blocks(requests, self, q)
  {
  }

  // ---- deadlock ----

  // `path` follows parked requests to the ones they wait for.
  ghost predicate WaitPath(requests: Requests, wakeup: set<Co>, path: seq<Co>) {
    && (forall i | 0 <= i < |path| :: path[i] in requests)
    && (forall i | 0 <= i < |path| - 1 :: path[i] !in wakeup && requests[path[i]].waitingFor == Some(path[i + 1]))
  }

  /** The graph of waits has no cycle: no path is longer than one wait. */
  lemma WaitsAreShort(requests: Requests, wakeup: set<Co>, path: seq<Co>)
    requires QueuesOk(requests, wakeup) && WaitPath(requests, wakeup, path)
    ensures |path| <= 2
  {
    assert |path| > 2 ==> requests[path[1]].waitingFor == Some(path[1 + 1]);
    forall i | 1 <= i < |path|
      ensures requests[path[i]].Passed()
    {
      assert requests[path[i - 1]].waitingFor == Some(path[i - 1 + 1]);
      assert Parked(requests, path[i - 1], path[i]);
    }
  }

  // A coroutine that will run: its driver call is under way, or it has been woken.
  predicate Runnable(requests: Requests, wakeup: set<Co>, co: Co) {
    co in requests && (requests[co].Passed() || co in wakeup)
  }

  /** While any request is tracked, some request is not waiting. */
  lemma SomeRunnable(requests: Requests, wakeup: set<Co>) returns (co: Co)
    requires QueuesOk(requests, wakeup) && requests != map[]
    ensures Runnable(requests, wakeup, co)
  {
    co :| co in requests;
    if !Runnable(requests, wakeup, co) {
      assert Parked(requests, co, requests[co].waitingFor.value);
      co := requests[co].waitingFor.value;
    }
  }

  // ---- what one step does to the queues ----

  // qemu_co_queue_wait
  function Park(requests: Requests, self: Co, q: Co): Requests
    requires self in requests && q in requests
  {
    var waiting := requests[self := requests[self].(waitingFor := Some(q))];
    waiting[q := requests[q].(waitQueue := requests[q].waitQueue + {self})]
  }

  lemma ParkOk(requests: Requests, wakeup: set<Co>, self: Co, q: Co)
    requires QueuesOk(requests, wakeup) && ExclusiveBut(requests, self)
    requires self in requests && requests[self].Passed() && requests[self].waitQueue == {} && Blocks(requests, self, q)
    ensures QueuesOk(Park(requests, self, q), wakeup)
  {
    hide Conflict, ExclusiveBut;
    var after := Park(requests, self, q);
    forall a | a in after && !after[a].Passed() && a !in wakeup
      ensures Parked(after, a, after[a].waitingFor.value)
    {
      if a != self {
        assert Parked(requests, a, requests[a].waitingFor.value);
      }
    }
    forall p, a | p in after && a in after[p].waitQueue
      ensures a in after && a !in wakeup && Parked(after, a, p)
    {
      if a != self {
        assert a in requests[p].waitQueue;
        assert Parked(requests, a, p);
      }
    }
  }

  lemma ParkExclusive(requests: Requests, self: Co, q: Co)
    requires ExclusiveBut(requests, self) && self in requests && q in requests && q != self
    ensures Exclusive(Park(requests, self, q))
  {
    var after := Park(requests, self, q);
    forall a, b | a in after && b in after && a != b && after[a].Passed() && after[b].Passed()
      ensures !Conflict(after[a], after[b])
    {
      assert !Conflict(requests[a], requests[b]);
    }
  }

  // tracked_request_end: whoever was parked with the request is woken.
  function End(requests: Requests, self: Co): Requests {
    map co | co in requests && co != self :: requests[co]
  }

  lemma EndOk(requests: Requests, wakeup: set<Co>, self: Co)
    requires QueuesOk(requests, wakeup) && Exclusive(requests) && self in requests && requests[self].Passed()
    ensures QueuesOk(End(requests, self), wakeup + requests[self].waitQueue) && Exclusive(End(requests, self))
  {
    var after, woken := End(requests, self), wakeup + requests[self].waitQueue;
    forall a | a in after && !after[a].Passed() && a !in woken
      ensures Parked(after, a, after[a].waitingFor.value)
    {
      assert Parked(requests, a, requests[a].waitingFor.value);
    }
    forall q, a | q in after && a in after[q].waitQueue
      ensures a in after && a !in woken && Parked(after, a, q)
    {
      assert a in requests[q].waitQueue;
      assert Parked(requests, a, q);
      assert a in requests[self].waitQueue ==> Parked(requests, a, self);
    }
    forall a | a in woken
      ensures a in after && !after[a].Passed()
    {
      if a in requests[self].waitQueue {
        assert Parked(requests, a, self);
      }
    }
  }

  // A woken coroutine is entered and stops waiting.
  function Wake(requests: Requests, self: Co): Requests
    requires self in requests
  {
    requests[self := requests[self].(waitingFor := None)]
  }

  lemma WakeOk(requests: Requests, wakeup: set<Co>, self: Co)
    requires QueuesOk(requests, wakeup) && Exclusive(requests) && self in wakeup
    ensures self in requests && !requests[self].Passed() && requests[self].waitQueue == {}
    ensures QueuesOk(Wake(requests, self), wakeup - {self}) && ExclusiveBut(Wake(requests, self), self)
  {
    assert forall a | a in requests[self].waitQueue :: Parked(requests, a, self);
    assert requests[self].waitQueue == {};
    var after, woken := Wake(requests, self), wakeup - {self};
    forall a | a in after && !after[a].Passed() && a !in woken
      ensures Parked(after, a, after[a].waitingFor.value)
    {
      assert Parked(requests, a, requests[a].waitingFor.value);
    }
    forall q, a | q in after && a in after[q].waitQueue
      ensures a in after && a !in woken && Parked(after, a, q)
    {
      assert a in requests[q].waitQueue;
      assert Parked(requests, a, q);
    }
  }

  // A new request, before its first wait; or the running request, marked before it.
  lemma EnterOk(requests: Requests, wakeup: set<Co>, self: Co, req: Request)
    requires QueuesOk(requests, wakeup) && Exclusive(requests) && self !in requests
    requires req.Passed() && req.waitQueue == {}
    ensures QueuesOk(requests[self := req], wakeup) && ExclusiveBut(requests[self := req], self)
  {
    var after := requests[self := req];
    forall a | a in after && !after[a].Passed() && a !in wakeup
      ensures Parked(after, a, after[a].waitingFor.value)
    {
      assert Parked(requests, a, requests[a].waitingFor.value);
    }
    forall q, a | q in after && a in after[q].waitQueue
      ensures a in after && a !in wakeup && Parked(after, a, q)
    {
      assert a in requests[q].waitQueue;
      assert Parked(requests, a, q);
    }
  }

  // Marking changes neither queues nor who is past its wait.
  lemma MarkKeepsQueues(requests: Requests, wakeup: set<Co>, self: Co, unit: nat)
    requires QueuesOk(requests, wakeup) && self in requests && unit > 0
    ensures QueuesOk(requests[self := Mark(requests[self], unit)], wakeup)
    ensures ExclusiveBut(requests, self) ==> ExclusiveBut(requests[self := Mark(requests[self], unit)], self)
  {
    hide Conflict;
    var after := requests[self := Mark(requests[self], unit)];
    assert after[self] == requests[self].(serialising := true, overlapOffset := after[self].overlapOffset,
                                          overlapBytes := after[self].overlapBytes);
    hide Mark;
    forall a | a in after && !after[a].Passed() && a !in wakeup
      ensures Parked(after, a, after[a].waitingFor.value)
    {
      assert Parked(requests, a, requests[a].waitingFor.value);
    }
    forall q, a | q in after && a in after[q].waitQueue
      ensures a in after && a !in wakeup && Parked(after, a, q)
    {
      assert a in requests[q].waitQueue;
      assert Parked(requests, a, q);
    }
  }
}
