/** Whole runs of a block device: requests arrive, driver calls complete in pieces and in any
    order, and each request is answered (block.c). */
module BlockRuns {
  import opened Arithmetic
  import opened TrackedRequests
  import opened BlockDevice

  /** What may happen next: a coroutine calls for a write or a read, a piece of a write reaches
      the disk, or a coroutine is entered or its driver call completes. */
  datatype Event =
    | Write(co: Co, offset: int, data: Data)
    | Read(co: Co, offset: int, bytes: nat, copyOnRead: bool, cluster: nat)
    | Piece(co: Co, part: Mask)
    | Enter(co: Co, ok: bool)
  {
    predicate Calls() {
      Write? || Read?
    }

    predicate InRange(size: nat)
      requires Calls()
    {
      var n := if Write? then |data| else bytes;
      0 <= offset && offset + n <= size && n <= INT_MAX
    }

    // The frame is that of this call.
    predicate Asks(f: Frame) {
      if f.Reads() then Read? && offset == f.start && bytes == f.length
      else Write? && offset == f.start && data == f.data
    }
  }

  // All writes that are asked for, each named by the event that asks for it.
  function Jobs(events: seq<Event>): map<nat, Job> {
    map n: nat | n < |events| && events[n].Write? && events[n].offset >= 0 :: Job(events[n].offset, events[n].data)
  }

  // ---- what the replies say ----

  /** What has happened: the calls not answered yet, and what has landed. */
  datatype Past = Past(open: map<Co, nat>, puts: seq<Put>)
  {
    function Next(n: nat, e: Event, r: Reply): Past {
      match r
      case Accepted => Past(open[e.co := n], puts)
      case Lands(part) => Past(open, Landing(e.co, part))
      case Done(part) => Past(open - {e.co}, Landing(e.co, part))
      case Got(_) => Past(open - {e.co}, puts)
      case Error => Past(open - {e.co}, puts)
      case _ => this
    }

    function Landing(co: Co, part: Mask): seq<Put> {
      if co in open then puts + [Put(open[co], part)] else puts
    }
  }

  function PastOf(events: seq<Event>, log: seq<Reply>): Past
    requires |log| <= |events|
    decreases |log|
  {
    if log == [] then Past(map[], [])
    else
      var n := |log| - 1;
      PastOf(events, log[..n]).Next(n, events[n], log[n])
  }

  lemma NextPast(events: seq<Event>, log: seq<Reply>, r: Reply)
    requires |log| < |events|
    ensures PastOf(events, log + [r]) == PastOf(events, log).Next(|log|, events[|log|], r)
  {
    assert (log + [r])[..|log|] == log;
  }

  // The coroutine has a write on the disk to do.
  ghost predicate Writer(size: nat, events: seq<Event>, past: Past, co: Co) {
    && co in past.open && past.open[co] < |events| && events[past.open[co]].Write?
    && events[past.open[co]].InRange(size)
  }

  /** A reply is true: a call is accepted if its range is on the disk, an error means that the
      driver failed, a write that is done has landed whole, and a read gets what has landed,
      in the order in which it did. */
  ghost predicate ReplyOk(disk: Data, events: seq<Event>, n: nat, past: Past, r: Reply)
    requires n < |events|
  {
    var e := events[n];
    match r
    case Refused => e.Calls() && !e.InRange(|disk|)
    case Accepted => e.Calls() && e.InRange(|disk|) && e.co !in past.open
    case Lands(_) => e.Piece? && Writer(|disk|, events, past, e.co)
    case Goes => e.Enter? && e.co in past.open
    case Done(part) =>
      && e.Enter? && e.ok && Writer(|disk|, events, past, e.co)
      && AllLanded([], past.Landing(e.co, part), past.open[e.co], |events[past.open[e.co]].data|)
    case Got(data) =>
      && e.Enter? && e.ok && e.co in past.open && past.open[e.co] < |events|
      && Writers(past.puts, Jobs(events), |disk|)
      && var call := events[past.open[e.co]];
         && call.Read? && call.InRange(|disk|)
         && data == Replay(disk, past.puts, Jobs(events))[call.offset..call.offset + call.bytes]
    case Error => e.Enter? && !e.ok && e.co in past.open
  }

  ghost predicate Told(disk: Data, events: seq<Event>, log: seq<Reply>)
    requires |log| <= |events|
  {
    forall n: nat | n < |log| :: ReplyOk(disk, events, n, PastOf(events, log[..n]), log[n])
  }

  lemma ToldNext(disk: Data, events: seq<Event>, log: seq<Reply>, r: Reply)
    requires |log| < |events| && Told(disk, events, log)
    requires ReplyOk(disk, events, |log|, PastOf(events, log), r)
    ensures Told(disk, events, log + [r])
  {
    hide ReplyOk, PastOf;
    var more := log + [r];
    forall n: nat | n < |more|
      ensures ReplyOk(disk, events, n, PastOf(events, more[..n]), more[n])
    {
      assert more[..n] == log[..n];
      assert log[..|log|] == log;
    }
  }

  // ---- a device and its past ----

  /** The requests are the calls not answered, and the disk is what landed makes of it. */
  ghost predicate Tracked(start: Data, events: seq<Event>, past: Past, frames: map<Co, Frame>,
                          landed: map<Co, Mask>, disk: Data)
  {
    && past.open.Keys == frames.Keys && (forall co | co in frames :: InFlight(|start|, events, past, co, frames[co]))
    && Writers(past.puts, Jobs(events), |start|) && disk == Replay(start, past.puts, Jobs(events))
    && forall co | co in frames && !frames[co].Reads() ::
         Accounted(LandedIn(landed, co), [], past.puts, past.open[co])
  }

  ghost predicate InFlight(size: nat, events: seq<Event>, past: Past, co: Co, f: Frame)
    requires co in past.open
  {
    && past.open[co] < |events| && events[past.open[co]].Calls() && events[past.open[co]].Asks(f)
    && events[past.open[co]].InRange(size)
  }

  lemma Opens(start: Data, events: seq<Event>, n: nat, past: Past, frames: map<Co, Frame>, landed: map<Co, Mask>,
              disk: Data, f: Frame, landed': map<Co, Mask>)
    requires Tracked(start, events, past, frames, landed, disk) && n < |events| && events[n].co !in frames
    requires events[n].Calls() && events[n].Asks(f) && events[n].InRange(|start|)
    requires landed' == (if f.Reads() then landed else landed - {events[n].co})
    ensures ReplyOk(start, events, n, past, Accepted)
    ensures Tracked(start, events, past.Next(n, events[n], Accepted), frames[events[n].co := f], landed', disk)
  {
    hide Accounted, Writers, Replay, Event.Asks, Event.InRange, Frame.Reads;
    assert Accounted([], [], past.puts, n) by { NothingLanded(past.puts, n); }
  }

  lemma NothingLanded(puts: seq<Put>, job: nat)
    ensures Accounted([], [], puts, job)
  {
  }

  // Nothing lands, and the request goes on or is answered.
  lemma Quiet(start: Data, events: seq<Event>, n: nat, past: Past, frames: map<Co, Frame>, landed: map<Co, Mask>,
              disk: Data, ok: bool, r: Reply, frames': map<Co, Frame>, landed': map<Co, Mask>, disk': Data)
    requires Tracked(start, events, past, frames, landed, disk) && n < |events| && events[n] == Enter(events[n].co, ok)
    requires events[n].co in frames && (r.Goes? || r.Got? || r.Error?)
    requires frames'.Keys == if r.Goes? then frames.Keys else frames.Keys - {events[n].co}
    requires forall co | co in frames' ::
               SameJob(frames'[co], frames[co]) && LandedIn(landed', co) == LandedIn(landed, co)
    requires Replied(frames[events[n].co], disk, disk', LandedIn(landed, events[n].co), ok, r)
    ensures ReplyOk(start, events, n, past, r)
    ensures Tracked(start, events, past.Next(n, events[n], r), frames', landed', disk')
  {
    hide Accounted, Writers, Replay, LandedIn;
    assert InFlight(|start|, events, past, events[n].co, frames[events[n].co]);
    var next := past.Next(n, events[n], r);
    assert next.puts == past.puts;
    forall co | co in frames'
      ensures InFlight(|start|, events, next, co, frames'[co])
    {
      assert InFlight(|start|, events, past, co, frames[co]);
    }
  }

  // Part of a write lands, the last part or another.
  lemma Puts(start: Data, events: seq<Event>, n: nat, past: Past, frames: map<Co, Frame>, landed: map<Co, Mask>,
             disk: Data, r: Reply, frames': map<Co, Frame>, landed': map<Co, Mask>, disk': Data)
    requires Tracked(start, events, past, frames, landed, disk) && n < |events| && events[n].co in frames
    requires if r.Done? then events[n] == Enter(events[n].co, true) else r.Lands? && events[n].Piece?
    requires frames'.Keys == if r.Done? then frames.Keys - {events[n].co} else frames.Keys
    requires forall co | co in frames' ::
               && SameJob(frames'[co], frames[co])
               && LandedIn(landed', co) == if co == events[n].co
                  then Either(LandedIn(landed, co), r.part, |frames[co].data|) else LandedIn(landed, co)
    requires Replied(frames[events[n].co], disk, disk', LandedIn(landed, events[n].co), true, r)
    ensures ReplyOk(start, events, n, past, r)
    ensures Tracked(start, events, past.Next(n, events[n], r), frames', landed', disk')
  {
    hide Accounted, Writers, Replay, LandedIn, AllLanded, Reached, Missing, Either, Landed;
    var self := events[n].co;
    var f, job := frames[self], past.open[self];
    assert InFlight(|start|, events, past, self, f);
    var next := past.Next(n, events[n], r);
    Appended(start, past.puts, Jobs(events), Put(job, r.part));
    MoreLanded(past.puts, job, r.part, LandedIn(landed, self), [], |f.data|);
    forall co | co in frames'
      ensures InFlight(|start|, events, next, co, frames'[co])
      ensures !frames'[co].Reads() ==> Accounted(LandedIn(landed', co), [], next.puts, next.open[co])
    {
      assert InFlight(|start|, events, past, co, frames[co]);
    }
  }

  // ---- runs ----

  predicate CanHappen(requests: Requests, wakeup: set<Co>, frames: map<Co, Frame>, e: Event) {
    match e
    case Write(co, _, _) => co !in requests
    case Read(co, _, _, _, cluster) => co !in requests && cluster > 0
    case Piece(co, _) => co in frames && frames[co].at.Writing?
    case Enter(co, _) => Runnable(requests, wakeup, co)
  }

  lemma TrackedSize(start: Data, events: seq<Event>, past: Past, frames: map<Co, Frame>, landed: map<Co, Mask>,
                    disk: Data)
    requires Tracked(start, events, past, frames, landed, disk)
    ensures |disk| == |start| && past.open.Keys == frames.Keys
  {
  }

  // A call is refused, or accepted and run up to its first yield.
  method Arrive(bs: BlockDriverState, ghost start: Data, events: seq<Event>, n: nat, ghost past: Past)
    returns (r: Reply)
    requires n < |events| && events[n].Calls()
    requires bs.View().Inv() && CanHappen(bs.requests, bs.wakeup, bs.frames, events[n])
    requires Tracked(start, events, past, bs.frames, bs.landed, bs.disk)
    modifies bs
    ensures bs.View().Inv() && ReplyOk(start, events, n, past, r)
    ensures Tracked(start, events, past.Next(n, events[n], r), bs.frames, bs.landed, bs.disk)
  {
    hide State.Inv, Tracked;
    ghost var frames, landed := bs.frames, bs.landed;
    InvListed(bs.View());
    TrackedSize(start, events, past, frames, landed, bs.disk);
    var e, status := events[n], EIO;
    if e.Write? {
      status := bs.Pwritev(e.co, e.offset, e.data);
    } else {
      status := bs.Preadv(e.co, e.offset, e.bytes, e.copyOnRead, e.cluster);
    }
    if status == EIO {
      return Refused;
    }
    Opens(start, events, n, past, frames, landed, bs.disk, bs.frames[e.co], bs.landed);
    return Accepted;
  }

  // A piece of a write lands, or a coroutine takes its turn.
  method Proceed(bs: BlockDriverState, ghost start: Data, events: seq<Event>, n: nat, ghost past: Past)
    returns (r: Reply)
    requires n < |events| && !events[n].Calls()
    requires bs.View().Inv() && CanHappen(bs.requests, bs.wakeup, bs.frames, events[n])
    requires Tracked(start, events, past, bs.frames, bs.landed, bs.disk)
    modifies bs
    ensures bs.View().Inv() && ReplyOk(start, events, n, past, r)
    ensures Tracked(start, events, past.Next(n, events[n], r), bs.frames, bs.landed, bs.disk)
  {
    hide State.Inv, Tracked, ReplyOk, SameJob, Landed, Either, Missing, Work;
    ghost var frames, landed, disk := bs.frames, bs.landed, bs.disk;
    InvListed(bs.View());
    var e := events[n];
    if e.Piece? {
      DriverPassed(bs.View(), e.co);
      r := bs.Act(e.co, true, e.part, true);
    } else {
      r := bs.Act(e.co, false, [], e.ok);
    }
    InvListed(bs.View());
    if r.Lands? || r.Done? {
      Puts(start, events, n, past, frames, landed, disk, r, bs.frames, bs.landed, bs.disk);
    } else {
      Quiet(start, events, n, past, frames, landed, disk, e.ok, r, bs.frames, bs.landed, bs.disk);
    }
  }

  /** Any run from a new device: whatever is asked for, whichever coroutine is entered next, and
      however the driver writes and fails. It ends early only if the next event cannot
      happen. Every reply is true, the calls not answered are the requests in flight, and
      the disk is what has landed, in the order in which it did. */
  method Serve(align: nat, start: Data, events: seq<Event>)
    returns (bs: BlockDriverState, end: nat, ghost log: seq<Reply>)
    requires align > 0 && Aligned(|start|, align)
    ensures fresh(bs) && bs.View().Inv() && |log| == end <= |events|
    ensures end < |events| ==> !CanHappen(bs.requests, bs.wakeup, bs.frames, events[end])
    ensures Told(start, events, log) && Tracked(start, events, PastOf(events, log), bs.frames, bs.landed, bs.disk)
  {
    hide State.Inv, Tracked, Told, ReplyOk, PastOf, CanHappen;
    bs := new BlockDriverState(align, start);
    log, end := [], 0;
    Begins(start, events);
    while end < |events|
      invariant end <= |events| && |log| == end && fresh(bs) && bs.View().Inv() && Told(start, events, log)
      invariant Tracked(start, events, PastOf(events, log), bs.frames, bs.landed, bs.disk)
    {
      if !CanHappen(bs.requests, bs.wakeup, bs.frames, events[end]) {
        return;
      }
      var r: Reply;
      if events[end].Calls() {
        r := Arrive(bs, start, events, end, PastOf(events, log));
      } else {
        r := Proceed(bs, start, events, end, PastOf(events, log));
      }
      ToldNext(start, events, log, r);
      NextPast(events, log, r);
      log, end := log + [r], end + 1;
    }
  }

  lemma Begins(start: Data, events: seq<Event>)
    ensures Told(start, events, []) && Tracked(start, events, PastOf(events, []), map[], map[], start)
  {
    NoPuts(start, Jobs(events));
  }

  // ---- what callers see ----

  // What has landed before lands before.
  lemma {:induction false} PutsGrow(events: seq<Event>, log: seq<Reply>, n: nat)
    requires n <= |log| <= |events|
    ensures PastOf(events, log[..n]).puts <= PastOf(events, log).puts
    decreases |log|
  {
    if n < |log| {
      PutsGrow(events, log[..|log| - 1], n);
      assert log[..|log| - 1][..n] == log[..n];
    } else {
      assert log[..n] == log;
    }
  }

  // Calls and puts are named by events before now.
  lemma {:induction false} NamedBefore(events: seq<Event>, log: seq<Reply>)
    requires |log| <= |events|
    ensures forall co | co in PastOf(events, log).open :: PastOf(events, log).open[co] < |log|
    ensures forall k | 0 <= k < |PastOf(events, log).puts| :: PastOf(events, log).puts[k].job < |log|
    decreases |log|
  {
    if log != [] {
      NamedBefore(events, log[..|log| - 1]);
    }
  }

  // All that lands belongs to a write that was accepted.
  lemma {:induction false} OnlyWriters(start: Data, events: seq<Event>, log: seq<Reply>)
    requires |log| <= |events| && Told(start, events, log)
    ensures Writers(PastOf(events, log).puts, Jobs(events), |start|)
    decreases |log|
  {
    if log != [] {
      var n := |log| - 1;
      assert forall k: nat | k < n :: log[..n][..k] == log[..k] && log[..n][k] == log[k];
      OnlyWriters(start, events, log[..n]);
      assert ReplyOk(start, events, n, PastOf(events, log[..n]), log[n]);
    }
  }

  // If one write alone lands on byte i from put `from` on, and does, the byte is its.
  lemma {:induction false} OwnByte(disk: Data, puts: seq<Put>, jobs: map<nat, Job>, from: nat, job: nat, i: nat,
                                   own: nat)
    requires Writers(puts, jobs, |disk|) && i < |disk| && from <= own < |puts| && puts[own].job == job
    requires job in jobs && puts[own] in puts && Covers(puts[own], jobs, i)
    requires forall k | from <= k < |puts| && puts[k].job != job :: puts[k].job in jobs && !Covers(puts[k], jobs, i)
    ensures Replay(disk, puts, jobs)[i] == jobs[job].data[i - jobs[job].start]
  {
    var n := |puts| - 1;
    assert puts[n] in puts && forall put | put in puts[..n] :: put in puts;
    if !Covers(puts[n], jobs, i) {
      assert puts[..n][own] == puts[own] && puts[own] in puts[..n];
      OwnByte(disk, puts[..n], jobs, from, job, i, own);
    }
  }

  // From the call of `job` on nothing but that write lands on byte i.
  ghost predicate OthersAway(events: seq<Event>, log: seq<Reply>, job: nat, i: nat)
    requires job < |log| <= |events|
  {
    forall k | |PastOf(events, log[..job]).puts| <= k < |PastOf(events, log).puts| ::
      var put := PastOf(events, log).puts[k];
      put.job != job ==> put.job in Jobs(events) && !Covers(put, Jobs(events), i)
  }

  // Reply n says that write `job` is done.
  ghost predicate DoneAt(events: seq<Event>, log: seq<Reply>, n: nat, job: nat)
    requires |log| <= |events|
  {
    && n < |log| && log[n].Done? && events[n].co in PastOf(events, log[..n]).open
    && job == PastOf(events, log[..n]).open[events[n].co]
  }

  // The puts by which a byte of a write that is done has landed.
  lemma DonePut(start: Data, events: seq<Event>, log: seq<Reply>, n: nat, job: nat, i: nat) returns (own: nat)
    requires |log| <= |events| && Told(start, events, log) && DoneAt(events, log, n, job)
    requires events[job].Write? && events[job].offset <= i < events[job].offset + |events[job].data|
    ensures job < n && job in Jobs(events) && i < |start|
    ensures var puts := PastOf(events, log).puts;
            |PastOf(events, log[..job]).puts| <= own < |puts| && puts[own].job == job &&
            Covers(puts[own], Jobs(events), i)
  {
    hide PastOf, Told;
    var before := PastOf(events, log[..n]);
    NamedBefore(events, log[..n]);
    assert ReplyOk(start, events, n, before, log[n]) by { TellsAt(start, events, log, n); }
    var landing := before.Landing(events[n].co, log[n].part);
    assert log[..n] + [log[n]] == log[..n + 1];
    NextPast(events, log[..n], log[n]);
    PutsGrow(events, log, n + 1);
    assert Reached(landing, job, i - events[job].offset);
    own :| 0 <= own < |landing| && landing[own].job == job && Has(landing[own].part, i - events[job].offset);
    NamedBefore(events, log[..job]);
    PutsGrow(events, log, job);
  }

  lemma TellsAt(start: Data, events: seq<Event>, log: seq<Reply>, n: nat)
    requires n < |log| <= |events| && Told(start, events, log)
    ensures ReplyOk(start, events, n, PastOf(events, log[..n]), log[n])
  {
  }

  /** A write that was answered with success stays: as long as no other write lands on a byte of it
      from its call on, the byte is on the disk. */
  lemma WrittenStays(start: Data, events: seq<Event>, log: seq<Reply>, n: nat, job: nat, i: nat)
    requires |log| <= |events| && Told(start, events, log) && DoneAt(events, log, n, job) && job < n
    requires events[job].Write? && events[job].offset <= i < events[job].offset + |events[job].data|
    requires OthersAway(events, log, job, i)
    ensures i < |start| && Writers(PastOf(events, log).puts, Jobs(events), |start|)
    ensures Replay(start, PastOf(events, log).puts, Jobs(events))[i] == events[job].data[i - events[job].offset]
  {
    hide PastOf, Told, Covers, Replay;
    var own := DonePut(start, events, log, n, job, i);
    OnlyWriters(start, events, log);
    OwnByte(start, PastOf(events, log).puts, Jobs(events), |PastOf(events, log[..job]).puts|, job, i, own);
  }

  /** So a read that is answered later sees the write. */
  lemma ReadSeesWrite(start: Data, events: seq<Event>, log: seq<Reply>, n: nat, job: nat, m: nat, i: nat)
    requires n < m < |log| <= |events| && Told(start, events, log) && DoneAt(events, log, n, job) && job < n
    requires events[job].Write? && events[job].offset <= i < events[job].offset + |events[job].data|
    requires OthersAway(events, log[..m], job, i) && log[m].Got?
    ensures var open := PastOf(events, log[..m]).open;
            && events[m].co in open && open[events[m].co] < m
            && var call := events[open[events[m].co]];
               && call.Read? && |log[m].data| == call.bytes
               && (call.offset <= i < call.offset + call.bytes ==>
                   log[m].data[i - call.offset] == events[job].data[i - events[job].offset])
  {
    hide PastOf, Told, Replay, OthersAway;
    TellsAt(start, events, log, m);
    NamedBefore(events, log[..m]);
    assert Told(start, events, log[..m]) by { ToldBefore(start, events, log, m); }
    assert log[..m][..n] == log[..n];
    WrittenStays(start, events, log[..m], n, job, i);
  }

  lemma ToldBefore(start: Data, events: seq<Event>, log: seq<Reply>, m: nat)
    requires m <= |log| <= |events| && Told(start, events, log)
    ensures Told(start, events, log[..m])
  {
    hide PastOf, ReplyOk;
    assert forall n: nat | n < m :: log[..m][..n] == log[..n];
  }
}
