/** Reads and writes of any bytes on a device that transfers aligned blocks (block.c).
    A coroutine runs without interruption from one yield to the next: it yields in
    qemu_co_queue_wait and in the calls to the block driver. Each method below is such
    a stretch of code, or a part of one. */
module BlockDevice {
  import opened Arithmetic
  import opened Options
  import opened TrackedRequests

  type Data = seq<bv8>

  const INT_MAX: nat := 0x7fff_ffff

  datatype Status = Started | EIO

  /** What comes of a call, of a driver call that completes, or of a coroutine that is entered: the
      request is refused or accepted, part of a write lands, the request goes on, or it
      ends, as a write whose missing part lands at last, as a read, or with an error. */
  datatype Reply = Refused | Accepted | Lands(part: Mask) | Goes | Done(part: Mask) | Got(data: Data) | Error

  // Where a coroutine stands: before its first wait, in a wait, or in a driver call.
  datatype Pc = Start | HeadWait | HeadRead | TailWait | TailRead | WriteWait | Writing | ReadWait | Reading

  /** The locals of bdrv_co_do_pwritev and bdrv_co_do_preadv: the range the caller asked
      for, the caller's vector, and the blocks read around it. */
  datatype Frame = Frame(at: Pc, waited: bool, start: nat, length: nat, data: Data, head: Option<Data>,
                         tail: Option<Data>)
  {
    function End(): nat {
      start + length
    }

    predicate Waits() {
      at.HeadWait? || at.TailWait? || at.WriteWait? || at.ReadWait?
    }

    predicate Reads() {
      at.ReadWait? || at.Reading?
    }

    predicate InDriver() {
      at.HeadRead? || at.TailRead? || at.Writing? || at.Reading?
    }

    // The first wait on the way of this request.
    predicate FirstWait(align: nat)
      requires align > 0
    {
      match at
      case HeadWait => true
      case ReadWait => true
      case TailWait => Aligned(start, align)
      case WriteWait => Aligned(start, align) && Aligned(End(), align)
      case _ => false
    }

    // Driver calls and waits still to come.
    function Rank(): nat {
      match at
      case Start => 7
      case HeadWait => 6
      case HeadRead => 5
      case TailWait => 4
      case TailRead => 3
      case WriteWait => 2
      case Writing => 1
      case ReadWait => 2
      case Reading => 1
    }

    /** local_qiov: the caller's vector between the kept parts of the blocks around it. */
    function Vector(align: nat): Data
      requires align > 0
      requires head.Some? ==> start - Down(start, align) <= |head.value|
      requires tail.Some? ==> 0 <= End() - Down(End(), align) <= |tail.value|
    {
      (if head.Some? then DownFacts(start, align); head.value[..start - Down(start, align)] else []) +
      data +
      (if tail.Some? then tail.value[End() - Down(End(), align)..] else [])
    }
  }

  // A range of the disk stays a range of the disk when it is rounded to blocks.
  lemma Rounded(start: nat, end: nat, size: nat, align: nat)
    requires align > 0 && Aligned(size, align) && start <= end <= size
    ensures Down(start, align) <= start <= end <= Up(end, align) <= size
    ensures !Aligned(start, align) ==> Down(start, align) + align <= Up(end, align)
    ensures !Aligned(end, align) ==>
              Down(start, align) <= Down(end, align) <= end && Down(end, align) + align == Up(end, align)
  {
    hide Down;
    DownFacts(start, align);
    DownFacts(end, align);
    UpFacts(start, align);
    UpFacts(end, align);
    UpFacts(size, align);
    DownMonotone(start, end, align);
    DownMonotone(start + align - 1, end + align - 1, align);
    DownMonotone(end + align - 1, size + align - 1, align);
  }

  // A frame and the request it tracks.
  ghost predicate FrameOk(f: Frame, req: Request, align: nat, size: nat) {
    && align > 0 && Aligned(size, align) && f.End() <= size
    && (req.isWrite <==> !f.Reads())
    && (req.isWrite ==>
          && req.offset == f.start && req.bytes == f.length == |f.data| && Spans(req, align)
          && (req.serialising <==> !Aligned(f.start, align) || !Aligned(f.End(), align)))
    && (!req.isWrite ==>
          && f.head.None? && f.tail.None?
          && req.overlapOffset <= Down(f.start, align) && Up(f.End(), align) <= req.OverlapEnd())
    && (f.head.Some? ==> !Aligned(f.start, align)) && (f.tail.Some? ==> !Aligned(f.End(), align))
    && (f.at.HeadWait? || f.at.HeadRead? ==> !Aligned(f.start, align) && f.head.None?)
    && (f.at.TailWait? || f.at.TailRead? ==> !Aligned(f.End(), align))
    && (f.at.HeadWait? || f.at.HeadRead? || f.at.TailWait? || f.at.TailRead? ==> f.tail.None?)
    && (f.at.TailWait? || f.at.TailRead? || f.at.WriteWait? || f.at.Writing? ==>
       (f.head.Some? <==> !Aligned(f.start, align)))
    && (f.at.WriteWait? || f.at.Writing? ==> (f.tail.Some? <==> !Aligned(f.End(), align)))
  }

  /** The parts kept of the blocks read for a write are still what the disk holds. */
  ghost predicate BuffersOk(f: Frame, disk: Data, align: nat) {
    && align > 0
    && (f.head.Some? ==> HeadKept(f.head.value, f.start, disk, align)) &&
        (f.tail.Some? ==> TailKept(f.tail.value, f.End(), disk, align))
  }

  // The bytes before `start` in its block.
  ghost predicate HeadKept(block: Data, start: nat, disk: Data, align: nat)
    requires align > 0
  {
    var d := Down(start, align);
    d <= start <= d + align <= |disk| && |block| == align && block[..start - d] == disk[d..start]
  }

  // The bytes from `end` on in its block.
  ghost predicate TailKept(block: Data, end: nat, disk: Data, align: nat)
    requires align > 0
  {
    var d := Down(end, align);
    d <= end <= d + align <= |disk| && |block| == align && block[end - d..] == disk[end..d + align]
  }

  // ---- what reaches the disk ----

  // Which bytes of a vector; what lies beyond the end of the mask is not meant.
  type Mask = seq<bool>

  predicate Has(mask: Mask, k: int) {
    0 <= k < |mask| && mask[k]
  }

  // The n bytes from k on, counted from k.
  function Shift(mask: Mask, k: nat, n: nat): (r: Mask)
    ensures |r| == n && forall j | 0 <= j < n :: r[j] <==> Has(mask, j + k)
  {
    seq(n, j requires 0 <= j < n => Has(mask, j + k))
  }

  function Either(a: Mask, b: Mask, n: nat): (r: Mask)
    ensures |r| == n && forall j | 0 <= j < n :: r[j] <==> Has(a, j) || Has(b, j)
  {
    seq(n, j requires 0 <= j < n => Has(a, j) || Has(b, j))
  }

  // The bytes of a vector of n that are not in the mask.
  function Missing(mask: Mask, n: nat): (r: Mask)
    ensures |r| == n && forall j | 0 <= j < n :: r[j] <==> !Has(mask, j)
  {
    seq(n, j requires 0 <= j < n => !Has(mask, j))
  }

  // The bytes of a padded vector of m whose n bytes from k on are the caller's.
  function PaddedMissing(mask: Mask, k: nat, n: nat, m: nat): (r: Mask)
    requires k + n <= m
    ensures Shift(r, k, n) == Missing(mask, n)
  {
    seq(m, p requires 0 <= p < m => !(k <= p < k + n && Has(mask, p - k)))
  }

  /** The disk after the bytes of `data` in the mask have been written at `at`, and nothing else. */
  function Landed(disk: Data, at: nat, data: Data, mask: Mask): (r: Data)
    requires at + |data| <= |disk|
    ensures |r| == |disk|
    ensures forall i | 0 <= i < |disk| ::
              r[i] == if at <= i < at + |data| && Has(mask, i - at) then data[i - at] else disk[i]
  {
    seq(|disk|, i requires 0 <= i < |disk| =>
      if at <= i < at + |data| && Has(mask, i - at) then data[i - at] else disk[i])
  }

  // Two disks that differ in the bytes [at, at + n) only.
  ghost predicate Differ(disk: Data, disk': Data, at: nat, n: nat) {
    |disk'| == |disk| && forall i | 0 <= i < |disk| && !(at <= i < at + n) :: disk'[i] == disk[i]
  }

  lemma NothingLands(disk: Data, at: nat, data: Data)
    requires at + |data| <= |disk|
    ensures Landed(disk, at, data, []) == disk
  {
  }

  lemma LandedDiffers(disk: Data, at: nat, data: Data, part: Mask)
    requires at + |data| <= |disk|
    ensures Differ(disk, Landed(disk, at, data, part), at, |data|)
  {
  }

  lemma SliceOfSlice(disk: Data, lo: nat, hi: nat, a: nat, b: nat)
    requires lo <= a <= b <= hi <= |disk|
    ensures disk[lo..hi][a - lo..b - lo] == disk[a..b]
    ensures a == lo ==> disk[lo..hi][..b - lo] == disk[a..b]
    ensures b == hi ==> disk[lo..hi][a - lo..] == disk[a..b]
  {
    assert forall k | 0 <= k < b - a :: disk[lo..hi][a - lo..b - lo][k] == disk[a..b][k];
  }

  lemma HeadBlock(start: nat, disk: Data, align: nat)
    requires align > 0 && Down(start, align) + align <= |disk|
    ensures HeadKept(disk[Down(start, align)..Down(start, align) + align], start, disk, align)
  {
    hide Down;
    DownFacts(start, align);
    SliceOfSlice(disk, Down(start, align), Down(start, align) + align, Down(start, align), start);
  }

  lemma TailBlock(end: nat, disk: Data, align: nat)
    requires align > 0 && Down(end, align) + align <= |disk|
    ensures TailKept(disk[Down(end, align)..Down(end, align) + align], end, disk, align)
  {
    hide Down;
    DownFacts(end, align);
    SliceOfSlice(disk, Down(end, align), Down(end, align) + align, end, Down(end, align) + align);
  }

  // Padding a write with what the disk already holds changes nothing more.
  lemma LandedPadded(disk: Data, d: nat, start: nat, data: Data, u: nat, vector: Data, part: Mask)
    requires d <= start && start + |data| <= u <= |disk| && vector == disk[d..start] + data + disk[start + |data|..u]
    ensures d + |vector| == u
    ensures Landed(disk, d, vector, part) == Landed(disk, start, data, Shift(part, start - d, |data|))
  {
  }

  /** Whatever part of the padded vector reaches the rounded range, only bytes that were asked
      for change, also when both ends lie in one block. */
  lemma PaddedWrite(f: Frame, req: Request, disk: Data, align: nat, part: Mask)
    requires FrameOk(f, req, align, |disk|) && BuffersOk(f, disk, align) && f.at.Writing?
    ensures f.head.Some? ==> |f.head.value| == align
    ensures f.tail.Some? ==> |f.tail.value| == align
    ensures var d := Down(f.start, align);
            0 <= f.start - d <= align && 0 <= f.End() - Down(f.End(), align) <= align &&
            d + |f.Vector(align)| == Up(f.End(), align) <= |disk| &&
            Landed(disk, d, f.Vector(align), part) == Landed(disk, f.start, f.data, Shift(part, f.start - d, |f.data|))
  {
    hide Down, Up, Spans, Landed, Shift;
    DownFacts(f.start, align);
    DownFacts(f.End(), align);
    UpFacts(f.End(), align);
    Rounded(f.start, f.End(), |disk|, align);
    var d, u := Down(f.start, align), Up(f.End(), align);
    assert f.Vector(align) == disk[d..f.start] + f.data + disk[f.End()..u];
    LandedPadded(disk, d, f.start, f.data, u, f.Vector(align), part);
  }

  lemma SliceKept(disk: Data, disk': Data, at: nat, n: nat, lo: nat, hi: nat)
    requires Differ(disk, disk', at, n) && lo <= hi <= |disk| && (hi <= at || at + n <= lo)
    ensures disk'[lo..hi] == disk[lo..hi]
  {
  }

  /** A write elsewhere leaves what is kept of the blocks read for another write as it was. */
  lemma BuffersKept(f: Frame, req: Request, disk: Data, disk': Data, align: nat, w: Frame, wreq: Request)
    requires FrameOk(f, req, align, |disk|) && BuffersOk(f, disk, align)
    requires FrameOk(w, wreq, align, |disk|) && wreq.isWrite && Differ(disk, disk', w.start, |w.data|)
    requires !Conflict(req, wreq)
    ensures BuffersOk(f, disk', align)
  {
    Rounded(f.start, f.End(), |disk|, align);
    Rounded(w.start, w.End(), |disk|, align);
    hide Down, Up, Differ;
    if f.head.Some? {
      SliceKept(disk, disk', w.start, |w.data|, Down(f.start, align), f.start);
      assert |disk'| == |disk| by { SameSize(disk, disk', w.start, |w.data|); }
    }
    if f.tail.Some? {
      SliceKept(disk, disk', w.start, |w.data|, f.End(), Down(f.End(), align) + align);
      assert |disk'| == |disk| by { SameSize(disk, disk', w.start, |w.data|); }
    }
  }

  // So does a write for its own blocks.
  lemma OwnBuffersKept(f: Frame, req: Request, disk: Data, disk': Data, align: nat)
    requires FrameOk(f, req, align, |disk|) && BuffersOk(f, disk, align) && Differ(disk, disk', f.start, f.length)
    ensures BuffersOk(f, disk', align)
  {
    hide Down, Up, Differ;
    if f.head.Some? {
      SliceKept(disk, disk', f.start, f.length, Down(f.start, align), f.start);
      assert |disk'| == |disk| by { SameSize(disk, disk', f.start, f.length); }
    }
    if f.tail.Some? {
      SliceKept(disk, disk', f.start, f.length, f.End(), Down(f.End(), align) + align);
      assert |disk'| == |disk| by { SameSize(disk, disk', f.start, f.length); }
    }
  }

  lemma SameSize(disk: Data, disk': Data, at: nat, n: nat)
    requires Differ(disk, disk', at, n)
    ensures |disk'| == |disk|
  {
  }

  function Serialising(requests: Requests): set<Co> {
    set co | co in requests && requests[co].serialising
  }

  lemma SameSerialising(requests: Requests, requests': Requests)
    requires requests'.Keys == requests.Keys && forall co | co in requests ::
               requests'[co].serialising == requests[co].serialising
    ensures Serialising(requests') == Serialising(requests)
  {
  }

  lemma SerialisingMark(requests: Requests, self: Co, unit: nat)
    requires self in requests && unit > 0
    ensures |Serialising(requests[self := Mark(requests[self], unit)])| ==
            |Serialising(requests)| + if requests[self].serialising then 0 else 1
  {
    assert Serialising(requests[self := Mark(requests[self], unit)]) == Serialising(requests) + {self};
    assert requests[self].serialising ==> Serialising(requests) + {self} == Serialising(requests);
  }

  lemma SerialisingEnd(requests: Requests, self: Co)
    requires self in requests
    ensures |Serialising(End(requests, self))| == |Serialising(requests)| - if requests[self].serialising then 1 else 0
  {
    assert Serialising(End(requests, self)) == Serialising(requests) - {self};
  }

  lemma SameSerialisingBut(requests: Requests, requests': Requests, self: Co)
    requires self !in requests && self in requests' && !requests'[self].serialising &&
             requests' == requests[self := requests'[self]]
    ensures Serialising(requests') == Serialising(requests)
  {
  }

  ghost predicate Distinct(order: seq<Co>) {
    forall i, j | 0 <= i < j < |order| :: order[i] != order[j]
  }

  lemma Removed(order: seq<Co>, i: nat)
    requires Distinct(order) && i < |order|
    ensures Distinct(order[..i] + order[i + 1..])
    ensures forall co :: co in order[..i] + order[i + 1..] <==> co in order && co != order[i]
  {
    var rest := order[..i] + order[i + 1..];
    assert forall k | 0 <= k < |rest| :: rest[k] == order[if k < i then k else k + 1];
    forall co | co in order && co != order[i]
      ensures co in rest
    {
      var k :| 0 <= k < |order| && order[k] == co;
      assert rest[if k < i then k else k - 1] == co;
    }
  }

  // What all requests together still have to do.
  function Work(order: seq<Co>, frames: map<Co, Frame>): nat
    requires forall co | co in order :: co in frames
  {
    if order == [] then 0 else frames[order[0]].Rank() + Work(order[1..], frames)
  }

  lemma {:induction false} WorkOther(order: seq<Co>, frames: map<Co, Frame>, frames': map<Co, Frame>)
    requires forall co | co in order :: co in frames && co in frames' && frames[co] == frames'[co]
    ensures Work(order, frames) == Work(order, frames')
  {
    if order != [] {
      WorkOther(order[1..], frames, frames');
    }
  }

  // Work splits around one request.
  lemma {:induction false} WorkAt(order: seq<Co>, frames: map<Co, Frame>, i: nat)
    requires i < |order| && forall co | co in order :: co in frames
    ensures Work(order, frames) == frames[order[i]].Rank() + Work(order[..i] + order[i + 1..], frames)
  {
    if i == 0 {
      assert order[..0] + order[1..] == order[1..];
    } else {
      WorkAt(order[1..], frames, i - 1);
      assert order[1..][..i - 1] + order[1..][i..] == (order[..i] + order[i + 1..])[1..];
      assert order[1..][i - 1 + 1..] == order[1..][i..];
    }
  }

  lemma WorkStep(order: seq<Co>, frames: map<Co, Frame>, co: Co, f: Frame)
    requires Distinct(order) && co in order && forall c | c in order :: c in frames
    ensures Work(order, frames[co := f]) - f.Rank() == Work(order, frames) - frames[co].Rank()
  {
    var i :| 0 <= i < |order| && order[i] == co;
    WorkAt(order, frames, i);
    WorkAt(order, frames[co := f], i);
    WorkOther(order[..i] + order[i + 1..], frames, frames[co := f]);
  }

  // What has landed of the write of a coroutine.
  function LandedIn(landed: map<Co, Mask>, co: Co): Mask {
    if co in landed then landed[co] else []
  }

  // ---- all coroutines together ----

  // A coroutine at a yield: past its waits and in the driver, or in its first wait.
  ghost predicate CoOk(f: Frame, req: Request, disk: Data, align: nat) {
    && FrameOk(f, req, align, |disk|) && BuffersOk(f, disk, align)
    && (if req.Passed() then f.InDriver() else f.FirstWait(align))
  }

  // Queues are no part of what a frame relies on.
  lemma QueuesAside(f: Frame, req: Request, req': Request, disk: Data, align: nat)
    requires req' == req.(waitQueue := req'.waitQueue)
    ensures CoOk(f, req, disk, align) <==> CoOk(f, req', disk, align)
  {
  }

  /** The fields of a device, as one value. */
  datatype State = State(
    align: nat, disk: Data, requests: Requests, order: seq<Co>, serialisingInFlight: int, wakeup: set<Co>,
    frames: map<Co, Frame>)
  {
    ghost predicate Listed() {
      && Distinct(order) && (forall co :: co in order <==> co in requests) && frames.Keys == requests.Keys
      && serialisingInFlight == |Serialising(requests)|
    }

    ghost predicate Shape() {
      align > 0 && Aligned(|disk|, align) && Listed() && QueuesOk(requests, wakeup)
    }

    ghost predicate RestOk(self: Co) {
      forall co | co in requests && co != self :: co in frames && CoOk(frames[co], requests[co], disk, align)
    }

    // Every coroutine is at a yield.
    ghost predicate Inv() {
      && Shape() && Exclusive(requests)
      && forall co | co in requests :: co in frames && CoOk(frames[co], requests[co], disk, align)
    }

    // The coroutine `self` runs and is about to wait, and all others are at a yield.
    ghost predicate Running(self: Co) {
      && Shape() && RestOk(self)
      && self in requests && self in frames && requests[self].Passed()
      && FrameOk(frames[self], requests[self], align, |disk|) && BuffersOk(frames[self], disk, align) &&
         frames[self].Waits()
      && (if frames[self].FirstWait(align) then ExclusiveBut(requests, self) && requests[self].waitQueue == {}
          else Exclusive(requests) && !frames[self].waited)
    }

    // The coroutine `self` writes, and has dealt with the head.
    ghost predicate HeadDone(self: Co) {
      && Shape() && RestOk(self) && self in requests && self in frames && requests[self].Passed() &&
         requests[self].isWrite
      && var f := frames[self];
         && f.End() <= |disk| && requests[self].offset == f.start && requests[self].bytes == f.length == |f.data| &&
            f.tail.None?
         && (f.head.Some? <==> !Aligned(f.start, align)) && BuffersOk(f, disk, align)
         && (if f.head.Some? then Exclusive(requests) && Spans(requests[self], align) && requests[self].serialising
             else ExclusiveBut(requests, self) && requests[self] == Begin(f.start, f.length, true))
    }

    ghost predicate Free(self: Co) {
      self in requests && forall q | q in requests :: !Blocks(requests, self, q)
    }

    function Moved(self: Co, at: Pc): State
      requires self in frames
    {
      this.(frames := frames[self := frames[self].(at := at)])
    }

    function Ended(self: Co, i: nat): State
      requires self in requests && i < |order|
    {
      this.(requests := End(requests, self), order := order[..i] + order[i + 1..], frames := frames - {self},
            serialisingInFlight := serialisingInFlight - (if requests[self].serialising then 1 else 0),
            wakeup := wakeup + requests[self].waitQueue)
    }

    function Parked(self: Co, q: Co): State
      requires self in requests && q in requests && self in frames
    {
      this.(requests := Park(requests, self, q), frames := frames[self := frames[self].(waited := true)])
    }
  }

  // Where a wait leads when it does not block.
  function Next(at: Pc): Pc {
    match at
    case HeadWait => HeadRead
    case TailWait => TailRead
    case WriteWait => Writing
    case ReadWait => Reading
    case _ => at
  }

  // Only a first wait blocks.
  lemma FirstBlocks(s: State, self: Co, q: Co)
    requires s.Running(self) && Blocks(s.requests, self, q)
    ensures s.frames[self].FirstWait(s.align) && ExclusiveBut(s.requests, self) && s.requests[self].waitQueue == {}
  {
    hide FrameOk, BuffersOk, CoOk, QueuesOk, Serialising, Aligned, Conflict;
    if !s.frames[self].FirstWait(s.align) {
      NeverBlocksAgain(s.requests, self, q);
    }
  }

  lemma Yields(s: State, self: Co, q: Co)
    requires s.Running(self) && Blocks(s.requests, self, q)
    ensures s.Parked(self, q).Inv()
  {
    hide FrameOk, BuffersOk, Exclusive, ExclusiveBut, QueuesOk, Conflict, Aligned, Frame.FirstWait, Serialising,
         Distinct, CoOk;
    FirstBlocks(s, self, q);
    var after := s.Parked(self, q);
    ParkOk(s.requests, s.wakeup, self, q);
    ParkExclusive(s.requests, self, q);
    SameSerialising(s.requests, after.requests);
    forall co | co in after.requests
      ensures CoOk(after.frames[co], after.requests[co], s.disk, s.align)
    {
      if co == self {
        SelfParks(s.frames[self], s.requests[self], after.requests[self], s.disk, s.align);
      } else {
        QueuesAside(s.frames[co], s.requests[co], after.requests[co], s.disk, s.align);
      }
    }
  }

  lemma SelfParks(f: Frame, req: Request, req': Request, disk: Data, align: nat)
    requires FrameOk(f, req, align, |disk|) && BuffersOk(f, disk, align) && f.FirstWait(align)
    requires req' == req.(waitingFor := req'.waitingFor) && !req'.Passed()
    ensures CoOk(f.(waited := true), req', disk, align)
  {
  }

  /** Past its wait a request has its region to itself. What the code asserts after
      its waits holds: only a first wait can have blocked. */
  lemma Passes(s: State, self: Co)
    requires s.Running(self) && s.Free(self)
    ensures s.Moved(self, Next(s.frames[self].at)).Inv()
    ensures s.frames[self].waited ==> s.frames[self].FirstWait(s.align)
    ensures Exclusive(s.requests)
  {
    if s.frames[self].FirstWait(s.align) {
      PassedExclusive(s.requests, self);
    }
    SelfPasses(s.frames[self], s.requests[self], s.disk, s.align);
    hide FrameOk, BuffersOk, Exclusive, ExclusiveBut, QueuesOk, Conflict, Aligned, Frame.FirstWait;
  }

  // What the code asserts after the waits of a write.
  lemma Asserted(f: Frame, req: Request, align: nat, size: nat)
    requires FrameOk(f, req, align, size) && (f.waited ==> f.FirstWait(align))
    ensures f.at.TailWait? ==> !f.waited || f.head.None?
    ensures f.at.WriteWait? ==> !f.waited || !req.serialising
    ensures f.at.WriteWait? ==> req.overlapOffset == Down(f.start, align) && req.OverlapEnd() == Up(f.End(), align)
  {
  }

  lemma SelfPasses(f: Frame, req: Request, disk: Data, align: nat)
    requires FrameOk(f, req, align, |disk|) && BuffersOk(f, disk, align) && f.Waits() && req.Passed()
    ensures CoOk(f.(at := Next(f.at)), req, disk, align)
  {
  }

  lemma Ends(s: State, self: Co, i: nat)
    requires s.Shape() && Exclusive(s.requests) && s.RestOk(self)
    requires i < |s.order| && s.order[i] == self && self in s.requests && s.requests[self].Passed()
    ensures s.Ended(self, i).Inv()
  {
    hide FrameOk, BuffersOk, CoOk, Conflict, Aligned, QueuesOk, Exclusive, Serialising, Distinct;
    EndOk(s.requests, s.wakeup, self);
    SerialisingEnd(s.requests, self);
    Removed(s.order, i);
    var after := s.Ended(self, i);
    assert after.frames.Keys == after.requests.Keys;
    assert forall co | co in after.requests :: after.requests[co] == s.requests[co] && after.frames[co] == s.frames[co];
  }

  lemma EndWork(s: State, self: Co, i: nat)
    requires s.Listed() && i < |s.order| && s.order[i] == self
    ensures var after := s.Ended(self, i);
            (forall co | co in after.order :: co in after.frames) &&
             Work(after.order, after.frames) + s.frames[self].Rank() == Work(s.order, s.frames)
  {
    hide Distinct, Serialising;
    var after := s.Ended(self, i);
    Removed(s.order, i);
    WorkAt(s.order, s.frames, i);
    WorkOther(after.order, s.frames, after.frames);
  }

  lemma FirstMark(start: nat, length: nat, align: nat)
    requires align > 0
    ensures var req := Mark(Begin(start, length, true), align);
            Spans(req, align) && req.serialising && req == Begin(start, length, true).(
              serialising := true, overlapOffset := req.overlapOffset, overlapBytes := req.overlapBytes)
  {
    MarkSpans(Begin(start, length, true), align);
  }

  // At the tail the request is marked for the first time, or again with no effect, or not at all.
  lemma TailMark(f: Frame, req: Request, align: nat)
    requires align > 0 && req.isWrite && req.offset == f.start && req.bytes == f.length &&
             (f.head.Some? <==> !Aligned(f.start, align))
    requires if f.head.Some? then Spans(req, align) && req.serialising else req == Begin(f.start, f.length, true)
    ensures f.head.Some? ==> Mark(req, align) == req
    ensures f.head.None? ==> var m := Mark(req, align);
                             Spans(m, align) && m == req.(serialising := true, overlapOffset := m.overlapOffset,
                                                          overlapBytes := m.overlapBytes)
    ensures Aligned(f.End(), align) ==> Spans(req, align)
  {
    MarkSpans(req, align);
    UpFacts(f.End(), align);
  }

  // Two frames of one call.
  predicate SameJob(f: Frame, f': Frame) {
    f.start == f'.start && f.length == f'.length && f.data == f'.data && f.Reads() == f'.Reads()
  }

  lemma HeadInBounds(f: Frame, req: Request, disk: Data, align: nat)
    requires FrameOk(f, req, align, |disk|) && f.at.HeadRead?
    ensures Down(f.start, align) + align <= |disk| && !Aligned(f.start, align)
  {
    Rounded(f.start, f.End(), |disk|, align);
  }

  lemma TailInBounds(f: Frame, req: Request, disk: Data, align: nat)
    requires FrameOk(f, req, align, |disk|) && f.at.TailRead?
    ensures Down(f.End(), align) + align <= |disk| && !Aligned(f.End(), align)
  {
    Rounded(f.start, f.End(), |disk|, align);
  }

  // A request with an unaligned start is marked before its first wait.
  lemma HeadRuns(s: State, self: Co)
    requires s.Shape() && s.RestOk(self) && ExclusiveBut(s.requests, self) && self in s.frames && self in s.requests
    requires var f := s.frames[self];
             f.at.Start? && f.End() <= |s.disk| && |f.data| == f.length && f.head.None? && f.tail.None? &&
                 !Aligned(f.start, s.align) &&
             s.requests[self] == Mark(Begin(f.start, f.length, true), s.align)
    ensures s.Moved(self, HeadWait).Running(self)
  {
    hide Exclusive, ExclusiveBut, QueuesOk, CoOk, Serialising, Distinct, Spans, Mark, Down, Up;
    FirstMark(s.frames[self].start, s.frames[self].length, s.align);
  }

  // The range of a read, rounded as the code does it.
  lemma ReadPad(start: nat, length: nat, align: nat)
    requires align > 0
    ensures Down(start, align) <= start && Down(start, align) + length + (start - Down(start, align)) == start + length
    ensures !Aligned(start + length, align) ==>
            Down(start, align) + Up(length + (start - Down(start, align)), align) == Up(start + length, align)
    ensures Aligned(start + length, align) ==> Up(start + length, align) == start + length
    ensures Aligned(start, align) ==> Down(start, align) == start
  {
    DownFacts(start, align);
    UpFacts(start + length, align);
    UpShift(Down(start, align), length + (start - Down(start, align)), align);
  }

  lemma MarkCovers(req: Request, unit: nat)
    requires unit > 0
    ensures var m := Mark(req, unit);
            m == req.(serialising := true, overlapOffset := m.overlapOffset, overlapBytes := m.overlapBytes) &&
            m.overlapOffset <= req.overlapOffset &&
                (req == Begin(req.offset, req.bytes, req.isWrite) ==> req.OverlapEnd() <= m.OverlapEnd())
  {
    DownFacts(req.offset, unit);
    UpFacts(req.offset + req.bytes, unit);
  }

  lemma ReadRuns(s: State, self: Co)
    requires s.Shape() && s.RestOk(self) && ExclusiveBut(s.requests, self) && self in s.frames && self in s.requests
    requires var f, req := s.frames[self], s.requests[self];
             f.at.ReadWait? && f.End() <= |s.disk| && f.head.None? && f.tail.None? && !req.isWrite && req.Passed() &&
                 req.waitQueue == {} &&
             req.overlapOffset <= Down(f.start, s.align) && Up(f.End(), s.align) <= req.OverlapEnd()
    ensures s.Running(self)
  {
  }

  function Loaded(f: Frame, disk: Data, align: nat): Frame
    requires align > 0 && (f.at.HeadRead? ==> Down(f.start, align) + align <= |disk|) &&
             (!f.at.HeadRead? ==> Down(f.End(), align) + align <= |disk|)
  {
    if f.at.HeadRead? then f.(head := Some(disk[Down(f.start, align)..Down(f.start, align) + align]))
    else f.(tail := Some(disk[Down(f.End(), align)..Down(f.End(), align) + align]), at := WriteWait, waited := false)
  }

  lemma HeadLoaded(s: State, self: Co)
    requires s.Inv() && self in s.frames && s.frames[self].at.HeadRead?
    ensures s.align > 0 && Down(s.frames[self].start, s.align) + s.align <= |s.disk|
    ensures s.(frames := s.frames[self := Loaded(s.frames[self], s.disk, s.align)]).HeadDone(self)
  {
    hide Conflict, QueuesOk, Exclusive, Down, Up, Spans, Serialising, Distinct;
    HeadInBounds(s.frames[self], s.requests[self], s.disk, s.align);
    HeadBlock(s.frames[self].start, s.disk, s.align);
  }

  lemma TailLoaded(s: State, self: Co)
    requires s.Inv() && self in s.frames && s.frames[self].at.TailRead?
    ensures s.align > 0 && Down(s.frames[self].End(), s.align) + s.align <= |s.disk|
    ensures s.(frames := s.frames[self := Loaded(s.frames[self], s.disk, s.align)]).Running(self)
  {
    hide Conflict, QueuesOk, Exclusive, Down, Up, Spans, Serialising, Distinct;
    TailInBounds(s.frames[self], s.requests[self], s.disk, s.align);
    TailBlock(s.frames[self].End(), s.disk, s.align);
  }

  lemma SelfWakes(f: Frame, req: Request, disk: Data, align: nat)
    requires CoOk(f, req, disk, align) && !req.Passed()
    ensures FrameOk(f, req.(waitingFor := None), align, |disk|) && f.FirstWait(align) && f.Waits()
  {
  }

  lemma Woken(s: State, self: Co)
    requires s.Inv() && self in s.wakeup
    ensures self in s.requests && s.(requests := Wake(s.requests, self), wakeup := s.wakeup - {self}).Running(self)
  {
    hide Conflict, Exclusive, ExclusiveBut, Down, Up, Distinct, BuffersOk, FrameOk, QueuesOk, Serialising;
    assert self in s.requests && !s.requests[self].Passed() by { WakeOk(s.requests, s.wakeup, self); }
    WakeOk(s.requests, s.wakeup, self);
    SameSerialising(s.requests, Wake(s.requests, self));
    SelfWakes(s.frames[self], s.requests[self], s.disk, s.align);
  }

  lemma StepWork(s: State, self: Co, f: Frame)
    requires s.Inv() && self in s.frames
    ensures (forall co | co in s.order :: co in s.frames) &&
            Work(s.order, s.frames[self := f]) - f.Rank() == Work(s.order, s.frames) - s.frames[self].Rank()
  {
    hide Exclusive, QueuesOk, CoOk, Serialising, Aligned;
    WorkStep(s.order, s.frames, self, f);
  }

  lemma TurnKind(s: State, co: Co)
    requires s.Inv() && Runnable(s.requests, s.wakeup, co)
    ensures s.frames.Keys == s.requests.Keys && co in s.frames && (co !in s.wakeup ==> s.frames[co].InDriver())
  {
    hide Exclusive, QueuesOk, FrameOk, BuffersOk, Distinct, Serialising, Aligned;
  }

  lemma SameStill(first: map<Co, Frame>, was: map<Co, Frame>, now: map<Co, Frame>)
    requires forall co | co in was :: co in first && SameJob(was[co], first[co])
    requires forall co | co in now :: co in was && SameJob(now[co], was[co])
    ensures forall co | co in now :: co in first && SameJob(now[co], first[co])
  {
  }

  // What a reply says of the call.
  lemma RepliedAs(first: Frame, f: Frame, was: Data, disk: Data, landed: Mask, ok: bool, r: Reply)
    requires SameJob(f, first) && Replied(f, was, disk, landed, ok, r)
    ensures |disk| == |was| && (r.Error? ==> !ok) && (r.Got? ==> first.Reads()) && (r.Done? ==> !first.Reads())
    ensures first.data == f.data
    ensures if r.Lands? || r.Done?
            then first.start + |first.data| <= |was| && disk == Landed(was, first.start, first.data, r.part)
            else disk == was
    ensures r.Done? ==> r.part == Missing(landed, |first.data|)
    ensures r.Goes? || r.Lands? || r.Done? || r.Got? || r.Error?
  {
  }

  lemma InvListed(s: State)
    requires s.Inv()
    ensures s.Listed() && s.requests.Keys == s.frames.Keys && forall co | co in s.order :: co in s.frames
  {
    hide Exclusive, QueuesOk, FrameOk, BuffersOk, Distinct, Serialising, Aligned;
  }

  lemma SameJobs(frames: map<Co, Frame>)
    ensures forall co | co in frames :: SameJob(frames[co], frames[co])
  {
  }

  lemma DriverPassed(s: State, self: Co)
    requires s.Inv() && self in s.frames && s.frames[self].InDriver()
    ensures self in s.requests && s.requests[self].Passed() && s.frames[self].End() <= |s.disk|
  {
    hide Exclusive, QueuesOk, Serialising;
  }

  /** Of the requests past their waits none relies on what a write changes. */
  lemma WriteKeeps(s: State, self: Co, disk: Data)
    requires s.Inv() && self in s.frames && s.frames[self].at.Writing?
    requires Differ(s.disk, disk, s.frames[self].start, |s.frames[self].data|)
    ensures s.(disk := disk).Inv()
  {
    hide BuffersOk, FrameOk, Aligned, QueuesOk, Conflict, Frame.FirstWait, Differ, Exclusive;
    var f := s.frames[self];
    WriterFacts(f, s.requests[self], s.disk, s.align);
    SameSize(s.disk, disk, f.start, |f.data|);
    forall co | co in s.requests
      ensures CoOk(s.frames[co], s.requests[co], disk, s.align)
    {
      if co == self {
        OwnBuffersKept(f, s.requests[self], s.disk, disk, s.align);
      } else if s.requests[co].Passed() {
        NoConflict(s.requests, co, self);
        BuffersKept(s.frames[co], s.requests[co], s.disk, disk, s.align, f, s.requests[self]);
      } else {
        NoBuffers(s.frames[co], s.requests[co], disk, s.align);
      }
    }
  }

  lemma WriterEnds(s: State, self: Co)
    requires s.Inv() && self in s.frames && s.frames[self].at.Writing?
    ensures s.Shape() && Exclusive(s.requests) && s.RestOk(self) && self in s.requests && s.requests[self].Passed()
  {
    hide QueuesOk, Serialising, Exclusive, FrameOk, BuffersOk;
  }

  lemma Someone(s: State) returns (co: Co)
    requires s.Inv() && s.requests != map[]
    ensures co in s.requests && (s.requests[co].waitingFor.None? || co in s.wakeup)
  {
    co := SomeRunnable(s.requests, s.wakeup);
  }

  lemma ListedFrames(s: State)
    requires s.Inv()
    ensures forall co | co in s.order :: co in s.frames
  {
  }

  lemma RunnableFrame(s: State, co: Co)
    requires s.Inv() && Runnable(s.requests, s.wakeup, co)
    ensures co in s.frames
  {
  }

  lemma VectorHolds(f: Frame, align: nat)
    requires align > 0 && f.length == |f.data|
    requires f.head.Some? ==> |f.head.value| == align
    requires f.tail.Some? ==> |f.tail.value| == align
    requires f.head.None? ==> Aligned(f.start, align)
    ensures Down(f.start, align) <= f.start && f.start - Down(f.start, align) <= align &&
            0 <= f.End() - Down(f.End(), align) <= align
    ensures f.start - Down(f.start, align) + |f.data| <= |f.Vector(align)|
  {
    DownFacts(f.start, align);
    DownFacts(f.End(), align);
    hide Down;
    if f.head.None? {
      DownUnique(f.start, align, f.start);
    }
  }

  lemma WriterReady(s: State, self: Co)
    requires s.Inv() && self in s.frames && s.frames[self].at.Writing?
    ensures self in s.requests && FrameOk(s.frames[self], s.requests[self], s.align, |s.disk|)
    ensures BuffersOk(s.frames[self], s.disk, s.align) && s.frames[self].start + |s.frames[self].data| <= |s.disk|
    ensures s.align > 0 && Down(s.frames[self].start, s.align) <= s.frames[self].start
    ensures s.frames[self].length == |s.frames[self].data|
    ensures s.frames[self].head.None? ==> Aligned(s.frames[self].start, s.align)
  {
    WriterFacts(s.frames[self], s.requests[self], s.disk, s.align);
    DownFacts(s.frames[self].start, s.align);
  }

  lemma NoConflict(requests: Requests, a: Co, b: Co)
    requires Exclusive(requests) && a in requests && b in requests && a != b && requests[a].Passed() &&
             requests[b].Passed()
    ensures !Conflict(requests[a], requests[b])
  {
  }

  lemma NoBuffers(f: Frame, req: Request, disk: Data, align: nat)
    requires FrameOk(f, req, align, |disk|) && f.FirstWait(align)
    ensures BuffersOk(f, disk, align)
  {
  }

  lemma WriterFacts(f: Frame, req: Request, disk: Data, align: nat)
    requires CoOk(f, req, disk, align) && f.at.Writing?
    ensures req.isWrite && req.Passed() && f.start + |f.data| <= |disk| && f.length == |f.data|
  {
  }

  /** What a reply says of the disk: only writes change it, and only within what they were asked to write. */
  ghost predicate Replied(f: Frame, was: Data, disk: Data, landed: Mask, ok: bool, r: Reply) {
    match r
    case Goes => disk == was
    case Lands(part) => !f.Reads() && f.start + |f.data| <= |was| && disk == Landed(was, f.start, f.data, part)
    case Done(part) =>
      && ok && !f.Reads() && part == Missing(landed, |f.data|)
      && f.start + |f.data| <= |was| && disk == Landed(was, f.start, f.data, part)
    case Got(data) => ok && f.Reads() && disk == was && f.End() <= |was| && data == was[f.start..f.End()]
    case Error => !ok && disk == was
    case _ => false
  }

  class BlockDriverState {
    const align: nat
    var disk: Data
    var requests: Requests
    var order: seq<Co>
    var serialisingInFlight: int
    var wakeup: set<Co>
    var frames: map<Co, Frame>
    // The bytes of each caller's vector that have reached the disk while the driver writes it.
    var landed: map<Co, Mask>

    ghost function View(): State
      reads this
    {
      State(align, disk, requests, order, serialisingInFlight, wakeup, frames)
    }

    constructor (align: nat, disk: Data)
      requires align > 0 && Aligned(|disk|, align)
      ensures View() == State(align, disk, map[], [], 0, {}, map[]) && View().Inv() && landed == map[]
    {
      this.align, this.disk := align, disk;
      requests, order, serialisingInFlight, wakeup, frames, landed := map[], [], 0, {}, map[], map[];
    }

    // ---- waiting ----

    /** One turn of wait_serialising_requests: the request to wait for, if any. */
    method WaitSerialising(self: Co) returns (on: Option<Co>)
      requires View().Listed() && self in requests
      modifies this`requests
      ensures on.None? ==> requests == old(requests) && View().Free(self)
      ensures on.Some? ==> Blocks(old(requests), self, on.value) && requests == Park(old(requests), self, on.value)
    {
      if serialisingInFlight == 0 {
        assert forall q | q in requests :: q !in Serialising(requests);
        return None;
      }
      var i := 0;
      while i < |order|
        invariant 0 <= i <= |order| && requests == old(requests)
        invariant forall k | 0 <= k < i :: !Blocks(requests, self, order[k])
      {
        var q := order[i];
        if q != self && (requests[q].serialising || requests[self].serialising) {
          if Overlaps(requests[q], requests[self]) {
            if requests[q].waitingFor.None? {
              requests := Park(requests, self, q);
              return Some(q);
            }
          }
        }
        i := i + 1;
      }
      return None;
    }

    /** A wait from its start, or from where its coroutine was woken, up to the next
        yield. */
    method WaitStep(self: Co)
      requires View().Running(self)
      modifies this`requests, this`frames
      ensures View().Inv() && frames == old(frames)[self := frames[self]] && requests.Keys == old(requests.Keys)
      ensures requests[self].isWrite == old(requests[self].isWrite)
      ensures frames[self] == old(frames[self]).(at := frames[self].at, waited := frames[self].waited)
      ensures frames[self].Reads() == old(frames[self].Reads())
      ensures if requests[self].Passed() then frames[self].Rank() < old(frames[self].Rank())
              else frames[self].at == old(frames[self].at)
    {
      hide Exclusive, ExclusiveBut, QueuesOk, CoOk, FrameOk, BuffersOk, State.RestOk, Blocks, Aligned, Serialising;
      ghost var s := View();
      var on := WaitSerialising(self);
      if on.Some? {
        Yields(s, self, on.value);
        frames := frames[self := frames[self].(waited := true)];
      } else {
        Pass(self);
      }
    }

    // The request is past its wait, and goes on to the next driver call.
    method Pass(self: Co)
      requires View().Running(self) && View().Free(self)
      modifies this`requests, this`frames
      ensures View() == old(View()).Moved(self, Next(old(frames[self].at))) && View().Inv()
    {
      hide Exclusive, ExclusiveBut, QueuesOk, CoOk, FrameOk, BuffersOk, State.RestOk, Aligned, Serialising, Spans,
           Frame.FirstWait, Down, Up;
      ghost var s := View();
      Passes(s, self);
      Asserted(frames[self], requests[self], align, |disk|);
      if frames[self].at.HeadWait? || frames[self].at.TailWait? {
        assert frames[self].at.TailWait? ==> !frames[self].waited || frames[self].head.None?;
        // bdrv_aligned_preadv waits once more
        var again := WaitSerialising(self);
        assert again == None;
      } else if frames[self].at.WriteWait? {
        assert !frames[self].waited || !requests[self].serialising;
        assert requests[self].overlapOffset == Down(frames[self].start, align);
        assert requests[self].OverlapEnd() == Up(frames[self].End(), align);
      }
      frames := frames[self := frames[self].(at := Next(frames[self].at))];
    }

    // ---- the request list ----

    method TrackedRequestBegin(self: Co, offset: nat, bytes: nat, isWrite: bool, f: Frame)
      requires View().Inv() && self !in requests
      modifies this`requests, this`order, this`frames
      ensures requests == old(requests)[self := Begin(offset, bytes, isWrite)] && frames == old(frames)[self := f]
      ensures order == [self] + old(order)
      ensures View().Shape() && View().RestOk(self) && ExclusiveBut(requests, self)
    {
      EnterOk(requests, wakeup, self, Begin(offset, bytes, isWrite));
      requests := requests[self := Begin(offset, bytes, isWrite)];
      order, frames := [self] + order, frames[self := f];
      SameSerialisingBut(old(requests), requests, self);
    }

    method MarkRequestSerialising(self: Co, unit: nat)
      requires View().Shape() && View().RestOk(self) && self in requests && unit > 0
      requires requests[self].Passed() &&
               (requests[self].waitQueue == {} || Mark(requests[self], unit) == requests[self])
      modifies this`requests, this`serialisingInFlight
      ensures requests == old(requests)[self := Mark(old(requests[self]), unit)]
      ensures View().Shape() && View().RestOk(self)
      ensures old(ExclusiveBut(requests, self)) ==> ExclusiveBut(requests, self)
    {
      hide FrameOk, BuffersOk, CoOk, Mark, Conflict, Aligned, QueuesOk, ExclusiveBut, Serialising;
      SerialisingMark(requests, self, unit);
      MarkKeepsQueues(requests, wakeup, self, unit);
      if !requests[self].serialising {
        serialisingInFlight := serialisingInFlight + 1;
      }
      requests := requests[self := Mark(requests[self], unit)];
    }

    /** The request leaves the list, and all who wait for it are woken. */
    method TrackedRequestEnd(self: Co)
      requires View().Shape() && Exclusive(requests) && View().RestOk(self) && self in requests &&
               requests[self].Passed()
      modifies this`requests, this`order, this`frames, this`serialisingInFlight, this`wakeup
      ensures View().Inv() && requests == End(old(requests), self) && frames == old(frames) - {self}
      ensures wakeup == old(wakeup) + old(requests[self].waitQueue)
      ensures Work(order, frames) + old(frames[self].Rank()) == old(Work(order, frames))
    {
      hide FrameOk, BuffersOk, CoOk, Conflict, Aligned, QueuesOk, Exclusive, Serialising, Distinct, Work;
      var i :| 0 <= i < |order| && order[i] == self;
      Ends(View(), self, i);
      EndWork(View(), self, i);
      if requests[self].serialising {
        serialisingInFlight := serialisingInFlight - 1;
      }
      wakeup := wakeup + requests[self].waitQueue;
      requests, order, frames := End(requests, self), order[..i] + order[i + 1..], frames - {self};
    }

    // ---- bdrv_co_do_pwritev ----

    method Pwritev(self: Co, offset: int, data: Data) returns (r: Status)
      requires View().Inv() && self !in requests
      modifies this`requests, this`order, this`frames, this`serialisingInFlight, this`landed
      ensures r == if 0 <= offset && offset + |data| <= |disk| && |data| <= INT_MAX then Started else EIO
      ensures View().Inv() && (r == EIO ==> View() == old(View()) && landed == old(landed))
      ensures r == Started ==> self in frames && frames == old(frames)[self := frames[self]] && !frames[self].Reads()
      ensures r == Started ==> frames[self].start == offset && frames[self].data == data
      ensures r == Started ==> requests.Keys == old(requests.Keys) + {self} && landed == old(landed) - {self}
    {
      hide Exclusive, ExclusiveBut, QueuesOk, CoOk, Aligned, State.RestOk, State.Running, State.Inv, State.Shape;
      if |data| > INT_MAX || offset < 0 || offset > |disk| || |disk| - offset < |data| {
        return EIO;
      }
      landed := landed - {self};
      HeadPhase(self, offset, data);
      WaitStep(self);
      return Started;
    }

    // The request is tracked, and runs up to its first wait.
    method HeadPhase(self: Co, start: nat, data: Data)
      requires View().Inv() && self !in requests && start + |data| <= |disk|
      modifies this`requests, this`order, this`frames, this`serialisingInFlight
      ensures View().Running(self) && !frames[self].Reads() && frames == old(frames)[self := frames[self]]
      ensures frames[self].start == start && frames[self].data == data && requests.Keys == old(requests.Keys) + {self}
    {
      hide Exclusive, ExclusiveBut, QueuesOk, CoOk, Serialising, Distinct, Spans, Mark, Down, Up, State.Shape,
           State.RestOk, State.Running;
      TrackedRequestBegin(self, start, |data|, true, Frame(Start, false, start, |data|, data, None, None));
      if !Aligned(start, align) {
        MarkRequestSerialising(self, align);
        FirstMark(start, |data|, align);
        HeadRuns(View(), self);
        frames := frames[self := frames[self].(at := HeadWait)];
      } else {
        TailPhase(self);
      }
    }

    // From the test of the tail up to the wait that follows.
    method TailPhase(self: Co)
      requires View().HeadDone(self)
      modifies this`requests, this`frames, this`serialisingInFlight
      ensures View().Running(self) && requests.Keys == old(requests.Keys) && requests[self].isWrite
      ensures frames == old(frames)[self := frames[self]] && (frames[self].at.TailWait? || frames[self].at.WriteWait?)
      ensures frames[self] == old(frames[self]).(at := frames[self].at, waited := false)
    {
      hide CoOk, QueuesOk, Conflict, ExclusiveBut, Exclusive, Serialising, Distinct, Spans, Mark, Down, Up;
      TailMark(frames[self], requests[self], align);
      if !Aligned(frames[self].End(), align) {
        MarkRequestSerialising(self, align);
        assert frames[self].head.Some? ==> requests == old(requests);
        frames := frames[self := frames[self].(at := TailWait, waited := false)];
      } else {
        frames := frames[self := frames[self].(at := WriteWait, waited := false)];
      }
    }

    // ---- bdrv_co_do_preadv ----

    /** The range of a read is rounded before it is tracked. A read that copies marks
        whole clusters. */
    method Preadv(self: Co, offset: int, bytes: nat, copyOnRead: bool, cluster: nat) returns (r: Status)
      requires View().Inv() && self !in requests && cluster > 0
      modifies this`requests, this`order, this`frames, this`serialisingInFlight
      ensures r == if 0 <= offset && offset + bytes <= |disk| && bytes <= INT_MAX then Started else EIO
      ensures View().Inv() && (r == EIO ==> View() == old(View()))
      ensures r == Started ==> self in frames && frames == old(frames)[self := frames[self]] && frames[self].Reads()
      ensures r == Started ==> frames[self].start == offset && frames[self].length == bytes
      ensures r == Started ==> requests.Keys == old(requests.Keys) + {self}
    {
      hide Exclusive, ExclusiveBut, QueuesOk, CoOk, Aligned, State.RestOk, State.Running, State.Inv, State.Shape;
      if bytes > INT_MAX || offset < 0 || offset > |disk| || |disk| - offset < bytes {
        return EIO;
      }
      ReadPhase(self, offset, bytes, copyOnRead, cluster);
      WaitStep(self);
      return Started;
    }

    method ReadPhase(self: Co, start: nat, length: nat, copyOnRead: bool, cluster: nat)
      requires View().Inv() && self !in requests && start + length <= |disk| && cluster > 0
      modifies this`requests, this`order, this`frames, this`serialisingInFlight
      ensures View().Running(self) && frames[self].Reads() && frames == old(frames)[self := frames[self]]
      ensures frames[self].start == start && frames[self].length == length
      ensures requests.Keys == old(requests.Keys) + {self}
    {
      hide Exclusive, ExclusiveBut, QueuesOk, CoOk, Serialising, Distinct, Mark, Down, Up, State.RestOk, State.Running,
           Aligned;
      ReadPad(start, length, align);
      var offset, bytes := start, length;
      if !Aligned(offset, align) {
        bytes := bytes + (offset - Down(offset, align));
        offset := Down(offset, align);
      }
      if !Aligned(offset + bytes, align) {
        bytes := Up(bytes, align);
      }
      TrackedRequestBegin(self, offset, bytes, false, Frame(ReadWait, false, start, length, [], None, None));
      if copyOnRead {
        MarkRequestSerialising(self, cluster);
        MarkCovers(Begin(offset, bytes, false), cluster);
      }
      ReadRuns(View(), self);
    }

    // ---- driver calls that complete ----

    /** The driver has read a block around a write, or the range of a read. A read
        gets the bytes the disk holds now. */
    method ReadDone(self: Co, ok: bool) returns (r: Reply)
      requires View().Inv() && self in frames &&
               (frames[self].at.HeadRead? || frames[self].at.TailRead? || frames[self].at.Reading?)
      modifies this`requests, this`order, this`frames, this`serialisingInFlight, this`wakeup
      ensures View().Inv() && requests.Keys == if r == Goes then old(requests.Keys) else old(requests.Keys) - {self}
      ensures forall co | co in frames :: co in old(frames) && SameJob(frames[co], old(frames[co]))
      ensures Work(order, frames) < old(Work(order, frames)) && old(frames[self].End()) <= |disk|
      ensures r == if !ok then Error
                   else if old(frames[self].at.Reading?)
                   then Got(disk[old(frames[self].start)..old(frames[self].End())]) else Goes
    {
      hide Exclusive, QueuesOk, CoOk, FrameOk, BuffersOk, Distinct, Serialising, Aligned, Work, Down, Up;
      r := Goes;
      DriverPassed(View(), self);
      if !ok {
        r := Error;
        TrackedRequestEnd(self);
      } else if frames[self].at.HeadRead? {
        HeadIn(self);
      } else if frames[self].at.TailRead? {
        TailIn(self);
      } else {
        var data := ReadVector(self);
        r := Got(data);
        TrackedRequestEnd(self);
      }
    }

    // The caller's part of the vector that spans whole blocks.
    method ReadVector(self: Co) returns (r: Data)
      requires View().Inv() && self in frames && frames[self].at.Reading?
      ensures frames[self].End() <= |disk| && r == disk[frames[self].start..frames[self].End()]
    {
      var f := frames[self];
      Rounded(f.start, f.End(), |disk|, align);
      hide Down, Up, Exclusive, QueuesOk, Serialising, Distinct;
      var qiov := disk[Down(f.start, align)..Up(f.End(), align)];
      r := qiov[f.start - Down(f.start, align)..f.End() - Down(f.start, align)];
      SliceOfSlice(disk, Down(f.start, align), Up(f.End(), align), f.start, f.End());
    }

    method HeadIn(self: Co)
      requires View().Inv() && self in frames && frames[self].at.HeadRead?
      modifies this`requests, this`frames, this`serialisingInFlight
      ensures View().Inv() && requests.Keys == old(requests.Keys)
      ensures frames == old(frames)[self := frames[self]] && SameJob(frames[self], old(frames[self]))
      ensures View().Listed() && order == old(order) && Work(order, frames) < old(Work(order, frames))
    {
      hide State.Inv, State.Shape, State.Listed, State.HeadDone, State.Running, Work, Down;
      InvListed(View());
      HeadLoaded(View(), self);
      frames := frames[self := Loaded(frames[self], disk, align)];
      TailPhase(self);
      WaitStep(self);
      InvListed(View());
      StepWork(old(View()), self, frames[self]);
    }

    method TailIn(self: Co)
      requires View().Inv() && self in frames && frames[self].at.TailRead?
      modifies this`requests, this`frames
      ensures View().Inv() && requests.Keys == old(requests.Keys)
      ensures frames == old(frames)[self := frames[self]] && SameJob(frames[self], old(frames[self]))
      ensures View().Listed() && order == old(order) && Work(order, frames) < old(Work(order, frames))
    {
      hide Exclusive, QueuesOk, CoOk, Distinct, Serialising, Aligned, Work, Down, State.Running;
      TailLoaded(View(), self);
      frames := frames[self := Loaded(frames[self], disk, align)];
      WaitStep(self);
      StepWork(old(View()), self, frames[self]);
    }

    // What has reached the disk of the write of a coroutine.
    function LandedOf(co: Co): Mask
      reads this`landed
    {
      LandedIn(landed, co)
    }

    /** While the driver writes the padded range, bytes of it reach the disk in any order: of
        the whole disk, only bytes that the caller asked for change. */
    method Land(self: Co, part: Mask) returns (asked: Mask)
      requires View().Inv() && self in frames && frames[self].at.Writing?
      modifies this`disk, this`landed
      ensures View().Inv() && landed == old(landed)[self := Either(old(LandedOf(self)), asked, |frames[self].data|)]
      ensures var f := frames[self];
              && align > 0 && Down(f.start, align) <= f.start && f.start + |f.data| <= |old(disk)|
              && asked == Shift(part, f.start - Down(f.start, align), |f.data|)
              && disk == Landed(old(disk), f.start, f.data, asked)
    {
      hide State.Inv, Landed, Shift, Either, FrameOk, BuffersOk, Down, Up;
      var f := frames[self];
      WriterReady(View(), self);
      PaddedWrite(f, requests[self], disk, align, part);
      asked := Shift(part, f.start - Down(f.start, align), |f.data|);
      LandedDiffers(disk, f.start, f.data, asked);
      WriteKeeps(View(), self, Landed(disk, f.start, f.data, asked));
      disk := Landed(disk, Down(f.start, align), f.Vector(align), part);
      landed := landed[self := Either(LandedOf(self), asked, |f.data|)];
    }

    /** The driver call returns. If it succeeds, every byte of the vector has reached the
        disk by now, the missing ones at last; if not, some have and some have not. */
    method WriteDone(self: Co, ok: bool) returns (asked: Mask)
      requires View().Inv() && self in frames && frames[self].at.Writing?
      modifies this
      ensures View().Inv() && requests.Keys == old(requests.Keys) - {self} && frames == old(frames) - {self}
      ensures Work(order, frames) < old(Work(order, frames)) && landed == old(landed) - {self}
      ensures asked == if ok then Missing(old(LandedOf(self)), |old(frames[self]).data|) else []
      ensures var f := old(frames[self]);
              f.start + |f.data| <= |old(disk)| && disk == Landed(old(disk), f.start, f.data, asked)
    {
      hide State.Inv, State.Shape, State.RestOk, Exclusive, Landed, Shift, Either, Missing, FrameOk, BuffersOk, Down,
           Up, Work;
      WriterReady(View(), self);
      asked := [];
      NothingLands(disk, frames[self].start, frames[self].data);
      if ok {
        asked := LandRest(self);
      }
      WriterEnds(View(), self);
      TrackedRequestEnd(self);
      landed := landed - {self};
    }

    // The bytes that have not landed yet do.
    method LandRest(self: Co) returns (asked: Mask)
      requires View().Inv() && self in frames && frames[self].at.Writing?
      modifies this`disk, this`landed
      ensures View().Inv() && landed.Keys == old(landed).Keys + {self} && forall co | co in landed && co != self ::
                landed[co] == old(landed)[co]
      ensures asked == Missing(old(LandedOf(self)), |frames[self].data|)
      ensures var f := frames[self];
              f.start + |f.data| <= |old(disk)| && disk == Landed(old(disk), f.start, f.data, asked)
    {
      hide State.Inv, Landed, Shift, Either, Missing, FrameOk, BuffersOk, Down, Up;
      var f := frames[self];
      WriterReady(View(), self);
      PaddedWrite(f, requests[self], disk, align, []);
      assert f.start - Down(f.start, align) + |f.data| <= |f.Vector(align)| by { VectorHolds(f, align); }
      asked := Land(self, PaddedMissing(LandedOf(self), f.start - Down(f.start, align), |f.data|, |f.Vector(align)|));
    }

    /** A woken coroutine looks again. */
    method Resume(self: Co)
      requires View().Inv() && self in wakeup
      modifies this`requests, this`frames, this`wakeup
      ensures View().Inv() && self in frames && requests.Keys == old(requests.Keys) && order == old(order)
      ensures frames == old(frames)[self := frames[self]] && self in old(frames) &&
              SameJob(frames[self], old(frames[self]))
      ensures wakeup == old(wakeup) - {self} && Work(order, frames) <= old(Work(order, frames))
    {
      hide Exclusive, QueuesOk, CoOk, Distinct, Serialising, Aligned, State.Running, Work;
      Woken(View(), self);
      requests, wakeup := Wake(requests, self), wakeup - {self};
      WaitStep(self);
      StepWork(old(View()), self, frames[self]);
    }

    /** A runnable coroutine is entered, or the driver call it waits for completes. The request
        goes on, or ends as the last driver call does: a write once every byte has
        landed, a read with the bytes on the disk, and either with an error. */
    method Turn(co: Co, ok: bool) returns (r: Reply)
      requires View().Inv() && Runnable(requests, wakeup, co)
      modifies this
      ensures View().Inv() && requests.Keys == if r == Goes then old(requests.Keys) else old(requests.Keys) - {co}
      ensures forall c | c in frames :: c in old(frames) && SameJob(frames[c], old(frames[c]))
      ensures Work(order, frames) < old(Work(order, frames)) ||
              (Work(order, frames) == old(Work(order, frames)) && wakeup < old(wakeup))
      ensures co in old(frames) && forall c | c in requests :: LandedOf(c) == old(LandedOf(c))
      ensures !r.Lands? && (co !in old(wakeup) && !ok ==> r == Error)
      ensures Replied(old(frames[co]), old(disk), disk, old(LandedOf(co)), ok, r)
    {
      hide State.Inv, Work, Landed, Missing, Frame.Rank, SameJob;
      SameJobs(frames);
      TurnKind(View(), co);
      if co in wakeup {
        Resume(co);
        return Goes;
      }
      if frames[co].at.Writing? {
        var asked := WriteDone(co, ok);
        NothingLands(old(disk), old(frames[co]).start, old(frames[co]).data);
        return if ok then Done(asked) else Error;
      }
      r := ReadDone(co, ok);
    }

    /** Left alone, all requests complete, whichever runnable coroutine is entered next,
        in whatever pieces the driver writes, and whichever driver calls for the requests in
        `fails` fail: no request waits for ever. All other requests complete without an
        error. The disk then holds what landed, in the order `puts`, and of each completed
        write every byte has landed. There may be any number of pieces. */
    method Drain(pieces: nat, fails: set<Co>) returns (ghost puts: seq<Put>, ghost completed: set<Co>)
      requires View().Inv()
      modifies this
      ensures View().Inv() && requests == map[] && old(requests.Keys) - fails <= completed <= old(requests.Keys)
      ensures Writers(puts, JobsOf(old(frames)), |old(disk)|)
      ensures disk == Replay(old(disk), puts, JobsOf(old(frames)))
      ensures forall co | co in completed ::
                && co in old(frames)
                && (!old(frames)[co].Reads() ==> AllLanded(old(LandedOf(co)), puts, co, |old(frames)[co].data|))
    {
      hide State.Inv, Work, Landed, AllLanded, Accounted, Replay, Either, Missing, Has, Frame.Reads, JobsOf, Writers,
           SameJob, Replied;
      SameJobs(frames);
      puts, completed := [], {};
      ghost var jobs := JobsOf(frames);
      NoPuts(disk, jobs);
      AllAccounted();
      ListedFrames(View());
      var left := pieces;
      while requests != map[]
        invariant View().Inv() && |disk| == |old(disk)| && forall co | co in order :: co in frames
        invariant forall co | co in frames :: co in old(frames) && SameJob(frames[co], old(frames)[co])
        invariant Writers(puts, jobs, |old(disk)|) && disk == Replay(old(disk), puts, jobs)
        invariant requests.Keys <= old(requests.Keys) && old(requests.Keys) - fails <= completed + requests.Keys
        invariant forall co | co in requests :: Accounted(LandedOf(co), old(LandedOf(co)), puts, co)
        invariant completed <= old(requests.Keys)
        invariant forall co | co in completed ::
                    && co in old(frames)
                    && (!old(frames)[co].Reads() ==> AllLanded(old(LandedOf(co)), puts, co, |old(frames)[co].data|))
        decreases Work(order, frames), wakeup, left
      {
        ghost var _ := Someone(View());
        var co :| co in requests && (requests[co].waitingFor.None? || co in wakeup);
        var piece, ok: bool := *, *;
        var part: Mask := *;
        piece := piece && left > 0;
        ghost var was, before, disk' := frames, LandedOf(co), disk;
        var reply := Act(co, piece, part, ok || co !in fails);
        ListedFrames(View());
        SameStill(old(frames), was, frames);
        RepliedAs(old(frames)[co], was[co], disk', disk, before, ok || co !in fails, reply);
        left := if piece then left - 1 else left;
        if reply.Lands? || reply.Done? {
          JobOf(old(frames), co);
          Appended(old(disk), puts, jobs, Put(co, reply.part));
          MoreLanded(puts, co, reply.part, before, old(LandedOf(co)), |old(frames)[co].data|);
          puts := puts + [Put(co, reply.part)];
        }
        if reply.Done? || reply.Got? {
          completed := completed + {co};
        }
      }
    }

    lemma AllAccounted()
      ensures forall co | co in requests :: Accounted(LandedOf(co), LandedOf(co), [], co)
    {
    }

    // The driver writes a piece, if this is asked for and the coroutine is writing, or the coroutine takes its turn.
    method Act(co: Co, piece: bool, part: Mask, ok: bool) returns (r: Reply)
      requires View().Inv() && Runnable(requests, wakeup, co)
      modifies this
      ensures View().Inv() && co in old(frames)
      ensures requests.Keys == if r.Goes? || r.Lands? then old(requests.Keys) else old(requests.Keys) - {co}
      ensures forall c | c in frames :: c in old(frames) && SameJob(frames[c], old(frames[c]))
      ensures Work(order, frames) < old(Work(order, frames)) ||
              (Work(order, frames) == old(Work(order, frames)) &&
               (wakeup < old(wakeup) || (piece && wakeup == old(wakeup))))
      ensures forall c | c in requests && c != co :: LandedOf(c) == old(LandedOf(c))
      ensures co in requests ==>
                LandedOf(co) == if r.Lands? then Either(old(LandedOf(co)), r.part, |old(frames[co]).data|)
                                else old(LandedOf(co))
      ensures Replied(old(frames[co]), old(disk), disk, old(LandedOf(co)), ok, r)
      ensures r.Lands? <==> piece && old(frames[co].at.Writing?)
    {
      hide State.Inv, Work, Landed, Missing, Either, Shift, Down;
      RunnableFrame(View(), co);
      if piece && frames[co].at.Writing? {
        var asked := Land(co, part);
        return Lands(asked);
      }
      r := Turn(co, ok);
    }
  }

  // ---- what lands on the disk ----

  // What a write is asked to write.
  datatype Job = Job(start: nat, data: Data)

  // Bytes of a write that reach the disk at one time.
  datatype Put = Put(job: nat, part: Mask)

  function JobsOf(frames: map<Co, Frame>): map<nat, Job> {
    map co | co in frames :: Job(frames[co].start, frames[co].data)
  }

  lemma JobOf(frames: map<Co, Frame>, co: Co)
    requires co in frames
    ensures co in JobsOf(frames) && JobsOf(frames)[co] == Job(frames[co].start, frames[co].data)
  {
  }

  ghost predicate Writers(puts: seq<Put>, jobs: map<nat, Job>, size: nat) {
    forall put | put in puts :: put.job in jobs && jobs[put.job].start + |jobs[put.job].data| <= size
  }

  /** The disk after `puts`, one after the other. */
  ghost function Replay(disk: Data, puts: seq<Put>, jobs: map<nat, Job>): (r: Data)
    requires Writers(puts, jobs, |disk|)
    ensures |r| == |disk|
  {
    if puts == [] then disk
    else
      var n := |puts| - 1;
      assert forall put | put in puts[..n] :: put in puts;
      assert puts[n] in puts;
      Landed(Replay(disk, puts[..n], jobs), jobs[puts[n].job].start, jobs[puts[n].job].data, puts[n].part)
  }

  lemma NoPuts(disk: Data, jobs: map<nat, Job>)
    ensures Writers([], jobs, |disk|) && Replay(disk, [], jobs) == disk
  {
  }

  lemma Appended(disk: Data, puts: seq<Put>, jobs: map<nat, Job>, put: Put)
    requires Writers(puts, jobs, |disk|) && put.job in jobs && jobs[put.job].start + |jobs[put.job].data| <= |disk|
    ensures Writers(puts + [put], jobs, |disk|)
    ensures Replay(disk, puts + [put], jobs) ==
            Landed(Replay(disk, puts, jobs), jobs[put.job].start, jobs[put.job].data, put.part)
  {
    assert (puts + [put])[..|puts|] == puts;
  }

  // Byte k of a write is among the puts.
  ghost predicate Reached(puts: seq<Put>, job: nat, k: int) {
    exists i :: 0 <= i < |puts| && puts[i].job == job && Has(puts[i].part, k)
  }

  // Everything that has landed had landed before or is among the puts.
  ghost predicate Accounted(landed: Mask, before: Mask, puts: seq<Put>, job: nat) {
    forall k | Has(landed, k) :: Has(before, k) || Reached(puts, job, k)
  }

  ghost predicate AllLanded(before: Mask, puts: seq<Put>, job: nat, n: nat) {
    forall k | 0 <= k < n :: Has(before, k) || Reached(puts, job, k)
  }

  lemma MoreLanded(puts: seq<Put>, job: nat, part: Mask, landed: Mask, before: Mask, n: nat)
    requires Accounted(landed, before, puts, job)
    ensures Accounted(Either(landed, part, n), before, puts + [Put(job, part)], job)
    ensures part == Missing(landed, n) ==> AllLanded(before, puts + [Put(job, part)], job, n)
    ensures forall c, k | Reached(puts, c, k) :: Reached(puts + [Put(job, part)], c, k)
    ensures forall c, was, b | Accounted(was, b, puts, c) :: Accounted(was, b, puts + [Put(job, part)], c)
    ensures forall c, b, m: nat | AllLanded(b, puts, c, m) :: AllLanded(b, puts + [Put(job, part)], c, m)
  {
    var more := puts + [Put(job, part)];
    forall c, k | Reached(puts, c, k)
      ensures Reached(more, c, k)
    {
      var i :| 0 <= i < |puts| && puts[i].job == c && Has(puts[i].part, k);
      assert more[i] == puts[i];
    }
    forall k | Has(part, k)
      ensures Reached(more, job, k)
    {
      assert more[|puts|] == Put(job, part);
    }
    hide Reached;
  }

  ghost predicate Covers(put: Put, jobs: map<nat, Job>, i: nat)
    requires put.job in jobs
  {
    var f := jobs[put.job];
    f.start <= i < f.start + |f.data| && Has(put.part, i - f.start)
  }

  /** A byte holds what landed on it last; what lands on other bytes, of the same block or
      not, never undoes it. */
  lemma {:induction false} LastWriteStands(disk: Data, puts: seq<Put>, jobs: map<nat, Job>, i: nat, k: int)
    requires Writers(puts, jobs, |disk|) && i < |disk| && -1 <= k < |puts|
    requires k >= 0 ==> puts[k] in puts && Covers(puts[k], jobs, i)
    requires forall j | k < j < |puts| :: puts[j] in puts && !Covers(puts[j], jobs, i)
    ensures Replay(disk, puts, jobs)[i] ==
            if k < 0 then disk[i] else assert puts[k] in puts; jobs[puts[k].job].data[i - jobs[puts[k].job].start]
  {
    if k < |puts| - 1 {
      var n := |puts| - 1;
      assert forall put | put in puts[..n] :: put in puts;
      assert puts[n] in puts && !Covers(puts[n], jobs, i);
      LastWriteStands(disk, puts[..n], jobs, i, k);
    } else if k >= 0 {
      assert Covers(puts[k], jobs, i);
    }
  }
}
