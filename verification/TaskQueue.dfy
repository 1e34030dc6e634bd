/**
 `sched::TaskQueue` of quickpool: pushes hold a mutex, pops race through one
 compare-and-swap on `top_`.  The ring buffer is replaced by a doubled copy when it
 is full, while poppers may still be reading the old one.

 Every load, store and CAS is one atomic step; any number of threads interleave.
 */
module TaskQueue {
  import opened Arith
  import opened Wrappers

  // ---- RingBuffer

  /** Bitwise and. */
  function And(a: nat, b: nat): (r: nat)
    decreases a
  {
    if a == 0 then 0 else 2 * And(a / 2, b / 2) + (if a % 2 == 1 && b % 2 == 1 then 1 else 0)
  }

  /** `i & mask_` is the remainder by the capacity when that is a power of two. */
  lemma {:induction false} MaskIsRemainder(i: nat, k: nat)
    ensures And(i, Pow2(k) - 1) == i % Pow2(k)
    decreases i
  {
    hide And; hide Pow2;
    if k == 0 {
      MaskOfOne(i);
    } else if i > 0 {
      MaskIsRemainder(i / 2, k - 1);
      MaskStep(i, Pow2(k - 1));
      PowTwice(k - 1);
    } else {
      MaskOfZero(Pow2(k));
    }
  }

  lemma PowTwice(k: nat)
    ensures Pow2(k + 1) == 2 * Pow2(k)
  {
  }

  lemma MaskOfOne(i: nat)
    ensures And(i, Pow2(0) - 1) == i % Pow2(0)
  {
    AndZero(i);
    assert i % 1 == 0;
  }

  lemma MaskOfZero(p: nat)
    requires p > 0
    ensures And(0, p - 1) == 0 % p
  {
    Quotient(0, p, 0, 0);
  }

  lemma {:induction false} AndZero(i: nat)
    ensures And(i, 0) == 0
    decreases i
  {
    if i > 0 {
      AndZero(i / 2);
    }
  }

  /** From half the number and half the capacity. */
  lemma MaskStep(i: nat, p: nat)
    requires i > 0 && p > 0 && And(i / 2, p - 1) == i / 2 % p
    ensures And(i, 2 * p - 1) == i % (2 * p)
  {
    hide And;
    AndOdd(i, p);
    var h, e := i / 2, i % 2;
    assert i == 2 * h + e;
    DoubleRemainder(h, e, p);
  }

  lemma AndOdd(i: nat, p: nat)
    requires i > 0 && p > 0
    ensures And(i, 2 * p - 1) == 2 * And(i / 2, p - 1) + i % 2
  {
    assert (2 * p - 1) / 2 == p - 1;
  }

  datatype Ring<T> = Ring(bits: nat, buffer: seq<T>)
  {
    ghost predicate Valid() { |buffer| == Capacity() }

    function Capacity(): nat { Pow2(bits) }

    function Slot(i: nat): (j: nat)
      ensures j == i % Capacity() < Capacity()
    {
      MaskIsRemainder(i, bits);
      And(i, Capacity() - 1)
    }

    function GetEntry(i: nat): T
      requires Valid()
    {
      buffer[Slot(i)]
    }

    function SetEntry(i: nat, val: T): (r: Ring<T>)
      requires Valid()
      ensures r.Valid() && r.bits == bits
    {
      Ring(bits, buffer[Slot(i) := val])
    }
  }

  lemma SetThenGet<T>(r: Ring<T>, i: nat, val: T, j: nat)
    requires r.Valid()
    ensures r.SetEntry(i, val).GetEntry(i) == val
    ensures i != j && -(r.Capacity() as int) < i - j < r.Capacity() ==> r.SetEntry(i, val).GetEntry(j) == r.GetEntry(j)
  {
    if i < j < i + r.Capacity() {
      DistinctRemainders(i, j, r.Capacity());
    } else if j < i < j + r.Capacity() {
      DistinctRemainders(j, i, r.Capacity());
    }
  }

  // ---- The queue and its threads

  type ThreadId = nat

  /** Where a thread stands in `push` or `try_pop`, with its local variables. */
  datatype Local<T> =
    | Idle
    | PushLocked(task: T)
    | PushGotBottom(task: T, b: nat)
    | PushGotTop(task: T, b: nat, t: nat)
    | PushGotBuffer(task: T, b: nat, t: nat, buf: nat)
    | PushCopying(task: T, b: nat, t: nat, buf: nat, copy: Ring<T>, i: nat)
    | PushReady(task: T, b: nat, t: nat, buf: nat)
    | PushStored(task: T, b: nat, t: nat)
    | PushDone
    | PopGotTop(t: nat)
    | PopGotBottom(t: nat, b: nat)
    | PopGotBuffer(t: nat, buf: nat)
    | PopGotTask(t: nat, ptr: T)
  {
    predicate Pushing() {
      || PushLocked? || PushGotBottom? || PushGotTop? || PushGotBuffer?
      || PushCopying? || PushReady? || PushStored? || PushDone?
    }
  }

  /**
   `rings` holds every buffer ever allocated: `old_buffers_` keeps the replaced ones
   alive.  `pushed` and `popped` record the tasks in the order in which `bottom_` and
   `top_` were advanced over them.
   */
  datatype Queue<T> = Queue(
    top: nat,
    bottom: nat,
    rings: seq<Ring<T>>,
    current: nat,
    mutex: Option<ThreadId>,
    threads: map<ThreadId, Local<T>>,
    pushed: seq<T>,
    popped: seq<T>)

  /** What a scheduler decides: which thread moves, what an idle one starts, what fresh memory holds. */
  datatype Choice<T> = Choice(tid: ThreadId, push: Option<T>, memory: seq<T>)

  function Put<T>(q: Queue<T>, tid: ThreadId, l: Local<T>): Queue<T> {
    q.(threads := q.threads[tid := l])
  }

  /** One atomic step of thread `c.tid`; a thread that cannot move leaves the state as it is. */
  function Step<T>(q: Queue<T>, c: Choice<T>): (q': Queue<T>)
    requires WellFormed(q)
  {
    if c.tid !in q.threads then q else
    var l := q.threads[c.tid];
    assert LocalValid(q, l);
    match l
    case Idle =>
      if c.push.Some? then
        if q.mutex.None? then Put(q, c.tid, PushLocked(c.push.value)).(mutex := Some(c.tid)) else q
      else Put(q, c.tid, PopGotTop(q.top))
    // push
    case PushLocked(task) => Put(q, c.tid, PushGotBottom(task, q.bottom))
    case PushGotBottom(task, b) => Put(q, c.tid, PushGotTop(task, b, q.top))
    case PushGotTop(task, b, t) => Put(q, c.tid, PushGotBuffer(task, b, t, q.current))
    case PushGotBuffer(task, b, t, buf) =>
      if q.rings[buf].Capacity() < b - t + 1 then
        if |c.memory| != Pow2(q.rings[buf].bits + 1) then q
        else Put(q, c.tid, PushCopying(task, b, t, buf, Ring(q.rings[buf].bits + 1, c.memory), t))
      else Put(q, c.tid, PushReady(task, b, t, buf))
    case PushCopying(task, b, t, buf, copy, i) =>
      if i != b then
        Put(q, c.tid, PushCopying(task, b, t, buf, copy.SetEntry(i, q.rings[buf].GetEntry(i)), i + 1))
      else
        Put(q, c.tid, PushReady(task, b, t, |q.rings|)).(rings := q.rings + [copy], current := |q.rings|)
    case PushReady(task, b, t, buf) =>
      Put(q, c.tid, PushStored(task, b, t)).(rings := q.rings[buf := q.rings[buf].SetEntry(b, task)])
    case PushStored(task, b, t) =>
      Put(q, c.tid, PushDone).(bottom := b + 1, pushed := q.pushed + [task])
    case PushDone => Put(q, c.tid, Idle).(mutex := None)
    // try_pop
    case PopGotTop(t) => Put(q, c.tid, PopGotBottom(t, q.bottom))
    case PopGotBottom(t, b) =>
      if t < b then Put(q, c.tid, PopGotBuffer(t, q.current)) else Put(q, c.tid, Idle)
    case PopGotBuffer(t, buf) => Put(q, c.tid, PopGotTask(t, q.rings[buf].GetEntry(t)))
    case PopGotTask(t, ptr) =>
      if q.top == t then Put(q, c.tid, Idle).(top := t + 1, popped := q.popped + [ptr])
      else Put(q, c.tid, Idle)
  }

  ghost predicate WellFormed<T>(q: Queue<T>) {
    && q.current < |q.rings|
    && (forall k :: 0 <= k < |q.rings| ==> q.rings[k].Valid())
    && (forall tid :: tid in q.threads ==> LocalValid(q, q.threads[tid]))
  }

  /** The buffer pointers a thread holds are allocated. */
  ghost predicate LocalValid<T>(q: Queue<T>, l: Local<T>) {
    && (l.PushGotBuffer? || l.PushCopying? || l.PushReady? || l.PopGotBuffer? ==> l.buf < |q.rings|)
    && (l.PushCopying? ==> l.copy.Valid())
  }

  // ---- Invariant

  ghost predicate Shared<T>(q: Queue<T>) {
    && q.top <= q.bottom == |q.pushed|
    && q.popped == q.pushed[..q.top]
    && q.current < |q.rings|
    && (forall k :: 0 <= k < |q.rings| ==> q.rings[k].Valid())
    && q.bottom - q.top <= q.rings[q.current].Capacity()
    && Live(q, q.rings[q.current])
  }

  /** Every task still in the queue is in its slot. */
  ghost predicate Live<T>(q: Queue<T>, r: Ring<T>)
    requires r.Valid() && q.bottom <= |q.pushed|
  {
    forall i :: q.top <= i < q.bottom ==> r.GetEntry(i) == q.pushed[i]
  }

  ghost predicate Pusher<T>(q: Queue<T>, l: Local<T>)
    requires Shared(q) && LocalValid(q, l)
  {
    var cap := q.rings[q.current].Capacity();
    match l
    case PushGotBottom(_, b) => b == q.bottom
    case PushGotTop(_, b, t) => b == q.bottom && t <= q.top && b - t <= cap
    case PushGotBuffer(_, b, t, buf) => b == q.bottom && t <= q.top && b - t <= cap && buf == q.current
    case PushCopying(_, b, t, buf, copy, i) =>
      && b == q.bottom && t <= q.top && b - t <= cap && buf == q.current
      && t <= i <= b && copy.bits == q.rings[buf].bits + 1
      && (forall j :: t <= j < i ==> copy.GetEntry(j) == q.rings[buf].GetEntry(j))
    case PushReady(_, b, t, buf) => b == q.bottom && t <= q.top && b - t + 1 <= cap && buf == q.current
    case PushStored(task, b, t) =>
      b == q.bottom && t <= q.top && b - t + 1 <= cap && q.rings[q.current].GetEntry(b) == task
    case _ => true
  }

  /** A popper that can still win its race holds the right buffer, and then the right task. */
  ghost predicate Popper<T>(q: Queue<T>, l: Local<T>)
    requires Shared(q) && LocalValid(q, l)
  {
    match l
    case PopGotTop(t) => t <= q.top
    case PopGotBottom(t, b) => t <= q.top && b <= q.bottom
    case PopGotBuffer(t, buf) => t <= q.top && (t == q.top ==> t < q.bottom && q.rings[buf].GetEntry(t) == q.pushed[t])
    case PopGotTask(t, ptr) => t <= q.top && (t == q.top ==> t < q.bottom && ptr == q.pushed[t])
    case _ => true
  }

  ghost predicate Thread<T>(q: Queue<T>, tid: ThreadId, l: Local<T>)
    requires Shared(q)
  {
    && LocalValid(q, l)
    && (l.Pushing() <==> q.mutex == Some(tid))
    && Pusher(q, l)
    && Popper(q, l)
  }

  ghost predicate Inv<T>(q: Queue<T>) {
    && Shared(q)
    && (q.mutex.Some? ==> q.mutex.value in q.threads)
    && forall tid :: tid in q.threads ==> Thread(q, tid, q.threads[tid])
  }

  ghost predicate Init<T>(q: Queue<T>) {
    && q.top == q.bottom == 0 && q.pushed == q.popped == []
    && |q.rings| == 1 && q.current == 0 && q.rings[0].Valid()
    && q.mutex == None
    && forall tid :: tid in q.threads ==> q.threads[tid] == Idle
  }

  /** What any step leaves alone from the point of view of a popper. */
  ghost predicate Extends<T>(q: Queue<T>, q': Queue<T>)
    requires Shared(q) && Shared(q')
  {
    && q.top <= q'.top && q.bottom <= q'.bottom && q.pushed <= q'.pushed
    && |q.rings| <= |q'.rings|
    && forall k, i :: 0 <= k < |q.rings| && q'.top <= i < q.bottom ==> q'.rings[k].GetEntry(i) == q.rings[k].GetEntry(i)
  }

  lemma PopperKept<T>(q: Queue<T>, q': Queue<T>, l: Local<T>)
    requires Shared(q) && Shared(q') && Extends(q, q')
    requires LocalValid(q, l) && Popper(q, l) && !l.Pushing()
    ensures LocalValid(q', l) && Popper(q', l)
  {
  }

  // ---- Every step keeps the invariant

  lemma InitInv<T>(q: Queue<T>)
    requires Init(q)
    ensures Inv(q)
  {
  }

  lemma InvWellFormed<T>(q: Queue<T>)
    requires Inv(q)
    ensures WellFormed(q)
  {
    forall tid | tid in q.threads
      ensures LocalValid(q, q.threads[tid])
    {
      assert Thread(q, tid, q.threads[tid]);
    }
  }

  /** A step that only changes the moving thread's locals. */
  lemma LocalStep<T>(q: Queue<T>, tid: ThreadId, l: Local<T>)
    requires Inv(q) && tid in q.threads
    requires q.threads[tid].Pushing() == l.Pushing()
    requires LocalValid(q, l) && Pusher(q, l) && Popper(q, l)
    ensures Inv(Put(q, tid, l))
  {
    var q' := Put(q, tid, l);
    assert Thread(q, tid, q.threads[tid]);
    forall k | k in q'.threads
      ensures Thread(q', k, q'.threads[k])
    {
      if k != tid {
        assert Thread(q, k, q.threads[k]);
      }
    }
  }

  /** A step of the mutex holder that changes shared state but nothing a popper relies on. */
  lemma PusherStep<T>(q: Queue<T>, q': Queue<T>, tid: ThreadId, l: Local<T>)
    requires Inv(q) && tid in q.threads && q.threads[tid].Pushing()
    requires Shared(q') && Extends(q, q')
    requires q'.threads == q.threads[tid := l]
    requires q'.mutex == if l.Pushing() then Some(tid) else None
    requires LocalValid(q', l) && Pusher(q', l) && Popper(q', l)
    ensures Inv(q')
  {
    assert Thread(q, tid, q.threads[tid]);
    forall k | k in q'.threads
      ensures Thread(q', k, q'.threads[k])
    {
      if k != tid {
        assert Thread(q, k, q.threads[k]);
        PopperKept(q, q', q.threads[k]);
      }
    }
  }

  /** Copying one more entry into a ring large enough for all of them. */
  lemma CopyGrows<T>(from: Ring<T>, copy: Ring<T>, t: nat, i: nat)
    requires from.Valid() && copy.Valid() && t <= i < t + copy.Capacity()
    requires forall j :: t <= j < i ==> copy.GetEntry(j) == from.GetEntry(j)
    ensures forall j :: t <= j < i + 1 ==> copy.SetEntry(i, from.GetEntry(i)).GetEntry(j) == from.GetEntry(j)
  {
    hide Ring.GetEntry; hide Ring.SetEntry;
    forall j | t <= j < i + 1
      ensures copy.SetEntry(i, from.GetEntry(i)).GetEntry(j) == from.GetEntry(j)
    {
      SetThenGet(copy, i, from.GetEntry(i), j);
    }
  }

  lemma CopyEntryKeeps<T>(q: Queue<T>, c: Choice<T>)
    requires Inv(q) && WellFormed(q) && c.tid in q.threads
    requires var l := q.threads[c.tid]; l.PushCopying? && l.i != l.b
    ensures Inv(Step(q, c))
  {
    hide Ring.GetEntry; hide Ring.SetEntry; hide Ring.Slot; hide Live; hide Popper;
    var l := q.threads[c.tid];
    assert Thread(q, c.tid, l);
    CopyGrows(q.rings[l.buf], l.copy, l.t, l.i);
    var copy := l.copy.SetEntry(l.i, q.rings[l.buf].GetEntry(l.i));
    LocalStep(q, c.tid, PushCopying(l.task, l.b, l.t, l.buf, copy, l.i + 1));
  }

  /** Publishing the doubled copy: it holds every task still in the queue. */
  lemma GrowKeeps<T>(q: Queue<T>, c: Choice<T>)
    requires Inv(q) && WellFormed(q) && c.tid in q.threads
    requires var l := q.threads[c.tid]; l.PushCopying? && l.i == l.b
    ensures Inv(Step(q, c))
  {
    var l := q.threads[c.tid];
    assert Thread(q, c.tid, l);
    var q' := Step(q, c);
    assert q'.rings[q'.current] == l.copy;
    assert Shared(q');
    PusherStep(q, q', c.tid, PushReady(l.task, l.b, l.t, |q.rings|));
  }

  /** Writing the new task cannot hit a slot that is still in use. */
  lemma WriteKeeps<T>(q: Queue<T>, c: Choice<T>)
    requires Inv(q) && WellFormed(q) && c.tid in q.threads && q.threads[c.tid].PushReady?
    ensures Inv(Step(q, c))
  {
    var l := q.threads[c.tid];
    assert Thread(q, c.tid, l);
    var q' := Step(q, c);
    var ring := q.rings[l.buf];
    forall i | q.top <= i < q.bottom
      ensures q'.rings[l.buf].GetEntry(i) == ring.GetEntry(i)
    {
      SetThenGet(ring, l.b, l.task, i);
    }
    SetThenGet(ring, l.b, l.task, l.b);
    PusherStep(q, q', c.tid, PushStored(l.task, l.b, l.t));
  }

  lemma PublishShares<T>(q: Queue<T>, c: Choice<T>)
    requires Inv(q) && WellFormed(q) && c.tid in q.threads && q.threads[c.tid].PushStored?
    ensures Shared(Step(q, c)) && Extends(q, Step(q, c))
  {
    hide And; hide Pow2;
    assert Thread(q, c.tid, q.threads[c.tid]);
    var q' := Step(q, c);
    assert q'.popped == q'.pushed[..q'.top];
  }

  lemma PublishKeeps<T>(q: Queue<T>, c: Choice<T>)
    requires Inv(q) && WellFormed(q) && c.tid in q.threads && q.threads[c.tid].PushStored?
    ensures Inv(Step(q, c))
  {
    var l := q.threads[c.tid];
    assert Thread(q, c.tid, l);
    var q' := Step(q, c);
    assert q'.popped == q'.pushed[..q'.top];
    PublishShares(q, c);
    PusherStep(q, q', c.tid, PushDone);
  }

  /** The winning CAS: the popper holds exactly the task that was pushed `t`-th. */
  lemma PopKeeps<T>(q: Queue<T>, c: Choice<T>)
    requires Inv(q) && WellFormed(q) && c.tid in q.threads
    requires var l := q.threads[c.tid]; l.PopGotTask? && l.t == q.top
    ensures Inv(Step(q, c))
  {
    var l := q.threads[c.tid];
    assert Thread(q, c.tid, l);
    var q' := Step(q, c);
    assert q.pushed[..q.top + 1] == q.pushed[..q.top] + [q.pushed[q.top]];
    forall k | k in q'.threads
      ensures Thread(q', k, q'.threads[k])
    {
      if k != c.tid {
        assert Thread(q, k, q.threads[k]);
      }
    }
  }

  lemma LockKeeps<T>(q: Queue<T>, c: Choice<T>)
    requires Inv(q) && WellFormed(q) && c.tid in q.threads
    requires q.threads[c.tid].Idle? && c.push.Some? && q.mutex.None?
    ensures Inv(Step(q, c))
  {
    var q' := Step(q, c);
    forall k | k in q'.threads
      ensures Thread(q', k, q'.threads[k])
    {
      assert Thread(q, k, q.threads[k]);
    }
  }

  lemma PopReadsKeep<T>(q: Queue<T>, c: Choice<T>)
    requires Inv(q) && WellFormed(q) && c.tid in q.threads
    requires var l := q.threads[c.tid];
      (l.Idle? && c.push.None?) || l.PopGotTop? || l.PopGotBottom? || l.PopGotBuffer? || (l.PopGotTask? && l.t != q.top)
    ensures Inv(Step(q, c))
  {
    assert Thread(q, c.tid, q.threads[c.tid]);
    LocalStep(q, c.tid, Step(q, c).threads[c.tid]);
  }

  lemma PushReadsKeep<T>(q: Queue<T>, c: Choice<T>)
    requires Inv(q) && WellFormed(q) && c.tid in q.threads
    requires var l := q.threads[c.tid]; l.PushLocked? || l.PushGotBottom? || l.PushGotTop? || l.PushGotBuffer?
    ensures Inv(Step(q, c))
  {
    assert Thread(q, c.tid, q.threads[c.tid]);
    if Step(q, c) != q {
      LocalStep(q, c.tid, Step(q, c).threads[c.tid]);
    }
  }

  lemma UnlockKeeps<T>(q: Queue<T>, c: Choice<T>)
    requires Inv(q) && WellFormed(q) && c.tid in q.threads && q.threads[c.tid].PushDone?
    ensures Inv(Step(q, c))
  {
    PusherStep(q, Step(q, c), c.tid, Idle);
  }

  lemma StepKeepsInv<T>(q: Queue<T>, c: Choice<T>)
    requires Inv(q)
    ensures WellFormed(q) && Inv(Step(q, c))
  {
    hide Inv;
    InvWellFormed(q);
    if c.tid in q.threads {
      match q.threads[c.tid]
      case Idle => if c.push.None? { PopReadsKeep(q, c); } else if q.mutex.None? { LockKeeps(q, c); }
      case PushCopying(_, b, _, _, _, i) => if i == b { GrowKeeps(q, c); } else { CopyEntryKeeps(q, c); }
      case PushReady(_, _, _, _) => WriteKeeps(q, c);
      case PushStored(_, _, _) => PublishKeeps(q, c);
      case PushDone => UnlockKeeps(q, c);
      case PopGotTask(t, _) => if t == q.top { PopKeeps(q, c); } else { PopReadsKeep(q, c); }
      case PopGotTop(_) => PopReadsKeep(q, c);
      case PopGotBottom(_, _) => PopReadsKeep(q, c);
      case PopGotBuffer(_, _) => PopReadsKeep(q, c);
      case _ => PushReadsKeep(q, c);
    }
  }

  // ---- Runs

  /** A schedule leads from `q` to `q'`. */
  ghost predicate Run<T>(q: Queue<T>, schedule: seq<Choice<T>>, q': Queue<T>)
    decreases |schedule|
  {
    if schedule == [] then q' == q
    else WellFormed(q) && Run(Step(q, schedule[0]), schedule[1..], q')
  }

  lemma {:induction false} RunKeepsInv<T>(q: Queue<T>, schedule: seq<Choice<T>>, q': Queue<T>)
    requires Inv(q) && Run(q, schedule, q')
    ensures Inv(q')
    decreases |schedule|
  {
    hide Inv; hide Step;
    if schedule != [] {
      StepKeepsInv(q, schedule[0]);
      RunKeepsInv(Step(q, schedule[0]), schedule[1..], q');
    }
  }

  /** No schedule ever gets stuck on an unallocated buffer or a bad index. */
  lemma {:induction false} EveryScheduleRuns<T>(q: Queue<T>, schedule: seq<Choice<T>>) returns (q': Queue<T>)
    requires Inv(q)
    ensures Run(q, schedule, q')
    decreases |schedule|
  {
    hide Inv; hide Step;
    if schedule == [] {
      return q;
    }
    StepKeepsInv(q, schedule[0]);
    q' := EveryScheduleRuns(Step(q, schedule[0]), schedule[1..]);
  }

  /**
   Queue correctness: in every state of every run from an empty queue, the successful
   pops are the first `top` pushes, in order, each once; and a popper whose CAS would
   now succeed holds the task pushed at that position, whatever happened to its slot or
   its buffer in the meantime.
   */
  lemma PopsFollowPushes<T>(q: Queue<T>, schedule: seq<Choice<T>>, q': Queue<T>)
    requires Init(q) && Run(q, schedule, q')
    ensures q'.popped <= q'.pushed && |q'.popped| == q'.top && |q'.pushed| == q'.bottom
    ensures q'.top == q'.bottom ==> q'.popped == q'.pushed
    ensures forall tid :: tid in q'.threads && q'.threads[tid].PopGotTask? && q'.threads[tid].t == q'.top ==>
      q'.top < |q'.pushed| && q'.threads[tid].ptr == q'.pushed[q'.top]
  {
    InitInv(q);
    RunKeepsInv(q, schedule, q');
    forall tid | tid in q'.threads && q'.threads[tid].PopGotTask? && q'.threads[tid].t == q'.top
      ensures q'.top < |q'.pushed| && q'.threads[tid].ptr == q'.pushed[q'.top]
    {
      assert Thread(q', tid, q'.threads[tid]);
    }
  }
}
