/**
 `moodycamel::BlockingConcurrentQueue`: a lock-free queue, seen here as a bag whose
 `try_dequeue` may fail or return fewer items than asked for, and a semaphore that
 counts its items.  Producers put items in the bag first and signal afterwards;
 consumers obtain permits first and then retry until they have an item for each.
 */
module BlockingQueue {
  import opened Sums
  import S = LightweightSemaphore

  /** What a thread does around the semaphore. */
  datatype Client =
    | Free
    | Signalling(n: nat)   // enqueue_bulk put n items in; sema->signal(n) comes next
    | Taking(need: nat)    // `while (count != max)`: need = max - count

  datatype Queue<T> = Queue(
    sema: S.Sema,
    clients: seq<Client>,
    bag: multiset<T>,
    enqueued: multiset<T>,
    dequeued: multiset<T>)

  /** `put`: the items an idle thread enqueues; `take`: what the inner queue hands out. */
  datatype Choice<T> = Choice(s: S.Choice, enqueue: bool, put: multiset<T>, take: multiset<T>)

  function Put<T>(q: Queue<T>, t: nat, c: Client): (q': Queue<T>)
    requires t < |q.clients|
  {
    q.(clients := q.clients[t := c])
  }

  function Step<T>(q: Queue<T>, c: Choice<T>): (q': Queue<T>)
    ensures |q'.clients| == |q.clients| && |q'.sema.threads| == |q.sema.threads|
  {
    var t := c.s.t;
    if t >= |q.clients| || t >= |q.sema.threads| then q else
    match q.clients[t]
    case Signalling(n) => Put(q, t, Free).(sema := S.Step(q.sema, c.s.(start := S.StartSignal(n))))
    case Taking(need) =>
      if need == 0 then Put(q, t, Free)
      else if c.take <= q.bag && |c.take| <= need then
        Put(q, t, Taking(need - |c.take|)).(bag := q.bag - c.take, dequeued := q.dequeued + c.take)
      else q
    case Free =>
      var l := q.sema.threads[t];
      if l.Idle? then
        if c.enqueue then
          Put(q, t, Signalling(|c.put|)).(bag := q.bag + c.put, enqueued := q.enqueued + c.put)
        else if c.s.start.StartTry? || c.s.start.StartWait? then q.(sema := S.Step(q.sema, c.s))
        else q
      else if l.Done? then Put(q, t, Taking(l.got)).(sema := S.Step(q.sema, c.s))
      else q.(sema := S.Step(q.sema, c.s))
  }

  function About(c: Client): int { if c.Signalling? then c.n else 0 }
  function Need(c: Client): int { if c.Taking? then c.need else 0 }

  ghost predicate Inv<T>(q: Queue<T>) {
    && S.Inv(q.sema) && q.sema.initial == 0 && |q.clients| == |q.sema.threads|
    && (forall i :: 0 <= i < |q.clients| && !q.clients[i].Free? ==> q.sema.threads[i].Idle?)
    && q.enqueued == q.bag + q.dequeued
    && |q.bag| == q.sema.signalled - q.sema.returned + Total(q.clients, About) + Total(q.clients, Need)
  }

  ghost predicate Init<T>(q: Queue<T>) {
    && S.Init(q.sema) && q.sema.initial == 0 && |q.clients| == |q.sema.threads|
    && (forall i :: 0 <= i < |q.clients| ==> q.clients[i] == Free)
    && q.bag == q.enqueued == q.dequeued == multiset{}
  }

  lemma {:induction false} FreeTotals(cs: seq<Client>)
    requires forall i :: 0 <= i < |cs| ==> cs[i] == Free
    ensures Total(cs, About) == Total(cs, Need) == 0
  {
    if cs != [] {
      FreeTotals(cs[1..]);
    }
  }

  lemma InitInv<T>(q: Queue<T>)
    requires Init(q)
    ensures Inv(q)
  {
    S.InitInv(q.sema);
    FreeTotals(q.clients);
  }

  /** How a semaphore step moves the two counters the queue depends on. */
  lemma SemaCounters(s: S.Sema, c: S.Choice)
    requires c.t < |s.threads|
    ensures var s' := S.Step(s, c);
      && s'.threads == s.threads[c.t := s'.threads[c.t]] && s'.initial == s.initial
      && s'.signalled == s.signalled + (if s.threads[c.t].Idle? && c.start.StartSignal? then c.start.n else 0)
      && s'.returned == s.returned + (if s.threads[c.t].Done? then s.threads[c.t].got else 0)
      && (s.threads[c.t].Done? ==> s'.threads[c.t].Idle?)
  {
    assert s.threads[c.t := s.threads[c.t]] == s.threads;
  }

  lemma StepKeepsInv<T>(q: Queue<T>, c: Choice<T>)
    requires Inv(q)
    ensures Inv(Step(q, c))
  {
    var t := c.s.t;
    if t < |q.clients| {
      hide Step; hide Inv;
      if q.clients[t].Free? {
        FreeKeeps(q, c);
      } else if q.clients[t].Taking? {
        TakingKeeps(q, c);
      } else {
        SignallingKeeps(q, c);
      }
    }
  }

  lemma SignallingKeeps<T>(q: Queue<T>, c: Choice<T>)
    requires Inv(q) && c.s.t < |q.clients| && q.clients[c.s.t].Signalling?
    ensures Inv(Step(q, c))
  {
    hide S.Step; hide S.Inv;
    var t := c.s.t;
    TotalUpdate(q.clients, t, Free, About);
    TotalUpdate(q.clients, t, Free, Need);
    var sc := c.s.(start := S.StartSignal(q.clients[t].n));
    S.StepKeepsInv(q.sema, sc);
    SemaCounters(q.sema, sc);
  }

  lemma TakingKeeps<T>(q: Queue<T>, c: Choice<T>)
    requires Inv(q) && c.s.t < |q.clients| && q.clients[c.s.t].Taking?
    ensures Inv(Step(q, c))
  {
    hide S.Step; hide S.Inv;
    var t := c.s.t;
    var x := Step(q, c).clients[t];
    TotalUpdate(q.clients, t, x, About);
    TotalUpdate(q.clients, t, x, Need);
    if c.take <= q.bag {
      assert q.bag == (q.bag - c.take) + c.take;
    }
  }

  lemma FreeKeeps<T>(q: Queue<T>, c: Choice<T>)
    requires Inv(q) && c.s.t < |q.clients| && q.clients[c.s.t].Free?
    ensures Inv(Step(q, c))
  {
    hide S.Step; hide S.Inv;
    var t := c.s.t;
    var x := Step(q, c).clients[t];
    TotalUpdate(q.clients, t, x, About);
    TotalUpdate(q.clients, t, x, Need);
    S.StepKeepsInv(q.sema, c.s);
    SemaCounters(q.sema, c.s);
  }

  function Run<T>(q: Queue<T>, schedule: seq<Choice<T>>): (q': Queue<T>)
    decreases |schedule|
  {
    if schedule == [] then q else Run(Step(q, schedule[0]), schedule[1..])
  }

  lemma {:induction false} RunKeepsInv<T>(q: Queue<T>, schedule: seq<Choice<T>>)
    requires Inv(q)
    ensures Inv(Run(q, schedule))
    decreases |schedule|
  {
    hide Inv; hide Step;
    if schedule != [] {
      StepKeepsInv(q, schedule[0]);
      RunKeepsInv(Step(q, schedule[0]), schedule[1..]);
    }
  }

  /**
   In every reachable state the bag holds exactly one item for every permit: available
   in user space, posted or owed to the kernel semaphore, in the hand of a waiter that has
   passed it, needed by a consumer that is retrying, or about to be signalled.
   */
  lemma ItemPerPermit<T>(q: Queue<T>, schedule: seq<Choice<T>>)
    requires Init(q)
    ensures var e := Run(q, schedule);
      && |e.bag| == S.Pos(e.sema.count) + e.sema.tokens + S.Pending(e.sema) + S.Held(e.sema)
                    + Total(e.clients, Need) + Total(e.clients, About)
      && e.enqueued == e.bag + e.dequeued
  {
    InitInv(q);
    RunKeepsInv(q, schedule);
  }

  /** A consumer inside its retry loop always has enough items to take: it is never stranded. */
  lemma NeverStranded<T>(q: Queue<T>, schedule: seq<Choice<T>>, t: nat)
    requires Init(q)
    requires var e := Run(q, schedule); t < |e.clients| && e.clients[t].Taking?
    ensures var e := Run(q, schedule); e.clients[t].need <= |e.bag|
  {
    ItemPerPermit(q, schedule);
    var e := Run(q, schedule);
    ShareBound(e.clients, t, Need);
    TotalNonNegative(e.clients, About);
    TotalNonNegative(e.sema.threads, S.Owed);
    TotalNonNegative(e.sema.threads, S.InHand);
  }

  /** Once every thread is idle again, the count is the number of items in the bag. */
  lemma QuietCountIsSize<T>(q: Queue<T>, schedule: seq<Choice<T>>)
    requires Init(q)
    requires var e := Run(q, schedule);
      forall i :: 0 <= i < |e.clients| ==> e.clients[i] == Free && i < |e.sema.threads| && e.sema.threads[i] == S.Idle
    ensures var e := Run(q, schedule); |e.bag| == e.sema.count
  {
    InitInv(q);
    RunKeepsInv(q, schedule);
    var e := Run(q, schedule);
    S.IdleTotals(e.sema.threads);
    FreeTotals(e.clients);
  }
}
