/**
 Whole calls on moodycamel's blocking queue: a consumer that holds permits always gets its
 items, and undisturbed calls of `enqueue_bulk` and `try_dequeue_bulk` do what they promise.
 */
module BlockingQueueCalls {
  import opened BlockingQueue
  import S = LightweightSemaphore
  import C = SemaphoreCalls

  /** All choices are of one thread. */
  ghost predicate Alone<T>(schedule: seq<Choice<T>>, t: nat) {
    forall i :: 0 <= i < |schedule| ==> schedule[i].s.t == t
  }

  /** The items `take` have moved from the bag to the consumers. */
  function Moved<T>(q: Queue<T>, take: multiset<T>): (q': Queue<T>) {
    q.(bag := q.bag - take, dequeued := q.dequeued + take)
  }

  // ---- The retry loop of a consumer

  lemma ThreadExists<T>(q: Queue<T>, schedule: seq<Choice<T>>)
    requires Init(q)
    ensures Inv(Run(q, schedule)) && |Run(q, schedule).clients| == |Run(q, schedule).sema.threads|
  {
    InitInv(q);
    RunKeepsInv(q, schedule);
  }

  /** What the inner queue hands to a retrying consumer, if it is not too much, is taken whole. */
  lemma TakesWhole<T>(q: Queue<T>, schedule: seq<Choice<T>>, c: Choice<T>)
    requires Init(q)
    requires var e := Run(q, schedule); c.s.t < |e.clients| && e.clients[c.s.t].Taking?
    requires var e := Run(q, schedule); c.take <= e.bag && |c.take| <= e.clients[c.s.t].need
    ensures var e, need := Run(q, schedule), Run(q, schedule).clients[c.s.t].need;
      Step(e, c) == Moved(Put(e, c.s.t, if need == 0 then Free else Taking(need - |c.take|)), c.take)
  {
    hide Run;
    ThreadExists(q, schedule);
    var e := Run(q, schedule);
    if e.clients[c.s.t].need == 0 {
      assert c.take == multiset{};
      assert e.bag - c.take == e.bag && e.dequeued + c.take == e.dequeued;
    }
  }

  /** Some part of a bag with exactly `n` items. */
  lemma {:induction false} PartOfSize<T>(bag: multiset<T>, n: nat) returns (part: multiset<T>)
    requires n <= |bag|
    ensures part <= bag && |part| == n
    decreases n
  {
    part := multiset{};
    if n > 0 {
      var x :| x in bag;
      part := PartOfSize(bag - multiset{x}, n - 1);
      part := part + multiset{x};
    }
  }

  lemma {:induction false} RunTwo<T>(q: Queue<T>, a: Choice<T>, b: Choice<T>)
    ensures Run(q, [a, b]) == Step(Step(q, a), b)
  {
    hide Step;
    assert [a, b][1..] == [b];
    assert Run(Step(q, a), [b]) == Run(Step(Step(q, a), b), []);
  }

  /** A move of thread `t` in which the inner queue hands out `take`. */
  function Take<T>(t: nat, take: multiset<T>): (c: Choice<T>) {
    Choice(S.Choice(t, S.Nothing, false, false, false), false, multiset{}, take)
  }

  /**
   A consumer inside its retry loop is never stranded: in every reachable state there is an item
   for each of its permits, and for every choice of that many items two of its own steps take them and leave.
   */
  lemma ConsumerFinishes<T>(q: Queue<T>, schedule: seq<Choice<T>>, t: nat)
    requires Init(q)
    requires var e := Run(q, schedule); t < |e.clients| && e.clients[t].Taking?
    ensures var e := Run(q, schedule); exists take :: take <= e.bag && |take| == e.clients[t].need
    ensures var e := Run(q, schedule); forall take :: take <= e.bag && |take| == e.clients[t].need ==>
      Run(e, [Take(t, take), Take(t, multiset{})]) == Moved(Put(e, t, Free), take)
  {
    hide Run; hide Step; hide Init; hide Inv;
    NeverStranded(q, schedule, t);
    var e := Run(q, schedule);
    var some := PartOfSize(e.bag, e.clients[t].need);
    forall take | take <= e.bag && |take| == e.clients[t].need
      ensures Run(e, [Take(t, take), Take(t, multiset{})]) == Moved(Put(e, t, Free), take)
    {
      ConsumerTakes(q, schedule, t, take);
    }
  }

  lemma ConsumerTakes<T>(q: Queue<T>, schedule: seq<Choice<T>>, t: nat, take: multiset<T>)
    requires Init(q)
    requires var e := Run(q, schedule); t < |e.clients| && e.clients[t].Taking?
    requires var e := Run(q, schedule); take <= e.bag && |take| == e.clients[t].need
    ensures var e := Run(q, schedule);
      Run(e, [Take(t, take), Take(t, multiset{})]) == Moved(Put(e, t, Free), take)
  {
    hide Run; hide Step; hide Init; hide Inv;
    var e := Run(q, schedule);
    RunTwo(e, Take(t, take), Take(t, multiset{}));
    TakesWhole(q, schedule, Take(t, take));
    ThreadExists(q, schedule);
    IdleWhileTaking(e, t);
    TwiceFree(e, t, take);
  }

  lemma IdleWhileTaking<T>(q: Queue<T>, t: nat)
    requires Inv(q) && t < |q.clients| && q.clients[t].Taking?
    ensures q.sema.threads[t].Idle?
  {
  }

  lemma TwiceFree<T>(e: Queue<T>, t: nat, take: multiset<T>)
    requires t < |e.clients| == |e.sema.threads| && e.clients[t].Taking? && e.clients[t].need == |take|
    requires e.clients[t].need == 0 ==> e.sema.threads[t].Idle?
    requires Step(e, Take(t, take)) == Moved(Put(e, t, if |take| == 0 then Free else Taking(0)), take)
    ensures Step(Step(e, Take(t, take)), Take(t, multiset{})) == Moved(Put(e, t, Free), take)
  {
    assert e.clients[t := Taking(0)][t := Free] == e.clients[t := Free];
  }

  // ---- Undisturbed calls

  lemma FirstStep<T>(q: Queue<T>, call: seq<Choice<T>>, i: nat, e: Queue<T>)
    requires i < |call| && Run(q, call[i..]) == e
    ensures Run(Step(q, call[i]), call[i + 1..]) == e
  {
    hide Step;
    assert call[i..][1..] == call[i + 1..];
  }

  /** A thread inside a semaphore call moves the semaphore and nothing else, until it returns. */
  lemma InsideCall<T>(q: Queue<T>, c: Choice<T>)
    requires c.s.t < |q.clients| == |q.sema.threads| && q.clients[c.s.t].Free?
    requires var l := q.sema.threads[c.s.t];
      if l.Idle? then !c.enqueue && (c.s.start.StartTry? || c.s.start.StartWait?) else !l.Done?
    ensures Step(q, c) == q.(sema := S.Step(q.sema, c.s))
  {
    hide S.Step;
  }

  /** The semaphore's part of an undisturbed dequeue, step by step. */
  lemma PermitSteps<T>(s: S.Sema, t: nat, max: nat, call: seq<Choice<T>>)
    requires t < |s.threads| && s.threads[t].Idle? && s.count > 0
    requires |call| >= 4 && Alone(call, t) && !call[2].s.spurious
    requires var b := call[0].s.start; (b.StartTry? || b.StartWait?) && b.max == max
    ensures var s1 := S.Step(s, call[0].s);
      var s2 := S.Step(s1, call[1].s);
      var s3 := S.Step(s2, call[2].s);
      && s1.threads[t].TryLoad? && s2.threads[t].TryCas? && s3.threads[t] == S.Done(S.Min(s.count, max))
      && S.Step(s3, call[3].s) == C.Handed(s, S.Min(s.count, max))
  {
    hide S.Step;
    var steps := [call[0].s, call[1].s, call[2].s, call[3].s];
    C.LoneTakes(s, t, max, steps);
    C.RunFour(s, steps);
    TryStates(s, call[0].s, call[1].s, call[2].s, max);
  }

  lemma TryStates(s: S.Sema, a: S.Choice, b: S.Choice, c: S.Choice, max: nat)
    requires a.t == b.t == c.t < |s.threads| && s.threads[a.t].Idle? && s.count > 0 && !c.spurious
    requires (a.start.StartTry? || a.start.StartWait?) && a.start.max == max
    ensures var s1 := S.Step(s, a);
      var s2 := S.Step(s1, b);
      s1.threads[a.t].TryLoad? && s2.threads[a.t].TryCas?
      && S.Step(s2, c).threads[a.t] == S.Done(S.Min(s.count, max))
  {
  }

  /** The first four steps of a dequeue get the permits. */
  lemma PermitsTaken<T>(q: Queue<T>, t: nat, max: nat, call: seq<Choice<T>>)
    requires t < |q.clients| == |q.sema.threads| && q.clients[t].Free? && q.sema.threads[t].Idle? && q.sema.count > 0
    requires |call| >= 4 && Alone(call, t) && !call[0].enqueue && !call[2].s.spurious
    requires var b := call[0].s.start; (b.StartTry? || b.StartWait?) && b.max == max
    ensures var n: nat := S.Min(q.sema.count, max);
      Run(q, call) == Run(Put(q, t, Taking(n)).(sema := C.Handed(q.sema, n)), call[4..])
  {
    hide Run; hide S.Step; hide Step; hide S.Min;
    var e := Run(q, call);
    assert call[0..] == call;
    PermitSteps(q.sema, t, max, call);
    var s1 := S.Step(q.sema, call[0].s);
    var s2 := S.Step(s1, call[1].s);
    var s3 := S.Step(s2, call[2].s);
    InsideCall(q, call[0]);
    FirstStep(q, call, 0, e);
    InsideCall(q.(sema := s1), call[1]);
    FirstStep(q.(sema := s1), call, 1, e);
    InsideCall(q.(sema := s2), call[2]);
    FirstStep(q.(sema := s2), call, 2, e);
    PermitsReturned(q.(sema := s3), call[3]);
    FirstStep(q.(sema := s3), call, 3, e);
  }

  /**
   An undisturbed `try_dequeue_bulk(max)` or `wait_dequeue_bulk(max)` on a positive count: as many
   items as the count allows, up to `max`, move from the bag to the caller, for every `take` the inner
   queue may choose to hand out.
   */
  lemma LoneDequeueTakes<T>(q: Queue<T>, t: nat, max: nat, take: multiset<T>, call: seq<Choice<T>>)
    requires t < |q.clients| == |q.sema.threads| && q.clients[t].Free? && q.sema.threads[t].Idle? && q.sema.count > 0
    requires |call| == 6 && Alone(call, t) && !call[0].enqueue && !call[2].s.spurious
    requires var b := call[0].s.start; (b.StartTry? || b.StartWait?) && b.max == max
    requires take <= q.bag && |take| == S.Min(q.sema.count, max) && call[4].take == take
    requires !call[5].enqueue && call[5].s.start.Nothing?
    ensures Run(q, call) == Moved(q, take).(sema := C.Handed(q.sema, |take|))
  {
    hide Run; hide Step; hide S.Min;
    var e := Run(q, call);
    PermitsTaken(q, t, max, call);
    var q4 := Put(q, t, Taking(|take|)).(sema := C.Handed(q.sema, |take|));
    FirstStep(q4, call, 4, e);
    FirstStep(Step(q4, call[4]), call, 5, e);
    TakeAndLeave(q4, call[4], call[5]);
    RunEnd(Step(Step(q4, call[4]), call[5]));
    assert call[6..] == [] && q.clients[t := Taking(|take|)][t := Free] == q.clients;
  }

  lemma RunEnd<T>(q: Queue<T>)
    ensures Run(q, []) == q
  {
  }

  lemma PermitsReturned<T>(q: Queue<T>, c: Choice<T>)
    requires c.s.t < |q.clients| == |q.sema.threads| && q.clients[c.s.t].Free? && q.sema.threads[c.s.t].Done?
    ensures Step(q, c) == Put(q, c.s.t, Taking(q.sema.threads[c.s.t].got)).(sema := S.Step(q.sema, c.s))
  {
    hide S.Step;
  }

  lemma TakeAndLeave<T>(q: Queue<T>, c: Choice<T>, last: Choice<T>)
    requires c.s.t == last.s.t < |q.clients| == |q.sema.threads| && q.clients[c.s.t] == Taking(|c.take|)
    requires c.take <= q.bag && q.sema.threads[c.s.t].Idle? && !last.enqueue && last.s.start.Nothing?
    ensures Step(Step(q, c), last) == Moved(Put(q, c.s.t, Free), c.take)
  {
    hide S.Step;
    assert q.clients[c.s.t := Taking(0)][c.s.t := Free] == q.clients[c.s.t := Free];
    if |c.take| == 0 {
      assert c.take == multiset{} && q.bag - c.take == q.bag && q.dequeued + c.take == q.dequeued;
    }
  }

  /** The kernel posts at the end of an enqueue. */
  lemma {:induction false} PostsAll<T>(q: Queue<T>, t: nat, call: seq<Choice<T>>)
    requires t < |q.clients| == |q.sema.threads| && q.clients[t].Free? && q.sema.threads[t].Posting?
    requires |call| == q.sema.threads[t].pending + 1 && Alone(call, t)
    ensures Run(q, call) == q.(sema := q.sema.(tokens := q.sema.tokens + q.sema.threads[t].pending,
                                               threads := q.sema.threads[t := S.Idle]))
    decreases |call|
  {
    hide Run; hide Step;
    InsideCall(q, call[0]);
    assert call[0..] == call;
    FirstStep(q, call, 0, Run(q, call));
    if q.sema.threads[t].pending > 0 {
      var q1 := Step(q, call[0]);
      PostsAll(q1, t, call[1..]);
      assert q1.sema.threads[t := S.Idle] == q.sema.threads[t := S.Idle];
    } else {
      assert call[1..] == [];
      RunEnd(Step(q, call[0]));
    }
  }

  /** The first two steps of an enqueue: the items go in, then the count is raised. */
  lemma ItemsPut<T>(q: Queue<T>, a: Choice<T>, b: Choice<T>)
    requires a.s.t == b.s.t < |q.clients| == |q.sema.threads| && q.clients[a.s.t].Free? && q.sema.threads[a.s.t].Idle?
    requires a.enqueue
    ensures var n := |a.put|;
      Step(Step(q, a), b) == q.(bag := q.bag + a.put, enqueued := q.enqueued + a.put,
        sema := S.Put(q.sema, a.s.t, S.Posting(S.Pos(S.Min(-q.sema.count, n))))
          .(count := q.sema.count + n, signalled := q.sema.signalled + n))
  {
    var t := a.s.t;
    assert q.clients[t := Signalling(|a.put|)][t := Free] == q.clients;
  }

  /**
   An undisturbed `enqueue_bulk`: the items are in the bag, the count has grown by their number, and
   each waiter this covers has its token.
   */
  lemma LoneEnqueueAdds<T>(q: Queue<T>, t: nat, items: multiset<T>, call: seq<Choice<T>>)
    requires t < |q.clients| == |q.sema.threads| && q.clients[t].Free? && q.sema.threads[t].Idle?
    requires |call| == S.Pos(S.Min(-q.sema.count, |items|)) + 3 && Alone(call, t)
    requires call[0].enqueue && call[0].put == items
    ensures Run(q, call) == q.(bag := q.bag + items, enqueued := q.enqueued + items,
      sema := q.sema.(count := q.sema.count + |items|, signalled := q.sema.signalled + |items|,
                      tokens := q.sema.tokens + S.Pos(S.Min(-q.sema.count, |items|))))
  {
    hide Run; hide Step; hide S.Min; hide S.Pos;
    var e := Run(q, call);
    assert call[0..] == call;
    FirstStep(q, call, 0, e);
    FirstStep(Step(q, call[0]), call, 1, e);
    ItemsPut(q, call[0], call[1]);
    var q2 := Step(Step(q, call[0]), call[1]);
    PostsAll(q2, t, call[2..]);
    assert q2.sema.threads[t := S.Idle] == q.sema.threads;
  }
}
