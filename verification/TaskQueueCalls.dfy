/**
 Whole calls of `push` and `try_pop` of quickpool's task queue, from the first atomic
 step of a thread to the one in which it returns, with all other threads free to
 interleave: what a call that returns has done, and what a thread left alone achieves.
 */
module TaskQueueCalls {
  import opened Arith
  import opened Wrappers
  import opened TaskQueue

  /** The run passes through the state `m`. */
  ghost predicate Passes<T>(q: Queue<T>, schedule: seq<Choice<T>>, m: Queue<T>)
    decreases |schedule|
  {
    m == q || (schedule != [] && WellFormed(q) && Passes(Step(q, schedule[0]), schedule[1..], m))
  }

  /** Thread `tid` is inside one call in all states of the run. */
  ghost predicate Busy<T>(q: Queue<T>, schedule: seq<Choice<T>>, tid: ThreadId)
    decreases |schedule|
  {
    && tid in q.threads && !q.threads[tid].Idle?
    && (schedule != [] ==> WellFormed(q) && Busy(Step(q, schedule[0]), schedule[1..], tid))
  }

  // ---- What other threads leave alone

  lemma OthersStep<T>(q: Queue<T>, c: Choice<T>, tid: ThreadId)
    requires WellFormed(q) && tid in q.threads && c.tid != tid
    ensures tid in Step(q, c).threads && Step(q, c).threads[tid] == q.threads[tid]
  {
    hide Ring.SetEntry; hide Ring.GetEntry;
  }

  lemma StepGrows<T>(q: Queue<T>, c: Choice<T>)
    requires Inv(q) && WellFormed(q)
    ensures q.top <= Step(q, c).top && q.bottom <= Step(q, c).bottom
  {
    hide Ring.SetEntry; hide Ring.GetEntry; hide Live; hide Popper;
    if c.tid in q.threads {
      assert Thread(q, c.tid, q.threads[c.tid]);
    }
  }

  lemma {:induction false} RunGrows<T>(q: Queue<T>, schedule: seq<Choice<T>>, e: Queue<T>)
    requires Inv(q) && Run(q, schedule, e)
    ensures q.top <= e.top && q.bottom <= e.bottom
    decreases |schedule|
  {
    hide Inv; hide Step;
    if schedule != [] {
      StepKeepsInv(q, schedule[0]);
      StepGrows(q, schedule[0]);
      RunGrows(Step(q, schedule[0]), schedule[1..], e);
    }
  }

  // ---- try_pop

  /** Where a `try_pop` that loaded `t` can be once it has read `bottom_`, if it read `b`. */
  ghost predicate PopStage<T>(l: Local<T>, t: nat, b: nat) {
    || l == PopGotBottom(t, b)
    || (l.PopGotBuffer? && l.t == t && t < b)
    || (l.PopGotTask? && l.t == t && t < b)
  }

  lemma PopStageStep<T>(q: Queue<T>, c: Choice<T>, tid: ThreadId, t: nat, b: nat)
    requires WellFormed(q) && tid in q.threads && PopStage(q.threads[tid], t, b)
    requires tid in Step(q, c).threads && !Step(q, c).threads[tid].Idle?
    ensures PopStage(Step(q, c).threads[tid], t, b)
  {
    if c.tid != tid {
      OthersStep(q, c, tid);
    }
  }

  lemma {:induction false} PopStageRun<T>(
    q: Queue<T>, schedule: seq<Choice<T>>, e: Queue<T>, tid: ThreadId, t: nat, b: nat)
    requires Run(q, schedule, e) && Busy(q, schedule, tid) && PopStage(q.threads[tid], t, b)
    ensures tid in e.threads && PopStage(e.threads[tid], t, b)
    decreases |schedule|
  {
    hide Step; hide PopStage;
    if schedule != [] {
      PopStageStep(q, schedule[0], tid, t, b);
      PopStageRun(Step(q, schedule[0]), schedule[1..], e, tid, t, b);
    }
  }

  /** The step that reads `bottom_`. */
  lemma ReadBottom<T>(q: Queue<T>, c: Choice<T>, t: nat)
    requires Inv(q) && WellFormed(q) && c.tid in q.threads && q.threads[c.tid] == PopGotTop(t)
    ensures t <= q.top && c.tid in Step(q, c).threads && PopStage(Step(q, c).threads[c.tid], t, q.bottom)
  {
    assert Thread(q, c.tid, q.threads[c.tid]);
  }

  /** A `try_pop` that has loaded `t` is still before its second load, or read `bottom_` in a state it passed. */
  lemma {:induction false} PopProgress<T>(q: Queue<T>, schedule: seq<Choice<T>>, e: Queue<T>, tid: ThreadId, t: nat)
    returns (m: Queue<T>)
    requires Inv(q) && Run(q, schedule, e) && Busy(q, schedule, tid) && q.threads[tid] == PopGotTop(t)
    ensures Passes(q, schedule, m) && Inv(m) && t <= m.top
    ensures tid in e.threads && (e.threads[tid] == PopGotTop(t) || PopStage(e.threads[tid], t, m.bottom))
    decreases |schedule|
  {
    hide Step; hide PopStage; hide Inv;
    m := q;
    if schedule == [] {
      assert t <= q.top by { StillPopping(q, tid, t); }
    } else {
      var c := schedule[0];
      StepKeepsInv(q, c);
      if c.tid == tid {
        ReadBottom(q, c, t);
        PopStageRun(Step(q, c), schedule[1..], e, tid, t, q.bottom);
      } else {
        OthersStep(q, c, tid);
        m := PopProgress(Step(q, c), schedule[1..], e, tid, t);
      }
    }
  }

  lemma StillPopping<T>(q: Queue<T>, tid: ThreadId, t: nat)
    requires Inv(q) && tid in q.threads && q.threads[tid] == PopGotTop(t)
    ensures t <= q.top
  {
    assert Thread(q, tid, q.threads[tid]);
  }

  /** An idle thread is about to take its first step. */
  ghost predicate Started<T>(a: Queue<T>, c: Choice<T>) {
    WellFormed(a) && c.tid in a.threads && a.threads[c.tid].Idle?
  }

  /**
   Every `try_pop` of every run, from the state `a` in which it starts to its last step from `e`.
   It hands out the next task exactly when it reaches its CAS with `top_` unmoved; otherwise it takes
   nothing, and then either the queue was really empty in a state passed during the call, or another
   pop took the task that was next when the call began.
   */
  lemma PopReturns<T>(
    q: Queue<T>, before: seq<Choice<T>>, a: Queue<T>, start: Choice<T>,
    during: seq<Choice<T>>, e: Queue<T>, last: Choice<T>)
    requires Init(q) && Run(q, before, a) && Started(a, start) && start.push.None?
    requires Run(Step(a, start), during, e) && Busy(Step(a, start), during, start.tid)
    requires last.tid == start.tid
    ensures WellFormed(e) && a.top <= e.top
    ensures start.tid in Step(e, last).threads
    ensures Step(e, last).threads[start.tid].Idle? ==>
      || (e.top == a.top < |e.pushed| && Step(e, last).top == a.top + 1
          && Step(e, last).popped == e.popped + [e.pushed[a.top]])
      || (Step(e, last).popped == e.popped
          && (e.top > a.top || exists m :: Passes(Step(a, start), during, m) && m.top == m.bottom == a.top))
  {
    hide Inv; hide Busy; hide Passes; hide PopStage; hide Init;
    var tid := start.tid;
    InitInv(q);
    RunKeepsInv(q, before, a);
    StepKeepsInv(a, start);
    RunKeepsInv(Step(a, start), during, e);
    InvWellFormed(e);
    RunGrows(Step(a, start), during, e);
    var m := PopProgress(Step(a, start), during, e, tid, a.top);
    LastStep(e, last, a.top, m.bottom);
    if a.top >= m.bottom {
      TopBelowBottom(m);
      assert m.top == m.bottom == a.top;
    }
  }

  lemma TopBelowBottom<T>(q: Queue<T>)
    requires Inv(q)
    ensures q.top <= q.bottom
  {
  }

  /** The step in which a `try_pop` that loaded `t` returns. */
  lemma LastStep<T>(e: Queue<T>, c: Choice<T>, t: nat, b: nat)
    requires Inv(e) && WellFormed(e) && c.tid in e.threads
    requires e.threads[c.tid] == PopGotTop(t) || PopStage(e.threads[c.tid], t, b)
    ensures c.tid in Step(e, c).threads
    ensures Step(e, c).threads[c.tid].Idle? ==>
      if e.threads[c.tid].PopGotTask? && e.top == t
      then t < |e.pushed| && Step(e, c).popped == e.popped + [e.pushed[t]] && Step(e, c).top == t + 1
      else Step(e, c).popped == e.popped && (e.top > t || t >= b)
  {
    assert Thread(e, c.tid, e.threads[c.tid]);
  }

  /** All choices are of one thread. */
  ghost predicate Alone<T>(schedule: seq<Choice<T>>, tid: ThreadId) {
    forall i :: 0 <= i < |schedule| ==> schedule[i].tid == tid
  }

  /**
   In every reachable state, the five steps of a `try_pop` that no other thread disturbs hand out
   the task at the top, and change nothing else.
   */
  lemma LonePopTakes<T>(
    q: Queue<T>, before: seq<Choice<T>>, a: Queue<T>, tid: ThreadId, call: seq<Choice<T>>, e: Queue<T>)
    requires Init(q) && Run(q, before, a) && tid in a.threads && a.threads[tid].Idle? && a.top < a.bottom
    requires |call| == 5 && Alone(call, tid) && call[0].push.None? && Run(a, call, e)
    ensures a.top < |a.pushed| && e == a.(top := a.top + 1, popped := a.popped + [a.pushed[a.top]])
  {
    hide Run; hide Init; hide Inv; hide Step;
    InitInv(q);
    RunKeepsInv(q, before, a);
    FirstStep(a, call, e);
    PopLoadsTop(a, call[0]);
    FirstStep(Put(a, tid, PopGotTop(a.top)), call[1..], e);
    PopMoves(a, tid, PopGotTop(a.top), call[1]);
    FirstStep(Put(a, tid, PopGotBottom(a.top, a.bottom)), call[2..], e);
    PopMoves(a, tid, PopGotBottom(a.top, a.bottom), call[2]);
    FirstStep(Put(a, tid, PopGotBuffer(a.top, a.current)), call[3..], e);
    PopMoves(a, tid, PopGotBuffer(a.top, a.current), call[3]);
    FirstStep(Put(a, tid, PopGotTask(a.top, a.pushed[a.top])), call[4..], e);
    PopMoves(a, tid, PopGotTask(a.top, a.pushed[a.top]), call[4]);
    RunEnd(Step(Put(a, tid, PopGotTask(a.top, a.pushed[a.top])), call[4]), call[5..], e);
    assert a.threads[tid := Idle] == a.threads;
  }

  lemma PopLoadsTop<T>(a: Queue<T>, c: Choice<T>)
    requires WellFormed(a) && c.tid in a.threads && a.threads[c.tid].Idle? && c.push.None?
    ensures Step(a, c) == Put(a, c.tid, PopGotTop(a.top))
  {
  }

  /** The later steps of an undisturbed `try_pop` on a queue that is not empty. */
  lemma PopMoves<T>(a: Queue<T>, tid: ThreadId, l: Local<T>, c: Choice<T>)
    requires Inv(a) && tid in a.threads && c.tid == tid && a.top < a.bottom && WellFormed(Put(a, tid, l))
    ensures a.top < |a.pushed|
    ensures var q' := Step(Put(a, tid, l), c);
      && (l == PopGotTop(a.top) ==> q' == Put(a, tid, PopGotBottom(a.top, a.bottom)))
      && (l == PopGotBottom(a.top, a.bottom) ==> q' == Put(a, tid, PopGotBuffer(a.top, a.current)))
      && (l == PopGotBuffer(a.top, a.current) ==> q' == Put(a, tid, PopGotTask(a.top, a.pushed[a.top])))
      && (l == PopGotTask(a.top, a.pushed[a.top]) ==>
            q' == Put(a, tid, Idle).(top := a.top + 1, popped := a.popped + [a.pushed[a.top]]))
  {
    hide Ring.GetEntry; hide Thread; hide Ring.SetEntry;
    var l' := Step(Put(a, tid, l), c).threads[tid];
    assert a.threads[tid := l][tid := l'] == a.threads[tid := l'];
  }

  lemma FirstStep<T>(q: Queue<T>, schedule: seq<Choice<T>>, e: Queue<T>)
    requires schedule != [] && Run(q, schedule, e)
    ensures WellFormed(q) && Run(Step(q, schedule[0]), schedule[1..], e)
  {
  }

  lemma RunEnd<T>(q: Queue<T>, schedule: seq<Choice<T>>, e: Queue<T>)
    requires schedule == [] && Run(q, schedule, e)
    ensures e == q
  {
  }

  // ---- push

  /** A `push` of `task` that began behind `sofar`. */
  ghost predicate PushStage<T>(q: Queue<T>, l: Local<T>, sofar: seq<T>, task: T) {
    && l.Pushing()
    && (if l.PushDone? then q.pushed == sofar + [task] else l.task == task && q.pushed == sofar)
  }

  /** While one thread holds the mutex, no other one adds a task. */
  lemma OthersPushNothing<T>(q: Queue<T>, c: Choice<T>, tid: ThreadId)
    requires Inv(q) && WellFormed(q) && tid in q.threads && c.tid != tid && q.threads[tid].Pushing()
    ensures Step(q, c).pushed == q.pushed
  {
    hide Ring.SetEntry; hide Ring.GetEntry; hide Live; hide Popper; hide Pusher;
    assert Thread(q, tid, q.threads[tid]);
    if c.tid in q.threads {
      assert Thread(q, c.tid, q.threads[c.tid]);
    }
  }

  lemma PushStageStep<T>(q: Queue<T>, c: Choice<T>, tid: ThreadId, sofar: seq<T>, task: T)
    requires Inv(q) && WellFormed(q) && tid in q.threads && PushStage(q, q.threads[tid], sofar, task)
    ensures tid in Step(q, c).threads
    ensures PushStage(Step(q, c), Step(q, c).threads[tid], sofar, task)
            || (Step(q, c).threads[tid].Idle? && Step(q, c).pushed == sofar + [task])
  {
    hide Ring.SetEntry; hide Ring.GetEntry; hide Inv;
    if c.tid != tid {
      OthersStep(q, c, tid);
      OthersPushNothing(q, c, tid);
    }
  }

  lemma {:induction false} PushStageRun<T>(
    q: Queue<T>, schedule: seq<Choice<T>>, e: Queue<T>, tid: ThreadId, sofar: seq<T>, task: T)
    requires Inv(q) && Run(q, schedule, e) && Busy(q, schedule, tid) && PushStage(q, q.threads[tid], sofar, task)
    ensures tid in e.threads && PushStage(e, e.threads[tid], sofar, task)
    decreases |schedule|
  {
    hide Step; hide Inv;
    if schedule != [] {
      StepKeepsInv(q, schedule[0]);
      PushStageStep(q, schedule[0], tid, sofar, task);
      PushStageRun(Step(q, schedule[0]), schedule[1..], e, tid, sofar, task);
    }
  }

  /** Every `push` of every run: once it returns, its task and no other has been added since it took the mutex. */
  lemma PushReturns<T>(
    q: Queue<T>, before: seq<Choice<T>>, a: Queue<T>, start: Choice<T>,
    during: seq<Choice<T>>, e: Queue<T>, last: Choice<T>)
    requires Init(q) && Run(q, before, a) && Started(a, start) && start.push.Some? && a.mutex.None?
    requires Run(Step(a, start), during, e) && Busy(Step(a, start), during, start.tid)
    requires last.tid == start.tid
    ensures WellFormed(e) && start.tid in Step(e, last).threads
    ensures Step(e, last).threads[start.tid].Idle? ==> Step(e, last).pushed == a.pushed + [start.push.value]
  {
    hide Inv; hide Busy; hide Init;
    InitInv(q);
    RunKeepsInv(q, before, a);
    StepKeepsInv(a, start);
    PushStageRun(Step(a, start), during, e, start.tid, a.pushed, start.push.value);
    RunKeepsInv(Step(a, start), during, e);
    InvWellFormed(e);
    PushStageStep(e, last, start.tid, a.pushed, start.push.value);
  }

  /** How far a `push` is from its end. */
  function Rank<T>(l: Local<T>): (r: nat) {
    match l
    case PushLocked(_) => 8
    case PushGotBottom(_, _) => 7
    case PushGotTop(_, _, _) => 6
    case PushGotBuffer(_, _, _, _) => 5
    case PushCopying(_, _, _, _, _, _) => 4
    case PushReady(_, _, _, _) => 3
    case PushStored(_, _, _) => 2
    case PushDone => 1
    case _ => 0
  }

  function ToCopy<T>(l: Local<T>): (n: nat) {
    if l.PushCopying? && l.i <= l.b then l.b - l.i else 0
  }

  /** A step of the thread that holds the mutex, with memory for a doubled buffer at hand. */
  function PushMove<T>(q: Queue<T>, tid: ThreadId): (c: Choice<T>)
    requires WellFormed(q) && tid in q.threads && q.threads[tid].Pushing()
  {
    var l := q.threads[tid];
    assert LocalValid(q, l);
    Choice(tid, None, if l.PushGotBuffer? then seq(Pow2(q.rings[l.buf].bits + 1), _ => l.task) else [])
  }

  /** It never waits: each of its steps brings it nearer to the end. */
  lemma PushMoves<T>(q: Queue<T>, tid: ThreadId)
    requires Inv(q) && WellFormed(q) && tid in q.threads && q.threads[tid].Pushing()
    ensures var q' := Step(q, PushMove(q, tid));
      && q'.threads == q.threads[tid := q'.threads[tid]]
      && (q'.threads[tid].Pushing() || q'.threads[tid].Idle?)
      && (|| Rank(q'.threads[tid]) < Rank(q.threads[tid])
          || (Rank(q'.threads[tid]) == Rank(q.threads[tid]) && ToCopy(q'.threads[tid]) < ToCopy(q.threads[tid])))
  {
    hide Ring.SetEntry; hide Ring.GetEntry; hide Live; hide Popper;
    assert Thread(q, tid, q.threads[tid]);
  }

  /** The holder of the mutex, left alone, finishes its `push`. */
  lemma {:induction false} FinishPush<T>(q: Queue<T>, tid: ThreadId, sofar: seq<T>, task: T)
    returns (call: seq<Choice<T>>, e: Queue<T>)
    requires Inv(q) && tid in q.threads && PushStage(q, q.threads[tid], sofar, task)
    ensures Alone(call, tid) && Run(q, call, e)
    ensures e.threads == q.threads[tid := Idle] && e.pushed == sofar + [task]
    decreases Rank(q.threads[tid]), ToCopy(q.threads[tid])
  {
    hide Step; hide Inv; hide Rank; hide ToCopy; hide PushMove;
    InvWellFormed(q);
    var c := PushMove(q, tid);
    var q' := Step(q, c);
    PushMoves(q, tid);
    PushStageStep(q, c, tid, sofar, task);
    StepKeepsInv(q, c);
    assert c.tid == tid by { MovesItself(q, tid); }
    if q'.threads[tid].Idle? {
      call, e := [], q';
    } else {
      call, e := FinishPush(q', tid, sofar, task);
    }
    var later := call;
    call := [c] + later;
    assert call[1..] == later;
  }

  lemma MovesItself<T>(q: Queue<T>, tid: ThreadId)
    requires WellFormed(q) && tid in q.threads && q.threads[tid].Pushing()
    ensures PushMove(q, tid).tid == tid
  {
  }

  /** In every reachable state whose mutex is free, an idle thread can push any task by its own steps. */
  lemma LonePushAdds<T>(q: Queue<T>, before: seq<Choice<T>>, a: Queue<T>, tid: ThreadId, task: T)
    returns (call: seq<Choice<T>>, e: Queue<T>)
    requires Init(q) && Run(q, before, a) && tid in a.threads && a.threads[tid].Idle? && a.mutex.None?
    ensures Alone(call, tid) && Run(a, call, e)
    ensures e.threads == a.threads && e.pushed == a.pushed + [task]
  {
    hide Inv; hide Init;
    InitInv(q);
    RunKeepsInv(q, before, a);
    var c := Choice(tid, Some(task), []);
    StepKeepsInv(a, c);
    var later;
    later, e := FinishPush(Step(a, c), tid, a.pushed, task);
    call := [c] + later;
    assert call[1..] == later;
  }
}
