/**
 Progress of moodycamel's semaphore: what a thread achieves when no other one disturbs it,
 and that from every state the program can reach all threads can return from their calls.
 */
module SemaphoreCalls {
  import opened Sums
  import opened LightweightSemaphore

  /** All choices are of one thread. */
  ghost predicate Alone(schedule: seq<Choice>, t: nat) {
    forall i :: 0 <= i < |schedule| ==> schedule[i].t == t
  }

  /** `n` permits were obtained and handed to a caller. */
  function Handed(s: Sema, n: nat): (s': Sema) {
    s.(count := s.count - n, granted := s.granted + n, returned := s.returned + n)
  }

  lemma RunFour(s: Sema, call: seq<Choice>)
    requires |call| == 4
    ensures Run(s, call) == Step(Step(Step(Step(s, call[0]), call[1]), call[2]), call[3])
  {
    hide Step;
    var s1 := Step(s, call[0]);
    assert Run(s, call) == Run(s1, call[1..]);
    var s2 := Step(s1, call[1]);
    assert call[1..][1..] == call[2..] && call[2..][1..] == call[3..] && call[3..][1..] == [];
    assert Run(s1, call[1..]) == Run(s2, call[2..]);
    var s3 := Step(s2, call[2]);
    assert Run(s2, call[2..]) == Run(s3, call[3..]);
    assert Run(s3, call[3..]) == Run(Step(s3, call[3]), []);
  }

  /**
   An undisturbed `tryWaitMany(max)` or `waitMany(max)` on a positive count takes four steps
   (start, load, compare-and-swap, return) and gets as many permits as there are, up to `max`.
   */
  lemma LoneTakes(s: Sema, t: nat, max: nat, call: seq<Choice>)
    requires t < |s.threads| && s.threads[t].Idle? && s.count > 0
    requires |call| == 4 && Alone(call, t) && !call[2].spurious
    requires var b := call[0].start; (b.StartTry? || b.StartWait?) && b.max == max
    ensures Run(s, call) == Handed(s, Min(s.count, max))
  {
    RunFour(s, call);
    var s1 := Step(s, call[0]);
    var s2 := Step(s1, call[1]);
    assert s2.threads[t].TryCas? && s2.threads[t].seen == s.count;
    var s3 := Step(s2, call[2]);
    assert s3.threads[t] == Done(Min(s.count, max));
    assert Step(s3, call[3]).threads == s.threads;
  }

  /** `tryWaitMany` on a count that is not positive returns with nothing and leaves everything as it was. */
  lemma LoneFindsNothing(s: Sema, t: nat, call: seq<Choice>)
    requires t < |s.threads| && s.threads[t].Idle? && s.count <= 0
    requires |call| == 4 && Alone(call, t) && call[0].start.StartTry? && call[3].start.Nothing?
    ensures Run(s, call) == s
  {
    RunFour(s, call);
    var s1 := Step(s, call[0]);
    var s2 := Step(s1, call[1]);
    assert s2.threads[t] == Done(0);
    var s3 := Step(s2, call[2]);
    assert s3.threads == s.threads;
  }

  /** The posts of a `signal`, one by one. */
  lemma {:induction false} PostsAll(s: Sema, t: nat, call: seq<Choice>)
    requires t < |s.threads| && s.threads[t].Posting?
    requires |call| == s.threads[t].pending + 1 && Alone(call, t)
    ensures Run(s, call) == s.(tokens := s.tokens + s.threads[t].pending, threads := s.threads[t := Idle])
    decreases |call|
  {
    var s1 := Step(s, call[0]);
    assert Run(s, call) == Run(s1, call[1..]);
    if s.threads[t].pending > 0 {
      PostsAll(s1, t, call[1..]);
      assert s1.threads[t := Idle] == s.threads[t := Idle];
    }
  }

  /** An undisturbed `signal(n)` raises the count by `n` and posts a token for each waiter it covers. */
  lemma LoneSignal(s: Sema, t: nat, n: nat, call: seq<Choice>)
    requires t < |s.threads| && s.threads[t].Idle?
    requires |call| == Pos(Min(-s.count, n)) + 2 && Alone(call, t) && call[0].start == StartSignal(n)
    ensures Run(s, call) == s.(count := s.count + n, signalled := s.signalled + n,
                               tokens := s.tokens + Pos(Min(-s.count, n)))
  {
    var s1 := Step(s, call[0]);
    assert Run(s, call) == Run(s1, call[1..]);
    PostsAll(s1, t, call[1..]);
    assert s1.threads[t := Idle] == s.threads;
  }

  lemma {:induction false} RunOneMore(s: Sema, call: seq<Choice>, k: nat)
    requires k < |call|
    ensures Run(s, call[..k + 1]) == Step(Run(s, call[..k]), call[k])
    decreases k
  {
    hide Step;
    if k == 0 {
      assert call[..1] == [call[0]] && call[..0] == [];
      assert Run(Step(s, call[0]), call[..1][1..]) == Step(s, call[0]);
    } else {
      assert call[..k + 1][1..] == call[1..][..k] && call[..k][1..] == call[1..][..k - 1];
      RunOneMore(Step(s, call[0]), call[1..], k - 1);
    }
  }

  /** The call is that of thread `t`, which neither stops spinning nor has a CAS fail spuriously. */
  ghost predicate Steady(call: seq<Choice>, t: nat) {
    Alone(call, t) && forall i :: 0 <= i < |call| ==> !call[i].spurious && !call[i].stopSpinning && !call[i].giveUp
  }

  /** Thread `t` is about to return with as many permits as there were, up to what it asked for. */
  ghost predicate TookAll(s: Sema, t: nat, base: nat, max: nat, s': Sema)
    requires t < |s.threads|
  {
    var n := Min(s.count, max);
    s.count > 0 && s' == Put(s, t, Done(base + n)).(count := s.count - n, granted := s.granted + n)
  }

  /**
   `tryWaitMany`, before or after its load, and also with a stale count in its hand: an undisturbed
   thread that would find the count positive gets as many permits as there are, up to what it asked for.
   */
  lemma TryTakes(s: Sema, t: nat, call: seq<Choice>) returns (k: nat)
    requires t < |s.threads| && (s.threads[t].TryLoad? || s.threads[t].TryCas?) && s.count > 0
    requires |call| == 2 && Steady(call, t)
    ensures k <= 2 && TookAll(s, t, s.threads[t].base, s.threads[t].max, Run(s, call[..k]))
  {
    hide Run;
    RunNothing(s, call);
    RunOneMore(s, call, 0);
    RunOneMore(s, call, 1);
    k := if s.threads[t].TryCas? && s.threads[t].seen == s.count then 1 else 2;
  }

  /** The same while spinning in `waitMany`. */
  lemma SpinTakes(s: Sema, t: nat, call: seq<Choice>) returns (k: nat)
    requires t < |s.threads| && (s.threads[t].SpinLoad? || s.threads[t].SpinCas?) && s.count > 0
    requires |call| == 3 && Steady(call, t)
    ensures k <= 3 && TookAll(s, t, 0, s.threads[t].max, Run(s, call[..k]))
  {
    hide Run;
    RunNothing(s, call);
    RunOneMore(s, call, 0);
    RunOneMore(s, call, 1);
    RunOneMore(s, call, 2);
    k := if s.threads[t].SpinLoad? then 2 else if s.threads[t].seen == s.count then 1 else 3;
  }

  lemma RunNothing(s: Sema, call: seq<Choice>)
    ensures Run(s, call[..0]) == s
  {
    assert call[..0] == [];
  }

  /**
   A waiter that does not give up takes a posted token, and then as many of the permits in the count
   as it still asked for.
   */
  lemma WaiterWakes(s: Sema, t: nat, call: seq<Choice>) returns (k: nat)
    requires t < |s.threads| && s.threads[t].Blocked? && !s.threads[t].timeout.Zero? && s.tokens > 0
    requires |call| == 3 && Steady(call, t)
    ensures k <= 3
    ensures var n := Min(Pos(s.count), Pos(s.threads[t].max - 1));
      Run(s, call[..k]) == Put(s, t, Done(1 + n))
        .(tokens := s.tokens - 1, count := s.count - n, granted := s.granted + 1 + n)
  {
    RunOneMore(s, call, 0);
    RunOneMore(s, call, 1);
    RunOneMore(s, call, 2);
    assert call[..0] == [];
    k := if s.threads[t].max <= 1 then 1 else if s.count > 0 then 3 else 2;
  }

  // ---- All threads can return

  /** A thread that stops spinning, gives up waiting, and whose CAS does not fail spuriously. */
  function Move(t: nat): Choice { Choice(t, Nothing, true, true, false) }

  /** How many steps `l` may still need when no other thread moves. */
  function Rank(s: Sema, l: Local): (r: nat) {
    match l
    case Idle => 0
    case Posting(pending) => pending + 1
    case Done(_) => 1
    case TryCas(_, _, next, seen) => (if next.Wait? then 12 else 2) + (if seen == s.count then 0 else 1)
    case TryLoad(_, _, next) => if next.Wait? then 14 else 4
    case UndoTake(_) => if s.tokens > 0 then 5 else 7
    case UndoCas(_, below) => if s.count == below then 2 else 7
    case UndoLoad(_) => 6
    case Blocked(_, _) => 8
    case FetchSub(_, _) => 9
    case SpinLoad(_, _) => 10
    case SpinCas(_, _, _) => 11
  }

  /** Its own step brings a thread nearer to its return, once all posts owed are made. */
  lemma MoveHelps(s: Sema, t: nat)
    requires Inv(s) && t < |s.threads| && !s.threads[t].Idle? && (Pending(s) == 0 || s.threads[t].Posting?)
    ensures var s' := Step(s, Move(t));
      && Rank(s', s'.threads[t]) < Rank(s, s.threads[t]) && s'.threads == s.threads[t := s'.threads[t]]
      && (!s.threads[t].Posting? ==> !s'.threads[t].Posting?)
      && (s.threads[t].Posting? ==> s'.threads[t].Posting? || s'.threads[t].Idle?)
  {
    hide Total;
    Shares(s, t);
  }

  /** One thread returns by its own steps. */
  lemma {:induction false} ThreadReturns(s: Sema, t: nat) returns (call: seq<Choice>)
    requires Inv(s) && t < |s.threads| && (Pending(s) == 0 || s.threads[t].Posting? || s.threads[t].Idle?)
    ensures Alone(call, t) && Run(s, call).threads == s.threads[t := Idle] && Inv(Run(s, call))
    decreases Rank(s, s.threads[t])
  {
    hide Step; hide Inv; hide Rank;
    if s.threads[t].Idle? {
      call := [];
      assert s.threads[t := Idle] == s.threads;
    } else {
      var s' := Step(s, Move(t));
      MoveHelps(s, t);
      StepKeepsInv(s, Move(t));
      TotalUpdate(s.threads, t, s'.threads[t], Owed);
      var later := ThreadReturns(s', t);
      call := [Move(t)] + later;
      assert call[1..] == later;
    }
  }

  lemma {:induction false} RunsJoin(s: Sema, a: seq<Choice>, b: seq<Choice>)
    ensures Run(s, a + b) == Run(Run(s, a), b)
    decreases |a|
  {
    hide Step;
    if a == [] {
      assert a + b == b;
    } else {
      assert (a + b)[1..] == a[1..] + b;
      RunsJoin(Step(s, a[0]), a[1..], b);
    }
  }

  /** The threads that owe posts make them, from thread `k` on. */
  lemma {:induction false} PostsReturn(s: Sema, k: nat) returns (schedule: seq<Choice>)
    requires Inv(s) && k <= |s.threads| && forall i :: 0 <= i < k ==> !s.threads[i].Posting?
    ensures Inv(Run(s, schedule)) && |Run(s, schedule).threads| == |s.threads|
    ensures forall i :: 0 <= i < |s.threads| ==> !Run(s, schedule).threads[i].Posting?
    decreases |s.threads| - k
  {
    hide Inv; hide Step;
    schedule := [];
    if k < |s.threads| {
      if s.threads[k].Posting? {
        schedule := ThreadReturns(s, k);
      }
      var later := PostsReturn(Run(s, schedule), k + 1);
      RunsJoin(s, schedule, later);
      schedule := schedule + later;
    }
  }

  lemma {:induction false} NoPostsOwed(ls: seq<Local>)
    requires forall i :: 0 <= i < |ls| ==> !ls[i].Posting?
    ensures Total(ls, Owed) == 0
  {
    if ls != [] {
      NoPostsOwed(ls[1..]);
    }
  }

  /** With no posts owed, the threads return one after the other. */
  lemma {:induction false} ThreadsReturn(s: Sema, k: nat) returns (schedule: seq<Choice>)
    requires Inv(s) && k <= |s.threads| && forall i :: 0 <= i < k ==> s.threads[i].Idle?
    requires forall i :: 0 <= i < |s.threads| ==> !s.threads[i].Posting?
    ensures Inv(Run(s, schedule)) && |Run(s, schedule).threads| == |s.threads|
    ensures forall i :: 0 <= i < |s.threads| ==> Run(s, schedule).threads[i].Idle?
    decreases |s.threads| - k
  {
    hide Inv; hide Step;
    schedule := [];
    if k < |s.threads| {
      NoPostsOwed(s.threads);
      schedule := ThreadReturns(s, k);
      var later := ThreadsReturn(Run(s, schedule), k + 1);
      RunsJoin(s, schedule, later);
      schedule := schedule + later;
    }
  }

  /** From every reachable state some schedule brings every thread back from its call. */
  lemma EveryoneCanReturn(s: Sema, before: seq<Choice>) returns (after: seq<Choice>)
    requires Init(s)
    ensures var e := Run(s, before + after); |e.threads| == |s.threads| && e.tokens == 0 && e.count >= 0
    ensures forall i :: 0 <= i < |s.threads| ==> Run(s, before + after).threads[i].Idle?
  {
    hide Inv; hide Step; hide Init;
    InitInv(s);
    RunKeepsInv(s, before);
    var e := Run(s, before);
    var posts := PostsReturn(e, 0);
    var rest := ThreadsReturn(Run(e, posts), 0);
    after := posts + rest;
    RunsJoin(e, posts, rest);
    RunsJoin(s, before, after);
    SameThreads(s, before);
    NoTokenLeftBehind(s, before + after);
  }

  lemma {:induction false} SameThreads(s: Sema, schedule: seq<Choice>)
    ensures |Run(s, schedule).threads| == |s.threads|
    decreases |schedule|
  {
    hide Step;
    if schedule != [] {
      SameThreads(Step(s, schedule[0]), schedule[1..]);
    }
  }
}
