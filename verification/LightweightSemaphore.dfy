/**
 `moodycamel::LightweightSemaphore`: a user-space count `m_count` in front of a kernel
 semaphore.  A negative count announces waiters; `signal` posts a kernel token for each
 announced waiter it covers; a waiter that times out must either withdraw its
 announcement or take the token that was meant for it.

 `wait(t)` is `waitMany(1, t)` and `tryWait()` is `tryWaitMany(1)`: with max 1 the two
 bodies take the same steps.  Every load, CAS, fetch and kernel call is one atomic step.
 */
module LightweightSemaphore {
  import opened Sums

  type Positive = x: int | x > 0 witness 1
  type Negative = x: int | x < 0 witness -1

  datatype Timeout = Forever | Zero | Timed

  /** What happens when `tryWaitMany` finds nothing: give up, or go on to wait. */
  datatype Then = Return | Wait(timeout: Timeout)

  datatype Local =
    | Idle
    | TryLoad(max: nat, base: nat, next: Then)            // tryWaitMany(max), `base` permits already in hand
    | TryCas(max: nat, base: nat, next: Then, seen: Positive)
    | SpinLoad(max: nat, timeout: Timeout)                // waitManyWithPartialSpinning
    | SpinCas(max: nat, timeout: Timeout, seen: Positive)
    | FetchSub(max: nat, timeout: Timeout)
    | Blocked(max: nat, timeout: Timeout)                 // announced, waiting for a kernel token
    | UndoLoad(max: nat)                                  // timed out, reading m_count
    | UndoTake(max: nat)                                  // saw m_count >= 0
    | UndoCas(max: nat, below: Negative)                         // saw m_count < 0
    | Done(got: nat)                                      // about to return `got`
    | Posting(pending: nat)                               // signal, kernel posts still to make

  /** `granted` counts permits handed out, `returned` those whose operation has returned. */
  datatype Sema = Sema(count: int, tokens: nat, threads: seq<Local>,
                       initial: nat, signalled: nat, granted: nat, returned: nat)

  datatype Start = StartTry(max: nat) | StartWait(max: nat, timeout: Timeout) | StartSignal(n: nat) | Nothing

  /** The scheduler: who moves, what an idle thread starts, whether a spin is over, a wait gives up, a CAS is weak. */
  datatype Choice = Choice(t: nat, start: Start, stopSpinning: bool, giveUp: bool, spurious: bool)

  function Min(a: int, b: int): int { if a < b then a else b }

  function Pos(a: int): (r: nat) { if a > 0 then a else 0 }

  function Put(s: Sema, t: nat, l: Local): (s': Sema)
    requires t < |s.threads|
  {
    s.(threads := s.threads[t := l])
  }

  /** A thread has obtained `n` permits and will return `base + n`. */
  function Grant(s: Sema, t: nat, base: nat, n: nat): (s': Sema)
    requires t < |s.threads|
  {
    Put(s, t, Done(base + n)).(granted := s.granted + n)
  }

  /** One announced waiter got its permit; it then tries to take up to max-1 more. */
  function GrantOne(s: Sema, t: nat, max: nat): (s': Sema)
    requires t < |s.threads|
  {
    Put(s, t, if max > 1 then TryLoad(max - 1, 1, Return) else Done(1)).(granted := s.granted + 1)
  }

  /** `tryWaitMany` came away with nothing. */
  function Nil(s: Sema, t: nat, max: nat, base: nat, next: Then): (s': Sema)
    requires t < |s.threads|
  {
    Put(s, t, match next
              case Return => Done(base)
              case Wait(timeout) => if base == 0 && max > 0 then SpinLoad(max, timeout) else Done(base))
  }

  /** `newCount`, and what is taken of a positive count. */
  function NewCount(seen: Positive, max: nat): (r: nat) { if seen > max then seen - max else 0 }

  function Taken(seen: Positive, max: nat): (r: nat)
    ensures r <= max && r <= seen && (max > 0 ==> r > 0)
  {
    seen - NewCount(seen, max)
  }

  function Step(s: Sema, c: Choice): (s': Sema)
    ensures |s'.threads| == |s.threads|
  {
    if c.t >= |s.threads| then s else
    match s.threads[c.t]
    case Idle => (
      match c.start
      case StartTry(max) => Put(s, c.t, TryLoad(max, 0, Return))
      case StartWait(max, timeout) => Put(s, c.t, TryLoad(max, 0, Wait(timeout)))
      case StartSignal(n) =>
        var toRelease := Min(-s.count, n);
        Put(s, c.t, Posting(Pos(toRelease))).(count := s.count + n, signalled := s.signalled + n)
      case Nothing => s)
    case Posting(pending) =>
      if pending > 0 then Put(s, c.t, Posting(pending - 1)).(tokens := s.tokens + 1) else Put(s, c.t, Idle)
    case TryLoad(max, base, next) =>
      if s.count > 0 then Put(s, c.t, TryCas(max, base, next, s.count)) else Nil(s, c.t, max, base, next)
    case TryCas(max, base, next, seen) =>
      if s.count == seen && !c.spurious then
        Grant(s.(count := NewCount(seen, max)), c.t, base, Taken(seen, max))
      else if s.count > 0 then Put(s, c.t, TryCas(max, base, next, s.count))
      else Nil(s, c.t, max, base, next)
    case SpinLoad(max, timeout) =>
      if c.stopSpinning then Put(s, c.t, FetchSub(max, timeout))
      else if s.count > 0 then Put(s, c.t, SpinCas(max, timeout, s.count))
      else s
    case SpinCas(max, timeout, seen) =>
      if s.count == seen then Grant(s.(count := NewCount(seen, max)), c.t, 0, Taken(seen, max))
      else Put(s, c.t, SpinLoad(max, timeout))
    case FetchSub(max, timeout) =>
      if s.count > 0 then GrantOne(s.(count := s.count - 1), c.t, max)
      else Put(s.(count := s.count - 1), c.t, Blocked(max, timeout))
    case Blocked(max, timeout) =>
      if timeout.Zero? || c.giveUp then Put(s, c.t, UndoLoad(max))
      else if s.tokens > 0 then GrantOne(s.(tokens := s.tokens - 1), c.t, max)
      else s
    case UndoLoad(max) => if s.count >= 0 then Put(s, c.t, UndoTake(max)) else Put(s, c.t, UndoCas(max, s.count))
    case UndoTake(max) =>
      if s.tokens > 0 then GrantOne(s.(tokens := s.tokens - 1), c.t, max) else Put(s, c.t, UndoLoad(max))
    case UndoCas(max, below) =>
      if s.count == below then Put(s.(count := below + 1), c.t, Done(0))
      else Put(s, c.t, UndoLoad(max))
    case Done(got) => Put(s, c.t, Idle).(returned := s.returned + got)
  }

  // ---- Accounting

  /** 1 for a thread whose announcement is still in `m_count`. */
  function Announced(l: Local): int { if l.Blocked? || l.UndoLoad? || l.UndoTake? || l.UndoCas? then 1 else 0 }

  /** Kernel posts a signalling thread still owes. */
  function Owed(l: Local): int { if l.Posting? then l.pending else 0 }

  /** Permits a thread has obtained in the operation it is in. */
  function InHand(l: Local): int {
    match l
    case TryLoad(_, base, _) => base
    case TryCas(_, base, _, _) => base
    case Done(got) => got
    case _ => 0
  }

  function Waiters(s: Sema): int { Total(s.threads, Announced) }
  function Pending(s: Sema): int { Total(s.threads, Owed) }
  function Held(s: Sema): int { Total(s.threads, InHand) }

  ghost predicate Inv(s: Sema) {
    // announced waiters without a token meant for them are exactly the negative part of the count
    && Waiters(s) - (s.tokens + Pending(s)) == Pos(-s.count)
    // permits are conserved
    && s.initial + s.signalled == s.granted + s.count + Waiters(s)
    && s.granted == s.returned + Held(s)
    && (forall i :: 0 <= i < |s.threads| ==> Sane(s.threads[i]))
  }

  /** A first attempt holds nothing yet. */
  predicate Sane(l: Local) {
    && (l.TryLoad? && l.next.Wait? ==> l.base == 0)
    && (l.TryCas? && l.next.Wait? ==> l.base == 0)
  }

  ghost predicate Init(s: Sema) {
    && s.count == s.initial && s.tokens == s.signalled == s.granted == s.returned == 0
    && forall i :: 0 <= i < |s.threads| ==> s.threads[i] == Idle
  }

  lemma {:induction false} IdleTotals(ls: seq<Local>)
    requires forall i :: 0 <= i < |ls| ==> ls[i] == Idle
    ensures Total(ls, Announced) == Total(ls, Owed) == Total(ls, InHand) == 0
  {
    if ls != [] {
      IdleTotals(ls[1..]);
    }
  }

  lemma InitInv(s: Sema)
    requires Init(s)
    ensures Inv(s)
  {
    IdleTotals(s.threads);
  }

  /** A step of thread `t` that keeps the books of that thread and of the shared state in balance. */
  ghost predicate Balanced(s: Sema, s': Sema, t: nat)
    requires t < |s.threads| == |s'.threads|
  {
    var l, l' := s.threads[t], s'.threads[t];
    && s'.threads == s.threads[t := l'] && Sane(l') && s'.initial == s.initial
    && Announced(l') - Announced(l) - (s'.tokens - s.tokens) - (Owed(l') - Owed(l)) == Pos(-s'.count) - Pos(-s.count)
    && s'.signalled - s.signalled == s'.granted - s.granted + s'.count - s.count + Announced(l') - Announced(l)
    && s'.granted - s.granted == s'.returned - s.returned + InHand(l') - InHand(l)
  }

  lemma TryBalances(s: Sema, c: Choice)
    requires c.t < |s.threads| && Sane(s.threads[c.t])
    requires var l := s.threads[c.t]; l.TryLoad? || l.TryCas? || l.SpinLoad? || l.SpinCas?
    ensures Balanced(s, Step(s, c), c.t)
  {
    assert s.threads[c.t := s.threads[c.t]] == s.threads;
  }

  lemma WaitBalances(s: Sema, c: Choice)
    requires c.t < |s.threads| && Sane(s.threads[c.t])
    requires var l := s.threads[c.t]; l.FetchSub? || Announced(l) == 1
    ensures Balanced(s, Step(s, c), c.t)
  {
    assert s.threads[c.t := s.threads[c.t]] == s.threads;
  }

  lemma SignalBalances(s: Sema, c: Choice)
    requires c.t < |s.threads| && Sane(s.threads[c.t])
    requires var l := s.threads[c.t]; l.Idle? || l.Posting? || l.Done?
    ensures Balanced(s, Step(s, c), c.t)
  {
    assert s.threads[c.t := s.threads[c.t]] == s.threads;
  }

  lemma StepBalances(s: Sema, c: Choice)
    requires c.t < |s.threads| && Sane(s.threads[c.t])
    ensures Balanced(s, Step(s, c), c.t)
  {
    hide Step; hide Balanced;
    var l := s.threads[c.t];
    if l.TryLoad? || l.TryCas? || l.SpinLoad? || l.SpinCas? {
      TryBalances(s, c);
    } else if l.Idle? || l.Posting? || l.Done? {
      SignalBalances(s, c);
    } else {
      WaitBalances(s, c);
    }
  }

  lemma StepKeepsInv(s: Sema, c: Choice)
    requires Inv(s)
    ensures Inv(Step(s, c))
  {
    hide Step; hide Announced; hide Owed; hide InHand; hide Sane;
    if c.t < |s.threads| {
      StepBalances(s, c);
      var l := Step(s, c).threads[c.t];
      TotalUpdate(s.threads, c.t, l, Announced);
      TotalUpdate(s.threads, c.t, l, Owed);
      TotalUpdate(s.threads, c.t, l, InHand);
    } else {
      StepOfNobody(s, c);
    }
  }

  lemma StepOfNobody(s: Sema, c: Choice)
    requires c.t >= |s.threads|
    ensures Step(s, c) == s
  {
  }

  function Run(s: Sema, schedule: seq<Choice>): (s': Sema)
    decreases |schedule|
  {
    if schedule == [] then s else Run(Step(s, schedule[0]), schedule[1..])
  }

  lemma {:induction false} RunKeepsInv(s: Sema, schedule: seq<Choice>)
    requires Inv(s)
    ensures Inv(Run(s, schedule))
    decreases |schedule|
  {
    hide Inv; hide Step;
    if schedule != [] {
      StepKeepsInv(s, schedule[0]);
      RunKeepsInv(Step(s, schedule[0]), schedule[1..]);
    }
  }

  lemma Shares(s: Sema, t: nat)
    requires t < |s.threads|
    ensures 0 <= Announced(s.threads[t]) <= Waiters(s)
    ensures 0 <= Owed(s.threads[t]) <= Pending(s)
    ensures 0 <= InHand(s.threads[t]) <= Held(s)
  {
    ShareBound(s.threads, t, Announced);
    ShareBound(s.threads, t, Owed);
    ShareBound(s.threads, t, InHand);
  }

  /**
   Reconciliation in every reachable state: waiters minus tokens posted or owed is the
   negative part of the count, and no more permits are granted than were ever made.
   */
  lemma Reconciled(s: Sema, schedule: seq<Choice>)
    requires Init(s)
    ensures var e := Run(s, schedule);
      && Waiters(e) - (e.tokens + Pending(e)) == Pos(-e.count)
      && e.granted <= e.initial + e.signalled
      && e.initial + e.signalled - e.granted == Pos(e.count) + e.tokens + Pending(e)
  {
    InitInv(s);
    RunKeepsInv(s, schedule);
    TotalNonNegative(Run(s, schedule).threads, Owed);
  }

  /** A timed-out waiter that finds the count non-negative has a token posted or on its way. */
  lemma TimedOutWaiterIsBacked(s: Sema, schedule: seq<Choice>, t: nat)
    requires Init(s)
    requires var e := Run(s, schedule); t < |e.threads| && e.threads[t].UndoLoad? && e.count >= 0
    ensures var e := Run(s, schedule); e.tokens + Pending(e) >= 1
  {
    InitInv(s);
    RunKeepsInv(s, schedule);
    Shares(Run(s, schedule), t);
  }

  /** When nobody is inside an operation, no token is left over and no waiter is announced. */
  lemma NoTokenLeftBehind(s: Sema, schedule: seq<Choice>)
    requires Init(s)
    requires var e := Run(s, schedule); forall i :: 0 <= i < |e.threads| ==> e.threads[i] == Idle
    ensures var e := Run(s, schedule);
      e.tokens == 0 && e.count >= 0 && e.initial + e.signalled == e.returned + e.count
  {
    InitInv(s);
    RunKeepsInv(s, schedule);
    IdleTotals(Run(s, schedule).threads);
  }
}
