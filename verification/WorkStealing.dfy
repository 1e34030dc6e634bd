/**
 `loop::Worker` of quickpool: each worker owns a range {pos, end} in one atomic
 word; it advances `pos` by CAS before running an index, and when its range is empty
 it cuts off the second half of another worker's range by CAS and then stores it as
 its own.  Every load, store, CAS and call of `f` is one atomic step.
 */
module WorkStealing {
  import opened Arith

  datatype Range = Range(pos: int, end: int) {
    /** `tasks_left()`, `done()` */
    function TasksLeft(): int { end - pos }
    predicate Done() { TasksLeft() == 0 }
    predicate Has(x: int) { pos <= x < end }
  }

  /** Where a worker stands in `run` and `steal_range`. */
  datatype Local =
    | Looping                               // top of the do-loop in run
    | Loaded(s: Range)                      // s = state.load()
    | Running(index: int, s: Range)         // CAS won, f(index) about to be called
    | Checking                              // while (!done())
    | Scanning(k: nat, best: nat, left: int)// find_victim has read workers[..k]
    | Choosing(victim: nat)
    | Targeting(victim: nat, s: Range)      // s = other.state.load()
    | Stolen(loot: Range)                   // victim CAS won, own store still to come
    | Surveying(k: nat)                     // all_done has found workers[..k] done
    | Left

  datatype Worker = Worker(state: Range, local: Local)

  datatype Pool = Pool(workers: seq<Worker>, executed: multiset<int>)

  /** The scheduler picks a worker and whether a weak CAS fails spuriously. */
  datatype Choice = Choice(w: nat, spurious: bool)

  function Move(p: Pool, w: nat, l: Local): (p': Pool)
    requires w < |p.workers|
  {
    p.(workers := p.workers[w := p.workers[w].(local := l)])
  }

  function SetState(p: Pool, w: nat, s: Range): (p': Pool)
    requires w < |p.workers|
    ensures |p'.workers| == |p.workers|
  {
    p.(workers := p.workers[w := p.workers[w].(state := s)])
  }

  /** The range a thief leaves its victim: half of it, and the thief has the odd index. */
  function Cut(s: Range): (r: Range)
    requires s.pos < s.end
    ensures r.pos == s.pos && s.pos <= r.end < s.end
    ensures 0 <= (s.end - r.end) - (r.end - r.pos) <= 1
  {
    Range(s.pos, s.end - (s.end - s.pos + 1) / 2)
  }

  function Step(p: Pool, c: Choice): (p': Pool)
    ensures |p'.workers| == |p.workers|
  {
    if c.w >= |p.workers| then p else
    var me := p.workers[c.w];
    match me.local
    case Looping => Move(p, c.w, Loaded(me.state))
    case Loaded(s) =>
      if s.pos < s.end then
        if me.state == s && !c.spurious then
          var s' := Range(s.pos + 1, s.end);
          Move(SetState(p, c.w, s'), c.w, Running(s.pos, s'))
        else Move(p, c.w, Checking)
      else if s.pos == s.end then Move(p, c.w, Scanning(0, 0, 0))
      else Move(p, c.w, Checking)
    case Running(x, s) =>
      Move(p, c.w, if s.pos == s.end then Scanning(0, 0, 0) else Checking).(executed := p.executed + multiset{x})
    case Checking => Move(p, c.w, if me.state.Done() then Left else Looping)
    case Scanning(k, best, left) =>
      if k < |p.workers| then
        var n := p.workers[k].state.TasksLeft();
        if k == 0 || n > left then Move(p, c.w, Scanning(k + 1, k, n)) else Move(p, c.w, Scanning(k + 1, best, left))
      else Move(p, c.w, Choosing(best))
    case Choosing(v) => if v < |p.workers| then Move(p, c.w, Targeting(v, p.workers[v].state)) else p
    case Targeting(v, s) =>
      if s.pos >= s.end then Move(p, c.w, Surveying(0))
      else if v < |p.workers| && p.workers[v].state == s && !c.spurious then
        Move(SetState(p, v, Cut(s)), c.w, Stolen(Range(Cut(s).end, s.end)))
      else Move(p, c.w, Surveying(0))
    case Stolen(loot) => Move(SetState(p, c.w, loot), c.w, Checking)
    case Surveying(k) =>
      if k == |p.workers| then Move(p, c.w, Checking)
      else if k < |p.workers| && p.workers[k].state.Done() then Move(p, c.w, Surveying(k + 1))
      else Move(p, c.w, Scanning(0, 0, 0))
    case Left => p
  }

  // ---- Who is responsible for an index

  /** How often worker `w` holds index `x`: in its range, in hand, or in flight. */
  function Holds(w: Worker, x: int): (n: nat) {
    (if w.state.Has(x) then 1 else 0)
    + (if w.local.Running? && w.local.index == x then 1 else 0)
    + (if w.local.Stolen? && w.local.loot.Has(x) then 1 else 0)
  }

  function HeldBy(ws: seq<Worker>, x: int): (n: nat) {
    if ws == [] then 0 else Holds(ws[0], x) + HeldBy(ws[1..], x)
  }

  /** Held by some worker or already executed, with multiplicity. */
  function Copies(p: Pool, x: int): (n: nat) {
    HeldBy(p.workers, x) + p.executed[x]
  }

  lemma {:induction false} HeldAfterUpdate(ws: seq<Worker>, i: nat, w: Worker, x: int)
    requires i < |ws|
    ensures HeldBy(ws[i := w], x) == HeldBy(ws, x) - Holds(ws[i], x) + Holds(w, x)
  {
    if i == 0 {
      assert ws[i := w][1..] == ws[1..];
    } else {
      HeldAfterUpdate(ws[1..], i - 1, w, x);
      assert ws[i := w][1..] == ws[1..][i - 1 := w];
    }
  }

  lemma {:induction false} HoldsBound(ws: seq<Worker>, i: nat, x: int)
    requires i < |ws|
    ensures Holds(ws[i], x) <= HeldBy(ws, x)
  {
    if i > 0 {
      HoldsBound(ws[1..], i - 1, x);
    }
  }

  // ---- Invariant

  /** A worker that is about to overwrite its range, or has left, owns nothing. */
  predicate EmptyHanded(l: Local) {
    || (l.Loaded? && l.s.pos >= l.s.end)
    || (l.Running? && l.s.pos >= l.s.end)
    || l.Scanning? || l.Choosing? || l.Targeting? || l.Stolen? || l.Surveying? || l.Left?
  }

  predicate WorkerOk(w: Worker, n: nat) {
    && w.state.pos <= w.state.end
    && (EmptyHanded(w.local) ==> w.state.pos == w.state.end)
    && (w.local.Loaded? || w.local.Running? || w.local.Targeting? ==> w.local.s.pos <= w.local.s.end)
    && (w.local.Stolen? ==> w.local.loot.pos <= w.local.loot.end)
    && (w.local.Choosing? ==> w.local.victim < n)
    && (w.local.Scanning? ==> w.local.k <= n && (w.local.k > 0 ==> w.local.best < n))
    && (w.local.Surveying? ==> w.local.k <= n)
  }

  ghost predicate Inv(p: Pool, begin: int, end: int) {
    && |p.workers| > 0
    && (forall i :: 0 <= i < |p.workers| ==> WorkerOk(p.workers[i], |p.workers|))
    && (forall x :: Copies(p, x) == if begin <= x < end then 1 else 0)
  }

  /** A step that changes worker `i` only. */
  lemma OneWorker(p: Pool, p': Pool, i: nat, w: Worker, begin: int, end: int)
    requires Inv(p, begin, end) && i < |p.workers|
    requires p'.workers == p.workers[i := w] && WorkerOk(w, |p.workers|)
    requires forall x :: Holds(p.workers[i], x) + p.executed[x] == Holds(w, x) + p'.executed[x]
    ensures Inv(p', begin, end)
  {
    forall x
      ensures Copies(p', x) == Copies(p, x)
    {
      HeldAfterUpdate(p.workers, i, w, x);
    }
  }

  /** The victim's CAS: what the victim loses is in flight at the thief. */
  lemma StealKeepsInv(p: Pool, c: Choice, begin: int, end: int)
    requires Inv(p, begin, end) && c.w < |p.workers|
    requires var l := p.workers[c.w].local;
      l.Targeting? && l.s.pos < l.s.end && l.victim < |p.workers| && p.workers[l.victim].state == l.s && !c.spurious
    ensures Inv(Step(p, c), begin, end)
  {
    var l := p.workers[c.w].local;
    var victim := p.workers[l.victim].(state := Cut(l.s));
    var thief := p.workers[c.w].(local := Stolen(Range(Cut(l.s).end, l.s.end)));
    var mid := p.workers[l.victim := victim];
    var p' := Step(p, c);
    assert l.victim != c.w;
    assert p'.workers == mid[c.w := thief];
    forall x
      ensures Copies(p', x) == Copies(p, x)
    {
      HeldAfterUpdate(p.workers, l.victim, victim, x);
      HeldAfterUpdate(mid, c.w, thief, x);
    }
  }

  /** Claiming an index, executing it, and storing the loot: what a worker holds moves or is executed. */
  lemma OwnStepKeepsInv(p: Pool, c: Choice, begin: int, end: int)
    requires Inv(p, begin, end) && c.w < |p.workers|
    requires var l := p.workers[c.w].local; l.Loaded? || l.Running? || l.Stolen?
    ensures Inv(Step(p, c), begin, end)
  {
    var p' := Step(p, c);
    OneWorker(p, p', c.w, p'.workers[c.w], begin, end);
  }

  /** Steps that only look around. */
  lemma LookKeepsInv(p: Pool, c: Choice, begin: int, end: int)
    requires Inv(p, begin, end) && c.w < |p.workers|
    requires var l := p.workers[c.w].local; !l.Loaded? && !l.Running? && !l.Stolen?
    requires !Step(p, c).workers[c.w].local.Stolen?
    ensures Inv(Step(p, c), begin, end)
  {
    var p' := Step(p, c);
    if p' != p {
      OneWorker(p, p', c.w, p'.workers[c.w], begin, end);
    }
  }

  lemma StepKeepsInv(p: Pool, c: Choice, begin: int, end: int)
    requires Inv(p, begin, end)
    ensures Inv(Step(p, c), begin, end)
  {
    hide Inv;
    if c.w < |p.workers| {
      var l := p.workers[c.w].local;
      if l.Loaded? || l.Running? || l.Stolen? {
        OwnStepKeepsInv(p, c, begin, end);
      } else if Step(p, c).workers[c.w].local.Stolen? {
        StealKeepsInv(p, c, begin, end);
      } else {
        LookKeepsInv(p, c, begin, end);
      }
    }
  }

  // ---- Runs

  function Run(p: Pool, schedule: seq<Choice>): (p': Pool)
    decreases |schedule|
  {
    if schedule == [] then p else Run(Step(p, schedule[0]), schedule[1..])
  }

  lemma {:induction false} RunKeepsInv(p: Pool, schedule: seq<Choice>, begin: int, end: int)
    requires Inv(p, begin, end)
    ensures Inv(Run(p, schedule), begin, end)
    decreases |schedule|
  {
    hide Inv; hide Step;
    if schedule != [] {
      StepKeepsInv(p, schedule[0], begin, end);
      RunKeepsInv(Step(p, schedule[0]), schedule[1..], begin, end);
    }
  }

  // ---- create_workers

  /** Boundary `i` of the initial split; the division truncates, all operands being non-negative. */
  function Bound(begin: int, tasks: nat, i: nat, n: nat): (b: int)
    requires n > 0
  {
    begin + tasks * i / n
  }

  lemma BoundGrows(begin: int, tasks: nat, i: nat, n: nat)
    requires n > 0
    ensures Bound(begin, tasks, i, n) <= Bound(begin, tasks, i + 1, n)
  {
    Distribute(i + 1, i, tasks);
    QuotientGrows(tasks * i, tasks * (i + 1), n);
  }

  lemma LastBound(begin: int, tasks: nat, n: nat)
    requires n > 0
    ensures Bound(begin, tasks, n, n) == begin + tasks && Bound(begin, tasks, 0, n) == begin
  {
    Quotient(tasks * n, n, tasks, 0);
  }

  method CreateWorkers(begin: int, end: int, numWorkers: nat) returns (p: Pool)
    ensures |p.workers| == if numWorkers == 0 then 1 else numWorkers
    ensures Inv(p, begin, end) && p.executed == multiset{}
    ensures forall i :: 0 <= i < |p.workers| ==> p.workers[i].local == Looping
  {
    var tasks := if end - begin > 0 then end - begin else 0;
    var n := if numWorkers == 0 then 1 else numWorkers;
    var ws: seq<Worker> := [];
    LastBound(begin, tasks, n);
    while |ws| < n
      invariant |ws| <= n
      invariant forall i :: 0 <= i < |ws| ==> ws[i].local == Looping && ws[i].state.pos <= ws[i].state.end
      invariant Bound(begin, tasks, |ws|, n) >= begin
      invariant forall x :: HeldBy(ws, x) == if begin <= x < Bound(begin, tasks, |ws|, n) then 1 else 0
    {
      var w := Worker(Range(begin + tasks * |ws| / n, begin + tasks * (|ws| + 1) / n), Looping);
      BoundGrows(begin, tasks, |ws|, n);
      forall x
        ensures HeldBy(ws + [w], x) == HeldBy(ws, x) + Holds(w, x)
      {
        HeldLast(ws, w, x);
      }
      ws := ws + [w];
    }
    p := Pool(ws, multiset{});
  }

  lemma {:induction false} HeldLast(ws: seq<Worker>, w: Worker, x: int)
    ensures HeldBy(ws + [w], x) == HeldBy(ws, x) + Holds(w, x)
  {
    if ws == [] {
      assert (ws + [w])[1..] == [];
    } else {
      HeldLast(ws[1..], w, x);
      assert (ws + [w])[1..] == ws[1..] + [w];
    }
  }

  // ---- The loop runs every index exactly once

  lemma {:induction false} NothingHeld(ws: seq<Worker>, x: int)
    requires forall i :: 0 <= i < |ws| ==> ws[i].local == Left && ws[i].state.pos == ws[i].state.end
    ensures HeldBy(ws, x) == 0
  {
    if ws != [] {
      NothingHeld(ws[1..], x);
    }
  }

  /**
   Exactly once: along every schedule no index is executed twice, none outside
   [begin, end) is executed at all, and when all workers have left `run` every index
   of the range has been executed.
   */
  lemma ExactlyOnce(p: Pool, schedule: seq<Choice>, begin: int, end: int)
    requires Inv(p, begin, end)
    ensures var q := Run(p, schedule);
      && (forall x :: q.executed[x] <= if begin <= x < end then 1 else 0)
      && ((forall i :: 0 <= i < |q.workers| ==> q.workers[i].local == Left) ==>
          forall x :: q.executed[x] == if begin <= x < end then 1 else 0)
  {
    RunKeepsInv(p, schedule, begin, end);
    var q := Run(p, schedule);
    forall x
      ensures q.executed[x] <= if begin <= x < end then 1 else 0
    {
      assert Copies(q, x) == if begin <= x < end then 1 else 0;
    }
    if forall i :: 0 <= i < |q.workers| ==> q.workers[i].local == Left {
      forall x
        ensures q.executed[x] == if begin <= x < end then 1 else 0
      {
        NothingHeld(q.workers, x);
        assert Copies(q, x) == if begin <= x < end then 1 else 0;
      }
    }
  }
}
