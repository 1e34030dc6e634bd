/**
 Progress of quickpool's parallel loop: whatever the workers are doing, each of them can run,
 steal and leave by its own steps, so that from every reachable state the loop can end with every
 index executed once.
 */
module WorkStealingProgress {
  import opened Sums
  import opened WorkStealing

  function Tasks(w: Worker): int { w.state.end - w.state.pos }

  /** Indices in the ranges of all workers and in flight at worker `w`. */
  function Work(p: Pool, w: nat): (n: int)
    requires w < |p.workers|
  {
    var l := p.workers[w].local;
    Total(p.workers, Tasks) + if l.Stolen? then l.loot.end - l.loot.pos else 0
  }

  /** No range from worker `k` on holds an index. */
  predicate DoneFrom(p: Pool, k: nat) {
    forall i :: k <= i < |p.workers| ==> Tasks(p.workers[i]) == 0
  }

  /** A scan whose best worker so far really has the most indices so far. */
  predicate Current(p: Pool, k: nat, best: nat, left: int) {
    k > 0 ==>
      && best < k <= |p.workers| && left == Tasks(p.workers[best])
      && forall i :: 0 <= i < k ==> Tasks(p.workers[i]) <= left
  }

  /** A worker worth stealing from, if there is one. */
  predicate WorthIt(p: Pool, victim: nat) {
    victim < |p.workers| && (Tasks(p.workers[victim]) == 0 ==> DoneFrom(p, 0))
  }

  /** How far the moving worker is from claiming an index or leaving, when no other one moves. */
  function Rank(p: Pool, w: Worker): (r: nat) {
    var n := |p.workers|;
    var empty := Tasks(w) == 0;
    match w.local
    case Left => 0
    case Loaded(s) => if s.pos == s.end then 11 + 2 * n else if w.state == s then 1 else 4
    case Looping => if empty then 12 + 2 * n else 2
    case Checking => if empty then 1 else 3
    case Running(_, _) => 11 + 2 * n
    case Stolen(_) => 4
    case Surveying(k) => (if DoneFrom(p, k) then 2 else 3 * n + 50) + if k <= n then n - k else 0
    case Targeting(v, s) =>
      if s.pos < s.end && v < n && p.workers[v].state == s then 5
      else if s.pos == s.end && DoneFrom(p, 0) then n + 3 else 4 * n + 51
    case Choosing(v) => if WorthIt(p, v) then n + 6 else 4 * n + 52
    case Scanning(k, best, left) =>
      (if Current(p, k, best, left) then 10 + n else 4 * n + 53) + if k <= n then n - k else 0
  }

  predicate AllOk(p: Pool) {
    forall i :: 0 <= i < |p.workers| ==> WorkerOk(p.workers[i], |p.workers|)
  }

  function Own(w: nat): Choice { Choice(w, false) }

  /** Worker `w` leaves, claims an index or comes nearer to that by its own step. */
  ghost predicate Nearer(p: Pool, p': Pool, w: nat)
    requires w < |p.workers| == |p'.workers|
  {
    || Work(p', w) < Work(p, w)
    || (Work(p', w) == Work(p, w) && Rank(p', p'.workers[w]) < Rank(p, p.workers[w]))
  }

  /** Only the moving worker's place in `run` changes. */
  ghost predicate OthersStay(p: Pool, p': Pool, w: nat)
    requires |p.workers| == |p'.workers|
  {
    forall i :: 0 <= i < |p.workers| && i != w ==> p'.workers[i].local == p.workers[i].local
  }

  /** A step that leaves all ranges alone. */
  lemma SameRanges(p: Pool, p': Pool, w: nat)
    requires w < |p.workers| == |p'.workers| && p'.workers == p.workers[w := p'.workers[w]]
    requires p'.workers[w].state == p.workers[w].state
    requires !p.workers[w].local.Stolen? && !p'.workers[w].local.Stolen?
    ensures Work(p', w) == Work(p, w)
    ensures forall i :: 0 <= i < |p.workers| ==> Tasks(p'.workers[i]) == Tasks(p.workers[i])
    ensures forall k: nat :: DoneFrom(p', k) == DoneFrom(p, k)
    ensures forall k: nat, best: nat, left: int :: Current(p', k, best, left) == Current(p, k, best, left)
    ensures forall v: nat :: WorthIt(p', v) == WorthIt(p, v)
  {
    hide Total;
    TotalUpdate(p.workers, w, p'.workers[w], Tasks);
    assert forall i :: 0 <= i < |p.workers| ==> Tasks(p'.workers[i]) == Tasks(p.workers[i]);
  }

  lemma LoopHelps(p: Pool, w: nat)
    requires w < |p.workers| && AllOk(p)
    requires var l := p.workers[w].local; l.Looping? || l.Loaded? || l.Running? || l.Checking?
    ensures Nearer(p, Step(p, Own(w)), w) && OthersStay(p, Step(p, Own(w)), w)
  {
    hide Total;
    var p' := Step(p, Own(w));
    assert p'.workers == p.workers[w := p'.workers[w]];
    TotalUpdate(p.workers, w, p'.workers[w], Tasks);
  }

  /** `all_done` goes on over empty ranges. */
  lemma SurveyHelps(p: Pool, w: nat)
    requires w < |p.workers| && AllOk(p) && p.workers[w].local.Surveying?
    ensures Nearer(p, Step(p, Own(w)), w) && OthersStay(p, Step(p, Own(w)), w)
  {
    hide Total; hide Work;
    var k := p.workers[w].local.k;
    SameRanges(p, Step(p, Own(w)), w);
    if k < |p.workers| {
      assert DoneFrom(p, k) <==> Tasks(p.workers[k]) == 0 && DoneFrom(p, k + 1);
    }
  }

  lemma ScanOne(p: Pool, k: nat, best: nat, left: int)
    requires k < |p.workers| && Current(p, k, best, left)
    ensures var n := Tasks(p.workers[k]);
      if k == 0 || n > left then Current(p, k + 1, k, n) else Current(p, k + 1, best, left)
  {
  }

  lemma ScanEnds(p: Pool, best: nat, left: int)
    requires 0 < |p.workers| && Current(p, |p.workers|, best, left) && AllOk(p)
    ensures WorthIt(p, best)
  {
    assert forall i :: 0 <= i < |p.workers| ==> WorkerOk(p.workers[i], |p.workers|) && Tasks(p.workers[i]) >= 0;
  }

  /** One worker read: the scan keeps the best so far. */
  lemma ScanHelps(p: Pool, w: nat)
    requires w < |p.workers| && AllOk(p) && p.workers[w].local.Scanning?
    ensures Nearer(p, Step(p, Own(w)), w) && OthersStay(p, Step(p, Own(w)), w)
  {
    hide Total; hide Work; hide Current; hide DoneFrom;
    var l := p.workers[w].local;
    SameRanges(p, Step(p, Own(w)), w);
    if Current(p, l.k, l.best, l.left) {
      if l.k < |p.workers| {
        ScanOne(p, l.k, l.best, l.left);
      } else {
        ScanEnds(p, l.best, l.left);
      }
    }
  }

  /** The victim loses what the thief has in flight. */
  lemma StealHelps(p: Pool, w: nat)
    requires w < |p.workers| && AllOk(p)
    requires var l := p.workers[w].local;
      l.Targeting? && l.s.pos < l.s.end && l.victim < |p.workers| && p.workers[l.victim].state == l.s
    ensures Nearer(p, Step(p, Own(w)), w) && OthersStay(p, Step(p, Own(w)), w)
  {
    hide Total;
    var l := p.workers[w].local;
    var victim := p.workers[l.victim].(state := Cut(l.s));
    var thief := p.workers[w].(local := Stolen(Range(Cut(l.s).end, l.s.end)));
    var mid := p.workers[l.victim := victim];
    assert Step(p, Own(w)).workers == mid[w := thief];
    TotalUpdate(p.workers, l.victim, victim, Tasks);
    TotalUpdate(mid, w, thief, Tasks);
  }

  lemma TargetHelps(p: Pool, w: nat)
    requires w < |p.workers| && AllOk(p)
    requires var l := p.workers[w].local; l.Targeting? || l.Choosing?
    requires var l := p.workers[w].local;
      !(l.Targeting? && l.s.pos < l.s.end && l.victim < |p.workers| && p.workers[l.victim].state == l.s)
    ensures Nearer(p, Step(p, Own(w)), w) && OthersStay(p, Step(p, Own(w)), w)
  {
    hide Total; hide Work; hide DoneFrom;
    SameRanges(p, Step(p, Own(w)), w);
  }

  /** Storing the loot. */
  lemma StoreHelps(p: Pool, w: nat)
    requires w < |p.workers| && AllOk(p) && p.workers[w].local.Stolen?
    ensures Nearer(p, Step(p, Own(w)), w) && OthersStay(p, Step(p, Own(w)), w)
  {
    hide Total;
    var p' := Step(p, Own(w));
    assert p'.workers == p.workers[w := p'.workers[w]];
    TotalUpdate(p.workers, w, p'.workers[w], Tasks);
  }

  lemma MoveHelps(p: Pool, w: nat)
    requires w < |p.workers| && AllOk(p) && !p.workers[w].local.Left?
    ensures Nearer(p, Step(p, Own(w)), w) && OthersStay(p, Step(p, Own(w)), w)
  {
    hide Nearer; hide OthersStay; hide Step;
    var l := p.workers[w].local;
    if l.Scanning? {
      ScanHelps(p, w);
    } else if l.Stolen? {
      StoreHelps(p, w);
    } else if l.Targeting? && l.s.pos < l.s.end && l.victim < |p.workers| && p.workers[l.victim].state == l.s {
      StealHelps(p, w);
    } else if l.Targeting? || l.Choosing? {
      TargetHelps(p, w);
    } else if l.Surveying? {
      SurveyHelps(p, w);
    } else {
      LoopHelps(p, w);
    }
  }

  lemma WorkIsLeft(p: Pool, w: nat, begin: int, end: int)
    requires Inv(p, begin, end) && w < |p.workers|
    ensures Work(p, w) >= 0 && AllOk(p)
  {
    forall i | 0 <= i < |p.workers|
      ensures Tasks(p.workers[i]) >= 0
    {
      assert WorkerOk(p.workers[i], |p.workers|);
    }
    TotalNonNegative(p.workers, Tasks);
  }

  /** All choices are of one worker. */
  ghost predicate Alone(schedule: seq<Choice>, w: nat) {
    forall i :: 0 <= i < |schedule| ==> schedule[i].w == w
  }

  /** In every reachable state each worker can leave by its own steps. */
  lemma {:induction false} WorkerLeaves(p: Pool, w: nat, begin: int, end: int) returns (call: seq<Choice>)
    requires Inv(p, begin, end) && w < |p.workers|
    ensures Alone(call, w) && Inv(Run(p, call), begin, end)
    ensures |Run(p, call).workers| == |p.workers| && OthersStay(p, Run(p, call), w)
    ensures Run(p, call).workers[w].local == Left
    decreases Work(p, w), Rank(p, p.workers[w])
  {
    hide Inv; hide Step; hide Work; hide Rank;
    WorkIsLeft(p, w, begin, end);
    call := [];
    if !p.workers[w].local.Left? {
      var p' := Step(p, Own(w));
      MoveHelps(p, w);
      StepKeepsInv(p, Own(w), begin, end);
      WorkIsLeft(p', w, begin, end);
      var later := WorkerLeaves(p', w, begin, end);
      call := [Own(w)] + later;
      assert call[1..] == later;
    }
  }

  lemma {:induction false} RunsJoin(p: Pool, a: seq<Choice>, b: seq<Choice>)
    ensures Run(p, a + b) == Run(Run(p, a), b)
    decreases |a|
  {
    hide Step;
    if a == [] {
      assert a + b == b;
    } else {
      assert (a + b)[1..] == a[1..] + b;
      RunsJoin(Step(p, a[0]), a[1..], b);
    }
  }

  /** One worker after the other, from worker `k` on. */
  lemma {:induction false} WorkersLeave(p: Pool, k: nat, begin: int, end: int) returns (schedule: seq<Choice>)
    requires Inv(p, begin, end) && k <= |p.workers| && forall i :: 0 <= i < k ==> p.workers[i].local == Left
    ensures |Run(p, schedule).workers| == |p.workers|
    ensures forall i :: 0 <= i < |p.workers| ==> Run(p, schedule).workers[i].local == Left
    decreases |p.workers| - k
  {
    hide Inv; hide Step;
    schedule := [];
    if k < |p.workers| {
      var first := WorkerLeaves(p, k, begin, end);
      var later := WorkersLeave(Run(p, first), k + 1, begin, end);
      RunsJoin(p, first, later);
      schedule := first + later;
    }
  }

  /** The loop can end from every state it can reach, and then each index has been executed once. */
  lemma LoopCanEnd(p: Pool, before: seq<Choice>, begin: int, end: int) returns (after: seq<Choice>)
    requires Inv(p, begin, end)
    ensures var q := Run(p, before + after);
      && (forall i :: 0 <= i < |q.workers| ==> q.workers[i].local == Left)
      && (forall x :: q.executed[x] == if begin <= x < end then 1 else 0)
  {
    hide Inv;
    RunKeepsInv(p, before, begin, end);
    after := WorkersLeave(Run(p, before), 0, begin, end);
    RunsJoin(p, before, after);
    ExactlyOnce(p, before + after, begin, end);
  }

  /** The victim a scan settles on has the most indices when nothing moved meanwhile. */
  lemma {:induction false} VictimHasMost(p: Pool, w: nat, call: seq<Choice>)
    requires w < |p.workers| && p.workers[w].local.Scanning? && Alone(call, w)
    requires var l := p.workers[w].local;
      l.k <= |p.workers| && Current(p, l.k, l.best, l.left) && |call| == |p.workers| - l.k + 1
    ensures |Run(p, call).workers| == |p.workers| && Run(p, call).workers[w].local.Choosing?
    ensures var v := Run(p, call).workers[w].local.victim;
      v < |p.workers| && forall i :: 0 <= i < |p.workers| ==> Tasks(p.workers[i]) <= Tasks(p.workers[v])
    decreases |call|
  {
    hide Total; hide Work; hide Rank; hide Current;
    var p' := Step(p, call[0]);
    var l := p.workers[w].local;
    assert Run(p, call) == Run(p', call[1..]);
    SameRanges(p, p', w);
    if l.k < |p.workers| {
      ScanOne(p, l.k, l.best, l.left);
      VictimHasMost(p', w, call[1..]);
    } else {
      ScanFound(p, l.best, l.left);
    }
  }

  lemma ScanFound(p: Pool, best: nat, left: int)
    requires 0 < |p.workers| && Current(p, |p.workers|, best, left)
    ensures best < |p.workers| && forall i :: 0 <= i < |p.workers| ==> Tasks(p.workers[i]) <= Tasks(p.workers[best])
  {
  }
}
