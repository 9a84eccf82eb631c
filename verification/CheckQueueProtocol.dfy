/** Every interleaving of the check queue: thread 0 is the master, the others are workers. */
module CheckQueueProtocol {
  import opened CheckQueue

  /** Where a thread is. Entering is about to run its first critical section, Holding runs the checks of a batch of n
      outside the lock or is about to report them. */
  datatype Thread =
    | Outside
    | Entering
    | Waiting(notified: bool)
    | Holding(rest: seq<Check>, n: nat, fOk: bool)

  /** `added` are the checks queued since the last Wait returned. When Wait returns, `verdict` is its result and
      `asked` the checks it answers for. */
  datatype State = State(sh: Shared, threads: seq<Thread>, nBatchSize: nat, added: seq<Check>,
                         verdict: bool, asked: seq<Check>, waits: nat)

  /** Add names the worker that notify_one picks. Waking an unnotified thread is a spurious wake-up. */
  datatype Label =
    | Add(vChecks: seq<Check>, pick: nat)
    | CallWait
    | Enter(t: nat)
    | Wake(t: nat)
    | Execute(t: nat)
    | Report(t: nat)

  function Init(workers: nat, nBatchSize: nat): State {
    State(Shared([], 0, 0, 0, true, false), [Outside] + seq(workers, i => Entering), nBatchSize, [], true, [], 0)
  }

  function NotifiedOne(threads: seq<Thread>, t: nat): seq<Thread> {
    if t < |threads| && threads[t].Waiting? then threads[t := Waiting(true)] else threads
  }

  function NotifiedWorkers(threads: seq<Thread>): seq<Thread> {
    seq(|threads|, i requires 0 <= i < |threads| =>
      if i > 0 && threads[i].Waiting? then Waiting(true) else threads[i])
  }

  /** The thread's position after its critical section. */
  function After(exit: Exit): Thread {
    match exit
    case Return(_) => Outside
    case Sleep => Waiting(false)
    case Work(batch, fOk) => Holding(batch, |batch|, fOk)
  }

  /** Runs the loop head for thread t on a state whose shared part has been cleaned up. */
  function HeadStep(s: State, t: nat): State
    requires t < |s.threads| && 0 <= s.sh.nTotal && 0 <= s.sh.nIdle
  {
    var (sh, exit) := Head(s.nBatchSize, s.sh, t == 0);
    var s' := s.(sh := sh, threads := s.threads[t := After(exit)]);
    if exit.Return? then s'.(added := [], verdict := exit.fRet, asked := s.added, waits := s.waits + 1) else s'
  }

  predicate Enabled(s: State, l: Label) {
    match l
    case Add(_, _) => |s.threads| > 0 && s.threads[0].Outside?
    case CallWait => |s.threads| > 0 && s.threads[0].Outside?
    case Enter(t) => t < |s.threads| && s.threads[t].Entering?
    case Wake(t) => t < |s.threads| && s.threads[t].Waiting?
    case Execute(t) => t < |s.threads| && s.threads[t].Holding? && s.threads[t].rest != []
    case Report(t) => t < |s.threads| && s.threads[t].Holding? && s.threads[t].rest == []
  }

  function Step(s: State, l: Label): State
    requires Enabled(s, l)
    requires l.Wake? ==> 1 <= s.sh.nIdle
    requires 0 <= s.sh.nTotal && 0 <= s.sh.nIdle
  {
    match l
    case Add(vChecks, pick) =>
      var threads :=
        if |vChecks| == 1 then (if pick > 0 then NotifiedOne(s.threads, pick) else s.threads)
        else if |vChecks| > 1 then NotifiedWorkers(s.threads)
        else s.threads;
      s.(sh := Queued(s.sh, vChecks), threads := threads, added := s.added + vChecks)
    case CallWait => s.(threads := s.threads[0 := Entering])
    case Enter(t) => HeadStep(s.(sh := s.sh.(nTotal := s.sh.nTotal + 1)), t)
    case Wake(t) => HeadStep(s.(sh := s.sh.(nIdle := s.sh.nIdle - 1), threads := s.threads[t := Entering]), t)
    case Execute(t) =>
      var h := s.threads[t];
      var fOk := if h.fOk then h.rest[0].passes else false;
      s.(threads := s.threads[t := Holding(h.rest[1..], h.n, fOk)])
    case Report(t) =>
      var h := s.threads[t];
      var sh := Reported(s.sh, h.n, h.fOk);
      var busy := s.threads[t := Entering];
      var threads := if sh.nTodo == 0 && t != 0 then NotifiedOne(busy, 0) else busy;
      HeadStep(s.(sh := sh, threads := threads), t)
  }

  // ---------- sums over threads

  function Sum(f: Thread -> nat, ts: seq<Thread>): nat {
    if ts == [] then 0 else Sum(f, ts[..|ts| - 1]) + f(ts[|ts| - 1])
  }

  function Held(t: Thread): nat { if t.Holding? then t.n else 0 }
  function IsHolding(t: Thread): nat { if t.Holding? then 1 else 0 }
  function IsWaiting(t: Thread): nat { if t.Waiting? then 1 else 0 }

  lemma {:induction false} SumUpdate(f: Thread -> nat, ts: seq<Thread>, t: nat, x: Thread)
    requires t < |ts|
    ensures Sum(f, ts[t := x]) == Sum(f, ts) - f(ts[t]) + f(x)
    ensures f(ts[t]) <= Sum(f, ts)
  {
    var last := |ts| - 1;
    if t == last {
      assert ts[t := x][..last] == ts[..last];
    } else {
      SumUpdate(f, ts[..last], t, x);
      assert ts[t := x][..last] == ts[..last][t := x];
    }
  }

  /** Notifying changes no sum that does not look at the notified flag. */
  lemma {:induction false} SumSame(f: Thread -> nat, a: seq<Thread>, b: seq<Thread>)
    requires |a| == |b| && forall i :: 0 <= i < |a| ==> f(a[i]) == f(b[i])
    ensures Sum(f, a) == Sum(f, b)
  {
    if a != [] {
      SumSame(f, a[..|a| - 1], b[..|b| - 1]);
    }
  }

  lemma {:induction false} SumZero(f: Thread -> nat, ts: seq<Thread>, i: nat)
    requires Sum(f, ts) == 0 && i < |ts|
    ensures f(ts[i]) == 0
  {
    if i < |ts| - 1 {
      SumZero(f, ts[..|ts| - 1], i);
    }
  }

  lemma {:induction false} SumPositive(f: Thread -> nat, ts: seq<Thread>) returns (i: nat)
    requires Sum(f, ts) > 0
    ensures i < |ts| && f(ts[i]) > 0
  {
    if f(ts[|ts| - 1]) > 0 {
      i := |ts| - 1;
    } else {
      i := SumPositive(f, ts[..|ts| - 1]);
    }
  }

  // ---------- the invariant

  ghost predicate ThreadPasses(t: Thread) {
    t.Holding? ==> t.fOk && AllPass(t.rest)
  }

  ghost predicate AllThreadsPass(ts: seq<Thread>) {
    forall i :: 0 <= i < |ts| ==> ThreadPasses(ts[i])
  }

  ghost predicate Inv(s: State) {
    && s.threads != []
    && s.sh.nTodo == |s.sh.queue| + Sum(Held, s.threads)
    && s.sh.nIdle == Sum(IsWaiting, s.threads)
    && s.sh.nTotal - s.sh.nIdle == Sum(IsHolding, s.threads)
    && (forall i :: 0 <= i < |s.threads| && s.threads[i].Holding? ==> s.threads[i].n >= 1)
    && (forall i :: 1 <= i < |s.threads| ==> !s.threads[i].Outside?)
    // no verdict is lost: all checks added pass exactly when all that is left of them does
    && (AllPass(s.added) <==> s.sh.fAllOk && AllPass(s.sh.queue) && AllThreadsPass(s.threads))
    && s.sh.nTodo <= |s.added|
    // a sleeping master has drained the queue, and is notified once nothing is left
    && (s.threads[0].Waiting? ==> s.sh.queue == [] && (s.threads[0].notified || s.sh.nTodo > 0))
    && (s.threads[0].Outside? && s.added == [] ==> s.sh.nTodo == 0)
    && (s.verdict <==> AllPass(s.asked))
    && !s.sh.fQuit
  }

  /** The assertions of the CCheckQueueControl constructor. */
  predicate ControlAsserts(sh: Shared) {
    sh.nTotal == sh.nIdle && sh.nTodo == 0 && sh.fAllOk
  }

  /** Thread t is inside its critical section, at the loop head. */
  ghost predicate Mid(s: State, t: nat) {
    && t < |s.threads| && s.threads[t].Entering?
    && s.sh.nTodo == |s.sh.queue| + Sum(Held, s.threads)
    && s.sh.nIdle == Sum(IsWaiting, s.threads)
    && s.sh.nTotal - s.sh.nIdle == Sum(IsHolding, s.threads) + 1
    && (forall i :: 0 <= i < |s.threads| && s.threads[i].Holding? ==> s.threads[i].n >= 1)
    && (forall i :: 1 <= i < |s.threads| ==> !s.threads[i].Outside?)
    && (AllPass(s.added) <==> s.sh.fAllOk && AllPass(s.sh.queue) && AllThreadsPass(s.threads))
    && s.sh.nTodo <= |s.added|
    && (s.threads[0].Waiting? ==> s.sh.queue == [] && (s.threads[0].notified || s.sh.nTodo > 0))
    && (s.threads[0].Outside? && s.added == [] ==> s.sh.nTodo == 0)
    && (s.verdict <==> AllPass(s.asked))
    && !s.sh.fQuit
  }

  lemma NothingHeld(s: State, t: nat)
    requires Mid(s, t) && s.sh.nTodo == 0
    ensures s.sh.queue == [] && AllThreadsPass(s.threads)
    ensures forall i :: 0 <= i < |s.threads| ==> !s.threads[i].Holding?
  {
    forall i | 0 <= i < |s.threads| ensures !s.threads[i].Holding? {
      SumZero(Held, s.threads, i);
    }
  }

  lemma SumsUpdate(ts: seq<Thread>, t: nat, x: Thread)
    requires t < |ts|
    ensures Sum(Held, ts[t := x]) == Sum(Held, ts) - Held(ts[t]) + Held(x)
    ensures Sum(IsWaiting, ts[t := x]) == Sum(IsWaiting, ts) - IsWaiting(ts[t]) + IsWaiting(x)
    ensures Sum(IsHolding, ts[t := x]) == Sum(IsHolding, ts) - IsHolding(ts[t]) + IsHolding(x)
  {
    SumUpdate(Held, ts, t, x);
    SumUpdate(IsWaiting, ts, t, x);
    SumUpdate(IsHolding, ts, t, x);
  }

  lemma PassUpdate(ts: seq<Thread>, t: nat, x: Thread)
    requires t < |ts| && ThreadPasses(ts[t])
    ensures AllThreadsPass(ts[t := x]) <==> AllThreadsPass(ts) && ThreadPasses(x)
  {
    var us := ts[t := x];
    if AllThreadsPass(us) {
      assert us[t] == x;
      forall i | 0 <= i < |ts| ensures ThreadPasses(ts[i]) {
        assert i != t ==> us[i] == ts[i];
      }
    }
  }

  lemma BatchPasses(queue: seq<Check>, cut: nat)
    requires cut <= |queue|
    ensures AllPass(queue) <==> AllPass(queue[..cut]) && AllPass(Reversed(queue[cut..]))
  {
    assert queue == queue[..cut] + queue[cut..];
    AllPassConcat(queue[..cut], queue[cut..]);
    ReversedPasses(queue[cut..]);
  }

  /** The loop head keeps the invariant; when the master returns, its verdict is the conjunction of all checks added
      since the last Wait. */
  lemma HeadKeeps(s: State, t: nat)
    requires Mid(s, t)
    ensures Inv(HeadStep(s, t))
    ensures HeadStep(s, t).waits != s.waits ==>
              HeadStep(s, t).verdict == AllPass(s.added) && ControlAsserts(HeadStep(s, t).sh)
  {
    hide Sum, AllPass, AllThreadsPass, BatchSize, Reversed;
    var (sh, exit) := Head(s.nBatchSize, s.sh, t == 0);
    var x := After(exit);
    SumsUpdate(s.threads, t, x);
    PassUpdate(s.threads, t, x);
    if s.sh.queue != [] {
      BatchFits(s.nBatchSize, s.sh);
      BatchPasses(s.sh.queue, |s.sh.queue| - BatchSize(s.nBatchSize, s.sh));
    } else {
      AllPassEmpty();
      if s.sh.nTodo == 0 {
        NothingHeld(s, t);
        SumHoldingZero(s.threads);
      }
    }
  }

  lemma AllPassEmpty()
    ensures AllPass([])
  {
  }

  lemma {:induction false} SumHoldingZero(ts: seq<Thread>)
    requires forall i :: 0 <= i < |ts| ==> !ts[i].Holding?
    ensures Sum(IsHolding, ts) == 0 && Sum(Held, ts) == 0
  {
    if ts != [] {
      SumHoldingZero(ts[..|ts| - 1]);
    }
  }

  lemma InvAllowsStep(s: State, l: Label)
    requires Inv(s) && Enabled(s, l)
    ensures 0 <= s.sh.nTotal && 0 <= s.sh.nIdle && (l.Wake? ==> 1 <= s.sh.nIdle)
  {
    if l.Wake? {
      SumUpdate(IsWaiting, s.threads, l.t, Outside);
    }
  }

  lemma MarkedSums(ts: seq<Thread>, us: seq<Thread>)
    requires |ts| == |us|
    requires forall i :: 0 <= i < |ts| ==> us[i] == ts[i] || (ts[i].Waiting? && us[i] == Waiting(true))
    ensures Sum(Held, us) == Sum(Held, ts) && Sum(IsWaiting, us) == Sum(IsWaiting, ts)
    ensures Sum(IsHolding, us) == Sum(IsHolding, ts)
    ensures AllThreadsPass(us) <==> AllThreadsPass(ts)
  {
    SumSame(Held, us, ts);
    SumSame(IsWaiting, us, ts);
    SumSame(IsHolding, us, ts);
    if AllThreadsPass(us) {
      forall i | 0 <= i < |ts| ensures ThreadPasses(ts[i]) {
        assert ThreadPasses(us[i]);
      }
    }
  }

  lemma AddKeeps(s: State, vChecks: seq<Check>, pick: nat)
    requires Inv(s) && Enabled(s, Add(vChecks, pick))
    ensures Inv(Step(s, Add(vChecks, pick)))
  {
    var s' := Step(s, Add(vChecks, pick));
    MarkedSums(s.threads, s'.threads);
    AllPassConcat(s.added, vChecks);
    AllPassConcat(s.sh.queue, vChecks);
  }

  lemma CallWaitKeeps(s: State)
    requires Inv(s) && Enabled(s, CallWait)
    ensures Inv(Step(s, CallWait))
  {
    SumsUpdate(s.threads, 0, Entering);
    PassUpdate(s.threads, 0, Entering);
  }

  lemma ExecuteKeeps(s: State, t: nat)
    requires Inv(s) && Enabled(s, Execute(t))
    ensures Inv(Step(s, Execute(t)))
  {
    var h := s.threads[t];
    var x := Step(s, Execute(t)).threads[t];
    SumsUpdate(s.threads, t, x);
    assert h.rest == [h.rest[0]] + h.rest[1..];
    AllPassConcat([h.rest[0]], h.rest[1..]);
    assert AllPass([h.rest[0]]) <==> h.rest[0].passes;
    assert ThreadPasses(x) <==> ThreadPasses(h);
    SwapSamePass(s.threads, t, x);
  }

  lemma SwapSamePass(ts: seq<Thread>, t: nat, x: Thread)
    requires t < |ts| && (ThreadPasses(x) <==> ThreadPasses(ts[t]))
    ensures AllThreadsPass(ts[t := x]) <==> AllThreadsPass(ts)
  {
    var us := ts[t := x];
    assert us[t] == x;
    if AllThreadsPass(us) {
      forall i | 0 <= i < |ts| ensures ThreadPasses(ts[i]) {
        assert ThreadPasses(us[i]);
      }
    }
  }

  lemma EnterMid(s: State, t: nat)
    requires Inv(s) && Enabled(s, Enter(t))
    ensures Mid(s.(sh := s.sh.(nTotal := s.sh.nTotal + 1)), t)
  {
  }

  lemma WakeMid(s: State, t: nat)
    requires Inv(s) && Enabled(s, Wake(t))
    ensures Mid(s.(sh := s.sh.(nIdle := s.sh.nIdle - 1), threads := s.threads[t := Entering]), t)
  {
    SumsUpdate(s.threads, t, Entering);
    PassUpdate(s.threads, t, Entering);
  }

  /** The state in which a reporting thread reaches the loop head. */
  function ReportState(s: State, t: nat): State
    requires Enabled(s, Report(t))
  {
    var h := s.threads[t];
    var sh := Reported(s.sh, h.n, h.fOk);
    var busy := s.threads[t := Entering];
    s.(sh := sh, threads := if sh.nTodo == 0 && t != 0 then NotifiedOne(busy, 0) else busy)
  }

  lemma ReportMid(s: State, t: nat)
    requires Inv(s) && Enabled(s, Report(t))
    ensures Mid(ReportState(s, t), t)
  {
    var h := s.threads[t];
    var busy := s.threads[t := Entering];
    SumsUpdate(s.threads, t, Entering);
    MarkedSums(busy, ReportState(s, t).threads);
    assert AllThreadsPass(s.threads) <==> AllThreadsPass(busy) && h.fOk by {
      assert busy[t := h] == s.threads;
      assert ThreadPasses(h) <==> h.fOk;
      PassUpdate(busy, t, h);
    }
  }

  /** Every step of every thread keeps the invariant. A step on which Wait returns yields the conjunction of all checks
      added since the last Wait and leaves what the control constructor asserts. */
  lemma StepKeeps(s: State, l: Label)
    requires Inv(s) && Enabled(s, l)
    ensures 0 <= s.sh.nTotal && 0 <= s.sh.nIdle && (l.Wake? ==> 1 <= s.sh.nIdle)
    ensures Inv(Step(s, l))
    ensures Step(s, l).waits != s.waits ==>
              && Step(s, l).verdict == AllPass(s.added) && Step(s, l).asked == s.added
              && ControlAsserts(Step(s, l).sh)
  {
    hide Inv, Mid, Head, AllPass, ControlAsserts;
    InvAllowsStep(s, l);
    match l
    case Add(vChecks, pick) => AddKeeps(s, vChecks, pick);
    case CallWait => CallWaitKeeps(s);
    case Enter(t) =>
      EnterMid(s, t);
      HeadKeeps(s.(sh := s.sh.(nTotal := s.sh.nTotal + 1)), t);
    case Wake(t) =>
      WakeMid(s, t);
      HeadKeeps(s.(sh := s.sh.(nIdle := s.sh.nIdle - 1), threads := s.threads[t := Entering]), t);
    case Execute(t) => ExecuteKeeps(s, t);
    case Report(t) =>
      ReportMid(s, t);
      HeadKeeps(ReportState(s, t), t);
  }

  /** Add wakes one waiting worker for a single check and all of them for more, never the master. */
  lemma AddNotifies(s: State, vChecks: seq<Check>, pick: nat, i: nat)
    requires Inv(s) && s.threads[0].Outside? && i < |s.threads|
    ensures Enabled(s, Add(vChecks, pick)) && 0 <= s.sh.nTotal && 0 <= s.sh.nIdle
    ensures Step(s, Add(vChecks, pick)).threads[i] ==
            if i > 0 && s.threads[i].Waiting? && (|vChecks| >= 2 || (|vChecks| == 1 && pick == i)) then Waiting(true)
            else s.threads[i]
  {
    InvAllowsStep(s, Add(vChecks, pick));
    hide Inv, Queued;
  }

  // ---------- runs

  lemma InitInv(workers: nat, nBatchSize: nat)
    ensures Inv(Init(workers, nBatchSize))
  {
    var ts := Init(workers, nBatchSize).threads;
    SumHoldingZero(ts);
    NobodyWaits(ts);
  }

  lemma {:induction false} NobodyWaits(ts: seq<Thread>)
    requires forall i :: 0 <= i < |ts| ==> !ts[i].Waiting?
    ensures Sum(IsWaiting, ts) == 0
  {
    if ts != [] {
      NobodyWaits(ts[..|ts| - 1]);
    }
  }

  /** The state after a sequence of steps, None when one of them is not enabled. */
  ghost predicate IsRun(s: State, ls: seq<Label>, end: State)
    requires Inv(s)
    decreases |ls|
  {
    if ls == [] then s == end
    else
      && Enabled(s, ls[0])
      && (StepKeeps(s, ls[0]); IsRun(Step(s, ls[0]), ls[1..], end))
  }

  /** Safety over every interleaving of any number of workers. */
  lemma {:induction false} RunsKeepInv(s: State, ls: seq<Label>, end: State)
    requires Inv(s) && IsRun(s, ls, end)
    ensures Inv(end)
    decreases |ls|
  {
    if ls != [] {
      StepKeeps(s, ls[0]);
      RunsKeepInv(Step(s, ls[0]), ls[1..], end);
    }
  }

  /** Counters in every reachable state: nTodo is the checks queued or in unreported batches, nTotal - nIdle the threads
      that hold a batch. Between a Wait and the next Add the control constructor's assertions hold, whatever the
      workers do. */
  lemma ReachableCounters(workers: nat, nBatchSize: nat, ls: seq<Label>, end: State)
    requires (InitInv(workers, nBatchSize); IsRun(Init(workers, nBatchSize), ls, end))
    ensures end.sh.nTodo == |end.sh.queue| + Sum(Held, end.threads)
    ensures end.sh.nTotal - end.sh.nIdle == Sum(IsHolding, end.threads)
    ensures end.threads != [] && (end.threads[0].Outside? && end.added == [] ==> ControlAsserts(end.sh))
    ensures end.verdict == AllPass(end.asked)
  {
    InitInv(workers, nBatchSize);
    RunsKeepInv(Init(workers, nBatchSize), ls, end);
    if end.sh.nTodo == 0 {
      forall i | 0 <= i < |end.threads| ensures !end.threads[i].Holding? {
        SumZero(Held, end.threads, i);
      }
      SumHoldingZero(end.threads);
    }
  }

  // ---------- one round of the control

  /** All checks handed over during these steps, in order. */
  function Added(ls: seq<Label>): seq<Check> {
    if ls == [] then [] else (if ls[0].Add? then ls[0].vChecks else []) + Added(ls[1..])
  }

  lemma StepAdds(s: State, l: Label)
    requires Inv(s) && Enabled(s, l)
    ensures 0 <= s.sh.nTotal && 0 <= s.sh.nIdle && (l.Wake? ==> 1 <= s.sh.nIdle)
    ensures s.waits <= Step(s, l).waits
    ensures s.waits == Step(s, l).waits ==> Step(s, l).added == s.added + if l.Add? then l.vChecks else []
  {
    hide Inv, Queued, Reported;
    InvAllowsStep(s, l);
  }

  /** Until Wait returns, the queue answers for what was added before and what has been added since. */
  lemma {:induction false} AddedSoFar(s: State, ls: seq<Label>, end: State)
    requires Inv(s) && IsRun(s, ls, end)
    ensures s.waits <= end.waits
    ensures s.waits == end.waits ==> end.added == s.added + Added(ls)
    decreases |ls|
  {
    hide Inv, Step, Enabled;
    if ls == [] {
      assert s.added + [] == s.added;
    } else {
      StepKeeps(s, ls[0]);
      StepAdds(s, ls[0]);
      AddedSoFar(Step(s, ls[0]), ls[1..], end);
      var first := if ls[0].Add? then ls[0].vChecks else [];
      assert s.added + first + Added(ls[1..]) == s.added + (first + Added(ls[1..]));
    }
  }

  /** The step on which Wait returns gives the conjunction of exactly the checks added since the last Wait, whatever the
      workers did in between. */
  lemma RoundVerdict(s: State, ls: seq<Label>, mid: State, l: Label)
    requires Inv(s) && s.added == [] && IsRun(s, ls, mid) && mid.waits == s.waits && Enabled(mid, l)
    ensures (RunsKeepInv(s, ls, mid); StepKeeps(mid, l);
             Step(mid, l).waits != mid.waits ==> Step(mid, l).verdict == AllPass(Added(ls)))
  {
    hide Inv, AllPass;
    RunsKeepInv(s, ls, mid);
    StepKeeps(mid, l);
    AddedSoFar(s, ls, mid);
    assert [] + Added(ls) == Added(ls);
  }

  // ---------- progress

  function Effort(t: Thread): nat {
    match t
    case Outside => 0
    case Entering => 2
    case Waiting(notified) => if notified then 1 else 0
    case Holding(rest, _, _) => 3 + |rest|
  }

  /** Queued, held and unreported work, and threads that have yet to look. */
  function Measure(s: State): nat {
    5 * |s.sh.queue| + Sum(Effort, s.threads)
  }

  /** A step other than a spurious wake-up. */
  predicate Productive(s: State, l: Label)
    requires Enabled(s, l)
  {
    l.Wake? ==> s.threads[l.t].notified
  }

  lemma HeadDecreases(s: State, t: nat)
    requires Mid(s, t)
    ensures Measure(HeadStep(s, t)) <= Measure(s) - 2
  {
    hide AllPass, AllThreadsPass, Reversed;
    var (sh, exit) := Head(s.nBatchSize, s.sh, t == 0);
    SumUpdate(Effort, s.threads, t, After(exit));
    if s.sh.queue != [] {
      BatchFits(s.nBatchSize, s.sh);
    }
  }

  /** While the master is inside Wait, every productive step uses up work and no spurious wake-up adds any. */
  lemma StepDecreases(s: State, l: Label)
    requires Inv(s) && Enabled(s, l) && s.threads != [] && !s.threads[0].Outside?
    ensures 0 <= s.sh.nTotal && 0 <= s.sh.nIdle && (l.Wake? ==> 1 <= s.sh.nIdle)
    ensures Measure(Step(s, l)) <= Measure(s)
    ensures Productive(s, l) ==> Measure(Step(s, l)) < Measure(s)
  {
    hide Inv, Mid, Head, Sum, HeadStep;
    InvAllowsStep(s, l);
    match l
    case Enter(t) =>
      EnterMid(s, t);
      HeadDecreases(s.(sh := s.sh.(nTotal := s.sh.nTotal + 1)), t);
    case Wake(t) =>
      WakeMid(s, t);
      SumUpdate(Effort, s.threads, t, Entering);
      HeadDecreases(s.(sh := s.sh.(nIdle := s.sh.nIdle - 1), threads := s.threads[t := Entering]), t);
    case Execute(t) =>
      SumUpdate(Effort, s.threads, t, Step(s, l).threads[t]);
    case Report(t) =>
      ReportMid(s, t);
      SumUpdate(Effort, s.threads, t, Entering);
      var busy := s.threads[t := Entering];
      SumUpdate(Effort, busy, 0, Waiting(true));
      HeadDecreases(ReportState(s, t), t);
  }

  /** A master inside Wait is never stuck: some thread can take a productive step, a sleeping unnotified master
      meaning that another thread holds a batch. No worker is needed. */
  lemma NeverStuck(s: State) returns (l: Label)
    requires Inv(s) && !s.threads[0].Outside?
    ensures Enabled(s, l) && Productive(s, l)
    ensures s.threads[0] == Waiting(false) ==> l.Execute? || l.Report?
  {
    match s.threads[0]
    case Entering => l := Enter(0);
    case Holding(rest, _, _) => l := if rest == [] then Report(0) else Execute(0);
    case Waiting(notified) =>
      if notified {
        l := Wake(0);
      } else {
        var t := SumPositive(Held, s.threads);
        l := if s.threads[t].rest == [] then Report(t) else Execute(t);
      }
  }

  /** A step of a round ends it exactly when the master comes out of Wait. */
  lemma MasterLeaves(s: State, l: Label)
    requires Inv(s) && Enabled(s, l) && !s.threads[0].Outside?
    ensures 0 <= s.sh.nTotal && 0 <= s.sh.nIdle && (l.Wake? ==> 1 <= s.sh.nIdle)
    ensures Step(s, l).threads != []
    ensures if Step(s, l).threads[0].Outside? then Step(s, l).waits == s.waits + 1 && Step(s, l).added == []
            else Step(s, l).waits == s.waits
  {
    InvAllowsStep(s, l);
    assert !s.sh.fQuit;
    hide Inv, BatchSize, Reversed;
  }

  /** From anywhere inside Wait, some run brings the master out. */
  lemma {:induction false} WaitCanReturn(s: State) returns (ls: seq<Label>, mid: State, l: Label)
    requires Inv(s) && !s.threads[0].Outside?
    ensures IsRun(s, ls, mid) && Added(ls) == [] && mid.waits == s.waits && Enabled(mid, l)
    ensures (RunsKeepInv(s, ls, mid); StepKeeps(mid, l);
             && Step(mid, l).threads[0].Outside? && Step(mid, l).waits == s.waits + 1 && Step(mid, l).added == [])
    decreases Measure(s)
  {
    hide Inv, Step, Measure, Productive;
    l := NeverStuck(s);
    StepKeeps(s, l);
    MasterLeaves(s, l);
    if Step(s, l).threads[0].Outside? {
      ls, mid := [], s;
    } else {
      StepDecreases(s, l);
      var first, rest := l, [];
      rest, mid, l := WaitCanReturn(Step(s, first));
      ls := [first] + rest;
      assert ls[1..] == rest;
      assert !first.Add? by {
        OutsideAdds(s, first);
      }
    }
  }

  lemma OutsideAdds(s: State, l: Label)
    requires Inv(s) && Enabled(s, l) && !s.threads[0].Outside?
    ensures !l.Add? && !l.CallWait?
  {
  }

  /** Every round can be gone through: with the master outside and nothing pending it can hand over any checks and call
      Wait, and some run then ends with Wait returning their conjunction and the queue ready for the next round. */
  lemma RoundHappens(s: State, vChecks: seq<Check>) returns (ls: seq<Label>, mid: State, l: Label)
    requires Inv(s) && s.threads[0].Outside? && s.added == []
    ensures IsRun(s, ls, mid) && Added(ls) == vChecks && Enabled(mid, l)
    ensures (RunsKeepInv(s, ls, mid); StepKeeps(mid, l);
             var end := Step(mid, l);
             && end.threads[0].Outside? && end.waits == s.waits + 1 && end.added == []
             && end.verdict == AllPass(vChecks))
  {
    hide Inv, Step, AllPass, IsRun, Added;
    var s2 := BeginRound(s, vChecks);
    var rest;
    rest, mid, l := WaitCanReturn(s2);
    ls := Begun(s, vChecks, s2, rest, mid);
    RoundVerdict(s, ls, mid, l);
    RunsKeepInv(s, ls, mid);
    StepKeeps(mid, l);
  }

  /** The master's own part of a round: all checks at once, then Wait. */
  lemma BeginRound(s: State, vChecks: seq<Check>) returns (s2: State)
    requires Inv(s) && s.threads[0].Outside?
    ensures Inv(s2) && !s2.threads[0].Outside? && s2.waits == s.waits
    ensures Enabled(s, Add(vChecks, 0)) && 0 <= s.sh.nTotal && 0 <= s.sh.nIdle
    ensures var s1 := Step(s, Add(vChecks, 0));
            Inv(s1) && Enabled(s1, CallWait) && 0 <= s1.sh.nTotal && 0 <= s1.sh.nIdle && s2 == Step(s1, CallWait)
  {
    StepKeeps(s, Add(vChecks, 0));
    var s1 := Step(s, Add(vChecks, 0));
    AddNotifies(s, vChecks, 0, 0);
    StepKeeps(s1, CallWait);
    s2 := Step(s1, CallWait);
    hide Inv;
  }

  lemma Begun(s: State, vChecks: seq<Check>, s2: State, rest: seq<Label>, end: State) returns (ls: seq<Label>)
    requires Inv(s) && Enabled(s, Add(vChecks, 0)) && 0 <= s.sh.nTotal && 0 <= s.sh.nIdle
    requires var s1 := Step(s, Add(vChecks, 0));
             Inv(s1) && Enabled(s1, CallWait) && 0 <= s1.sh.nTotal && 0 <= s1.sh.nIdle && s2 == Step(s1, CallWait)
    requires Inv(s2) && IsRun(s2, rest, end)
    ensures IsRun(s, ls, end) && Added(ls) == vChecks + Added(rest)
  {
    hide Inv, Step, Enabled;
    ls := [Add(vChecks, 0), CallWait] + rest;
    assert ls[1..] == [CallWait] + rest && ls[1..][1..] == rest;
    assert IsRun(Step(s, Add(vChecks, 0)), ls[1..], end);
    assert Added(ls[1..]) == [] + Added(rest);
  }

  ghost predicate ProductiveRun(s: State, ls: seq<Label>, end: State)
    requires Inv(s)
    decreases |ls|
  {
    if ls == [] then s == end
    else
      && Enabled(s, ls[0]) && Productive(s, ls[0]) && !s.threads[0].Outside?
      && (StepKeeps(s, ls[0]); ProductiveRun(Step(s, ls[0]), ls[1..], end))
  }

  /** Wait returns after at most Measure(s) productive steps of anybody: a longer run with the master inside Wait
      throughout does not exist. */
  lemma {:induction false} WaitReturns(s: State, ls: seq<Label>, end: State)
    requires Inv(s) && ProductiveRun(s, ls, end)
    ensures |ls| <= Measure(s) - Measure(end)
    decreases |ls|
  {
    if ls != [] {
      StepKeeps(s, ls[0]);
      StepDecreases(s, ls[0]);
      WaitReturns(Step(s, ls[0]), ls[1..], end);
    }
  }
}
