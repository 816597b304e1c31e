/**
 * The parallel check queue (src/checkqueue.h): one master and any number of workers, modelled as
 * interleaved steps. A step is what a thread does between taking and releasing the mutex, one
 * check evaluated outside it, or one notification. Condition variables may wake without cause.
 */
module CheckQueue {
  import opened Arithmetic
  import opened Common

  /** A verification; running it returns `passes`. */
  datatype Check = Check(id: int, passes: bool)

  /** Where a thread stands in Loop. */
  datatype Thread =
    | Ready(nNow: nat, ok: bool)                       // about to lock; nNow is 0 on the first iteration
    | Locked                                           // holding the lock, at the head of the inner loop
    | Asleep(notified: bool)                           // inside cond.wait
    | Working(todo: seq<Check>, ok: bool, nNow: nat)   // running its batch of nNow checks

  /** The master is outside, in Add between unlocking and notifying, or inside Wait. */
  datatype Master = Outside | Notifying(one: bool) | InLoop(thread: Thread)

  /** A finished round: what was added since the last one, and what Wait returned. */
  datatype Round = Round(checks: seq<Check>, result: bool)

  datatype State = State(
    queue: seq<Check>,
    nIdle: int,
    nTotal: int,
    allOk: bool,
    nTodo: int,
    nBatchSize: nat,
    workers: seq<Thread>,
    master: Master,
    added: seq<Check>,      // history: checks added in this round
    rounds: seq<Round>)     // history: rounds finished so far

  datatype Tid = MasterId | WorkerId(i: nat)

  predicate At(s: State, id: Tid, t: Thread) {
    match id
    case MasterId => s.master == InLoop(t)
    case WorkerId(i) => i < |s.workers| && s.workers[i] == t
  }

  function Move(s: State, id: Tid, t: Thread): State
    requires id.WorkerId? ==> id.i < |s.workers|
  {
    match id
    case MasterId => s.(master := InLoop(t))
    case WorkerId(i) => s.(workers := s.workers[i := t])
  }

  // ---------------------------------------------------------------- steps

  /** How many checks a thread takes in one go. */
  function BatchCount(s: State): int
    requires s.nTotal >= 0 && s.nIdle >= 0
  {
    Max(1, Min(s.nBatchSize, |s.queue| / (s.nTotal + s.nIdle + 1)))
  }

  /** The last n checks, in the order in which they are popped. */
  function Popped(queue: seq<Check>, n: nat): seq<Check>
    requires n <= |queue|
  {
    seq(n, i requires 0 <= i < n => queue[|queue| - 1 - i])
  }

  /** The head of the inner loop, with the lock held: return, sleep or take a batch. */
  function LoopTop(s: State, id: Tid): State
    requires id.WorkerId? ==> id.i < |s.workers|
    requires s.nTotal >= 0 && s.nIdle >= 0
  {
    if s.queue == [] then
      if id.MasterId? && s.nTodo == 0 then
        s.(nTotal := s.nTotal - 1, allOk := true, master := Outside,
           added := [], rounds := s.rounds + [Round(s.added, s.allOk)])
      else
        Move(s, id, Asleep(false)).(nIdle := s.nIdle + 1)
    else
      var n := BatchCount(s);
      if n <= |s.queue| then
        Move(s, id, Working(Popped(s.queue, n), s.allOk, n)).(queue := s.queue[..|s.queue| - n])
      else s
  }

  /** Locking, and the clean-up of the previous iteration. */
  function CleanUp(s: State, id: Tid, nNow: nat, ok: bool): State
    requires id.WorkerId? ==> id.i < |s.workers|
  {
    var m := Move(s, id, Locked);
    if nNow == 0 then m.(nTotal := s.nTotal + 1)
    else
      var left := s.nTodo - nNow;
      m.(allOk := s.allOk && ok, nTodo := left,
         master := if left == 0 && id.WorkerId? && s.master.InLoop? && s.master.thread.Asleep?
                   then InLoop(Asleep(true)) else m.master)
  }

  ghost predicate LockStep(s: State, t: State, id: Tid) {
    exists nNow, ok :: LockStepWith(s, t, id, nNow, ok)
  }

  ghost predicate LockStepWith(s: State, t: State, id: Tid, nNow: nat, ok: bool) {
    && At(s, id, Ready(nNow, ok))
    && var c := CleanUp(s, id, nNow, ok);
       c.nTotal >= 0 && c.nIdle >= 0 && t == LoopTop(c, id)
  }

  /** A sleeping thread takes the lock again. */
  function Woken(s: State, id: Tid): State
    requires id.WorkerId? ==> id.i < |s.workers|
  {
    Move(s, id, Locked).(nIdle := s.nIdle - 1)
  }

  /** A sleeping thread wakes; `notified` says whether it had been notified. */
  ghost predicate WakeStep(s: State, t: State, id: Tid, notified: bool) {
    && At(s, id, Asleep(notified))
    && s.nTotal >= 0 && s.nIdle >= 1
    && t == LoopTop(Woken(s, id), id)
  }

  /** One check of a batch is run, or skipped once a failure is known. */
  ghost predicate ExecStep(s: State, t: State, id: Tid) {
    exists todo, ok, nNow :: ExecStepWith(s, t, id, todo, ok, nNow)
  }

  ghost predicate ExecStepWith(s: State, t: State, id: Tid, todo: seq<Check>, ok: bool, nNow: nat) {
    && At(s, id, Working(todo, ok, nNow)) && todo != []
    && t == Move(s, id, Working(todo[1..], if ok then todo[0].passes else false, nNow))
  }

  ghost predicate DoneStep(s: State, t: State, id: Tid) {
    exists ok, nNow :: DoneStepWith(s, t, id, ok, nNow)
  }

  ghost predicate DoneStepWith(s: State, t: State, id: Tid, ok: bool, nNow: nat) {
    At(s, id, Working([], ok, nNow)) && t == Move(s, id, Ready(nNow, ok))
  }

  /** Add: the locked part. */
  ghost predicate AddStep(s: State, t: State, checks: seq<Check>) {
    && s.master == Outside && checks != []
    && t == s.(queue := s.queue + checks, nTodo := s.nTodo + |checks|,
               master := Notifying(|checks| == 1), added := s.added + checks)
  }

  /** Add: the notification, after the lock has been released. */
  ghost predicate NotifyStep(s: State, t: State) {
    && s.master.Notifying?
    && t == s.(master := Outside, workers := t.workers)
    && |t.workers| == |s.workers|
    && (forall i :: 0 <= i < |s.workers| ==>
          t.workers[i] == s.workers[i] || (s.workers[i].Asleep? && t.workers[i] == Asleep(true)))
    && (s.master.one ==>
          forall i, j :: 0 <= i < j < |s.workers| ==> t.workers[i] == s.workers[i] || t.workers[j] == s.workers[j])
    && (!s.master.one ==> forall i :: 0 <= i < |s.workers| && s.workers[i].Asleep? ==> t.workers[i] == Asleep(true))
  }

  /** The master calls Wait. */
  ghost predicate EnterStep(s: State, t: State) {
    s.master == Outside && t == s.(master := InLoop(Ready(0, true)))
  }

  /** Steps of threads that are inside Loop, other than waking without cause. */
  ghost predicate LoopStep(s: State, t: State) {
    exists id :: LockStep(s, t, id) || WakeStep(s, t, id, true) || ExecStep(s, t, id) || DoneStep(s, t, id)
  }

  ghost predicate SpuriousWake(s: State, t: State) {
    exists id :: WakeStep(s, t, id, false)
  }

  ghost predicate Next(s: State, t: State) {
    || LoopStep(s, t)
    || SpuriousWake(s, t)
    || (exists checks :: AddStep(s, t, checks))
    || NotifyStep(s, t)
    || EnterStep(s, t)
  }

  ghost predicate Init(s: State) {
    && s.queue == [] && s.nIdle == 0 && s.nTotal == 0 && s.allOk && s.nTodo == 0
    && s.master == Outside && s.added == [] && s.rounds == []
    && forall i :: 0 <= i < |s.workers| ==> s.workers[i] == Ready(0, true)
  }

  // ---------------------------------------------------------------- invariant

  ghost predicate AllPass(checks: seq<Check>) {
    forall i :: 0 <= i < |checks| ==> checks[i].passes
  }

  /** Checks taken from the queue by this thread and not yet accounted for. */
  function InFlight(t: Thread): nat {
    match t
    case Ready(n, _) => n
    case Locked => 0
    case Asleep(_) => 0
    case Working(_, _, n) => n
  }

  function Sleeping(t: Thread): nat { if t.Asleep? then 1 else 0 }

  function Entered(t: Thread): nat { if t.Ready? && t.nNow == 0 then 0 else 1 }

  /** Nothing this thread holds has failed or will fail. */
  ghost predicate Passing(t: Thread) {
    match t
    case Ready(n, ok) => n > 0 ==> ok
    case Locked => true
    case Asleep(_) => true
    case Working(todo, ok, _) => ok && AllPass(todo)
  }

  predicate WellFormed(t: Thread) {
    t.Working? ==> t.nNow >= 1
  }

  function Sum(ts: seq<Thread>, f: Thread -> nat): nat {
    if ts == [] then 0 else f(ts[0]) + Sum(ts[1..], f)
  }

  function OfMaster(m: Master, f: Thread -> nat): nat {
    if m.InLoop? then f(m.thread) else 0
  }

  function Total(s: State, f: Thread -> nat): nat {
    Sum(s.workers, f) + OfMaster(s.master, f)
  }

  ghost predicate ThreadsPassing(s: State) {
    && (forall i :: 0 <= i < |s.workers| ==> Passing(s.workers[i]))
    && (s.master.InLoop? ==> Passing(s.master.thread))
  }

  ghost predicate Counts(s: State) {
    && s.nTodo == |s.queue| + Total(s, InFlight)
    && s.nIdle == Total(s, Sleeping)
    && s.nTotal == Total(s, Entered)
  }

  ghost predicate Verdict(s: State) {
    && (AllPass(s.added) <==> s.allOk && AllPass(s.queue) && ThreadsPassing(s))
    && forall k :: 0 <= k < |s.rounds| ==> s.rounds[k].result == AllPass(s.rounds[k].checks)
  }

  /** A sleeping master has nothing queued, and is notified as soon as nothing is left. */
  ghost predicate MasterAwaited(s: State) {
    s.master.InLoop? && s.master.thread.Asleep? ==>
      s.queue == [] && (s.nTodo == 0 ==> s.master.thread.notified)
  }

  ghost predicate Shapes(s: State) {
    && (forall i :: 0 <= i < |s.workers| ==> WellFormed(s.workers[i]))
    && (s.master.InLoop? ==> WellFormed(s.master.thread))
  }

  /** Between two steps no thread holds the lock. */
  ghost predicate Unlocked(s: State) {
    && (forall i :: 0 <= i < |s.workers| ==> !s.workers[i].Locked?)
    && (s.master.InLoop? ==> !s.master.thread.Locked?)
  }

  /** The part that also holds while a thread holds the lock. */
  ghost predicate Core(s: State) {
    Counts(s) && Verdict(s) && MasterAwaited(s) && Shapes(s)
  }

  ghost predicate Inv(s: State) {
    Core(s) && Unlocked(s)
  }

  // ---------------------------------------------------------------- sums over threads

  lemma {:induction false} SumUpdate(ts: seq<Thread>, i: nat, t: Thread, f: Thread -> nat)
    requires i < |ts|
    ensures Sum(ts[i := t], f) == Sum(ts, f) - f(ts[i]) + f(t)
  {
    if i == 0 {
      assert ts[i := t][1..] == ts[1..];
    } else {
      SumUpdate(ts[1..], i - 1, t, f);
      assert ts[i := t][1..] == ts[1..][i - 1 := t];
    }
  }

  lemma {:induction false} SumSame(ts: seq<Thread>, us: seq<Thread>, f: Thread -> nat)
    requires |ts| == |us| && forall i :: 0 <= i < |ts| ==> f(ts[i]) == f(us[i])
    ensures Sum(ts, f) == Sum(us, f)
  {
    if ts != [] {
      SumSame(ts[1..], us[1..], f);
    }
  }

  lemma {:induction false} SumMember(ts: seq<Thread>, i: nat, f: Thread -> nat)
    requires i < |ts|
    ensures f(ts[i]) <= Sum(ts, f)
  {
    if i > 0 {
      SumMember(ts[1..], i - 1, f);
    }
  }

  lemma {:induction false} SumPositive(ts: seq<Thread>, f: Thread -> nat) returns (i: nat)
    requires Sum(ts, f) > 0
    ensures i < |ts| && f(ts[i]) > 0
  {
    if f(ts[0]) > 0 {
      i := 0;
    } else {
      i := SumPositive(ts[1..], f);
      i := i + 1;
    }
  }

  /** Moving one thread changes a total by that thread's share. */
  lemma MoveTotal(s: State, id: Tid, was: Thread, t: Thread, f: Thread -> nat)
    requires At(s, id, was)
    ensures Total(Move(s, id, t), f) == Total(s, f) - f(was) + f(t)
    ensures f(was) <= Total(s, f)
  {
    if id.WorkerId? {
      SumUpdate(s.workers, id.i, t, f);
      SumMember(s.workers, id.i, f);
    }
  }

  lemma MoveCounts(s: State, id: Tid, was: Thread, t: Thread)
    requires At(s, id, was)
    ensures var m := Move(s, id, t);
            && Total(m, InFlight) == Total(s, InFlight) - InFlight(was) + InFlight(t)
            && Total(m, Sleeping) == Total(s, Sleeping) - Sleeping(was) + Sleeping(t)
            && Total(m, Entered) == Total(s, Entered) - Entered(was) + Entered(t)
    ensures InFlight(was) <= Total(s, InFlight) && Sleeping(was) <= Total(s, Sleeping)
  {
    MoveTotal(s, id, was, t, InFlight);
    MoveTotal(s, id, was, t, Sleeping);
    MoveTotal(s, id, was, t, Entered);
  }

  lemma MovePassing(s: State, id: Tid, was: Thread, t: Thread)
    requires At(s, id, was)
    ensures ThreadsPassing(Move(s, id, t)) && Passing(was) <==> ThreadsPassing(s) && Passing(t)
    ensures (ThreadsPassing(s) ==> Passing(was)) && (ThreadsPassing(Move(s, id, t)) ==> Passing(t))
  {
    if id.WorkerId? {
      var ws := s.workers[id.i := t];
      assert ws[id.i] == t && s.workers[id.i] == was;
      assert forall i :: 0 <= i < |ws| && i != id.i ==> ws[i] == s.workers[i];
      if ThreadsPassing(Move(s, id, t)) && Passing(was) {
        forall i | 0 <= i < |s.workers| ensures Passing(s.workers[i]) { assert Passing(ws[i]); }
      }
      if ThreadsPassing(s) && Passing(t) {
        forall i | 0 <= i < |ws| ensures Passing(ws[i]) { assert Passing(s.workers[i]); }
      }
    }
  }

  // ---------------------------------------------------------------- preservation

  lemma CleanUpKeeps(s: State, id: Tid, nNow: nat, ok: bool)
    requires Inv(s) && At(s, id, Ready(nNow, ok))
    ensures var c := CleanUp(s, id, nNow, ok);
            Core(c) && At(c, id, Locked) && Unlocked(Move(c, id, Asleep(false)))
  {
    MoveCounts(s, id, Ready(nNow, ok), Locked);
    var c := CleanUp(s, id, nNow, ok);
    assert c.workers == Move(s, id, Locked).workers;
    assert ThreadsPassing(c) <==> ThreadsPassing(Move(s, id, Locked));
    MovePassing(s, id, Ready(nNow, ok), Locked);
  }

  lemma WokenKeeps(s: State, id: Tid, notified: bool)
    requires Inv(s) && At(s, id, Asleep(notified))
    ensures Core(Woken(s, id)) && At(Woken(s, id), id, Locked) && Unlocked(Move(Woken(s, id), id, Asleep(false)))
    ensures s.nIdle >= 1 && s.nTotal >= 0
  {
    MoveCounts(s, id, Asleep(notified), Locked);
    MovePassing(s, id, Asleep(notified), Locked);
    assert ThreadsPassing(Woken(s, id)) <==> ThreadsPassing(Move(s, id, Locked));
  }

  lemma PoppedPass(queue: seq<Check>, n: nat)
    requires n <= |queue|
    ensures AllPass(queue) <==> AllPass(queue[..|queue| - n]) && AllPass(Popped(queue, n))
  {
    if AllPass(queue[..|queue| - n]) && AllPass(Popped(queue, n)) {
      forall i | 0 <= i < |queue|
        ensures queue[i].passes
      {
        if i < |queue| - n {
          assert queue[i] == queue[..|queue| - n][i];
        } else {
          assert queue[i] == Popped(queue, n)[|queue| - 1 - i];
        }
      }
    }
  }

  lemma QuotientAtMost(n: nat, d: nat)
    requires d >= 1
    ensures n / d <= n
  {
    var q := n / d;
    assert n == d * q + n % d;
    MulMono(q, 1, d);
  }

  /** A batch is never empty, never larger than the queue and never larger than the batch size allows. */
  lemma BatchFits(s: State)
    requires s.nTotal >= 0 && s.nIdle >= 0 && s.queue != []
    ensures 1 <= BatchCount(s) <= |s.queue|
    ensures BatchCount(s) <= Max(1, s.nBatchSize)
  {
    QuotientAtMost(|s.queue|, s.nTotal + s.nIdle + 1);
  }

  /** A batch is one check, or the largest number within the limit of which all threads and one more could have as many. */
  lemma BatchExact(s: State, n: int, share: int)
    requires s.nTotal >= 0 && s.nIdle >= 0 && s.queue != [] && n == BatchCount(s) && share == s.nTotal + s.nIdle + 1
    ensures n == 1 || (n <= s.nBatchSize && n * share <= |s.queue|)
    ensures n >= s.nBatchSize || |s.queue| < (n + 1) * share
  {
    var q := |s.queue| / share;
    assert |s.queue| == share * q + |s.queue| % share;
    if n <= q {
      MulMono(share, n, q);
    }
    if q <= n {
      MulMono(share, q + 1, n + 1);
      Distribute(share, q, 1);
    }
  }

  lemma TakeKeeps(s: State, id: Tid, n: nat)
    requires Core(s) && At(s, id, Locked) && 1 <= n <= |s.queue|
    requires Unlocked(Move(s, id, Asleep(false)))
    ensures Inv(Move(s, id, Working(Popped(s.queue, n), s.allOk, n)).(queue := s.queue[..|s.queue| - n]))
  {
    var w := Working(Popped(s.queue, n), s.allOk, n);
    MoveCounts(s, id, Locked, w);
    PoppedPass(s.queue, n);
    var t := Move(s, id, w).(queue := s.queue[..|s.queue| - n]);
    MovePassing(s, id, Locked, w);
    assert ThreadsPassing(t) <==> ThreadsPassing(Move(s, id, w));
    forall i | 0 <= i < |t.workers|
      ensures !t.workers[i].Locked?
    {
      assert !Move(s, id, Asleep(false)).workers[i].Locked?;
    }
  }

  lemma SleepKeeps(s: State, id: Tid)
    requires Core(s) && At(s, id, Locked) && Unlocked(Move(s, id, Asleep(false)))
    requires s.queue == [] && (id.MasterId? ==> s.nTodo != 0)
    ensures Inv(Move(s, id, Asleep(false)).(nIdle := s.nIdle + 1))
  {
    MoveCounts(s, id, Locked, Asleep(false));
    MovePassing(s, id, Locked, Asleep(false));
    var t := Move(s, id, Asleep(false)).(nIdle := s.nIdle + 1);
    assert ThreadsPassing(t) <==> ThreadsPassing(Move(s, id, Asleep(false)));
  }

  /** Wait returns only when nothing is queued or held, and then with the right verdict. */
  lemma ReturnKeeps(s: State)
    requires Core(s) && At(s, MasterId, Locked) && Unlocked(Move(s, MasterId, Asleep(false)))
    requires s.queue == [] && s.nTodo == 0
    ensures s.allOk <==> AllPass(s.added)
    ensures s.nTotal >= 0 && s.nIdle >= 0 && Inv(LoopTop(s, MasterId))
  {
    NothingInFlight(s);
    var t := LoopTop(s, MasterId);
    assert t.workers == s.workers;
  }

  lemma LoopTopKeeps(s: State, id: Tid)
    requires Core(s) && At(s, id, Locked) && Unlocked(Move(s, id, Asleep(false)))
    ensures s.nTotal >= 0 && s.nIdle >= 0 && Inv(LoopTop(s, id))
  {
    if s.queue == [] {
      if id.MasterId? && s.nTodo == 0 {
        ReturnKeeps(s);
      } else {
        SleepKeeps(s, id);
      }
    } else {
      BatchFits(s);
      TakeKeeps(s, id, BatchCount(s));
    }
  }

  /** With nothing left to do, no thread holds a check: all are free of failures. */
  lemma NothingInFlight(s: State)
    requires Counts(s) && Shapes(s) && s.nTodo == 0
    ensures s.queue == [] && ThreadsPassing(s)
    ensures forall i :: 0 <= i < |s.workers| ==> InFlight(s.workers[i]) == 0
    ensures s.master.InLoop? ==> InFlight(s.master.thread) == 0
  {
    forall i | 0 <= i < |s.workers|
      ensures InFlight(s.workers[i]) == 0
    {
      SumMember(s.workers, i, InFlight);
    }
  }

  lemma WorkKeeps(s: State, id: Tid, todo: seq<Check>, ok: bool, nNow: nat, t: Thread)
    requires Inv(s) && At(s, id, Working(todo, ok, nNow))
    requires if todo == [] then t == Ready(nNow, ok)
             else t == Working(todo[1..], if ok then todo[0].passes else false, nNow)
    ensures Inv(Move(s, id, t))
  {
    var was := Working(todo, ok, nNow);
    MoveCounts(s, id, was, t);
    assert WellFormed(was);
    if todo != [] {
      assert AllPass(todo) <==> todo[0].passes && AllPass(todo[1..]) by {
        assert todo == [todo[0]] + todo[1..];
      }
    }
    assert Passing(was) <==> Passing(t);
    MovePassing(s, id, was, t);
  }

  lemma AddKeeps(s: State, t: State, checks: seq<Check>)
    requires Inv(s) && AddStep(s, t, checks)
    ensures Inv(t)
  {
    assert AllPass(s.added + checks) <==> AllPass(s.added) && AllPass(checks) by { PassConcat(s.added, checks); }
    assert AllPass(s.queue + checks) <==> AllPass(s.queue) && AllPass(checks) by { PassConcat(s.queue, checks); }
    assert ThreadsPassing(s) <==> ThreadsPassing(t);
  }

  lemma PassConcat(a: seq<Check>, b: seq<Check>)
    ensures AllPass(a + b) <==> AllPass(a) && AllPass(b)
  {
    if AllPass(a + b) {
      assert forall i :: 0 <= i < |b| ==> b[i] == (a + b)[|a| + i];
      assert forall i :: 0 <= i < |a| ==> a[i] == (a + b)[i];
    }
  }

  lemma NotifyKeeps(s: State, t: State)
    requires Inv(s) && NotifyStep(s, t)
    ensures Inv(t)
  {
    SumSame(s.workers, t.workers, InFlight);
    SumSame(s.workers, t.workers, Sleeping);
    SumSame(s.workers, t.workers, Entered);
    assert ThreadsPassing(s) <==> ThreadsPassing(t) by {
      assert forall i :: 0 <= i < |s.workers| ==> (Passing(s.workers[i]) <==> Passing(t.workers[i]));
    }
  }

  /** Every step of every thread keeps the invariant. */
  lemma NextKeeps(s: State, t: State)
    requires Inv(s) && Next(s, t)
    ensures Inv(t)
  {
    if LoopStep(s, t) {
      var id :| LockStep(s, t, id) || WakeStep(s, t, id, true) || ExecStep(s, t, id) || DoneStep(s, t, id);
      ThreadStepKeeps(s, t, id);
    } else if SpuriousWake(s, t) {
      var id :| WakeStep(s, t, id, false);
      WokenKeeps(s, id, false);
      LoopTopKeeps(Woken(s, id), id);
    } else if exists checks :: AddStep(s, t, checks) {
      var checks :| AddStep(s, t, checks);
      AddKeeps(s, t, checks);
    } else if NotifyStep(s, t) {
      NotifyKeeps(s, t);
    } else {
      assert ThreadsPassing(s) <==> ThreadsPassing(t);
    }
  }

  lemma ThreadStepKeeps(s: State, t: State, id: Tid)
    requires Inv(s)
    requires LockStep(s, t, id) || WakeStep(s, t, id, true) || ExecStep(s, t, id) || DoneStep(s, t, id)
    ensures Inv(t)
  {
    if LockStep(s, t, id) {
      var nNow, ok :| LockStepWith(s, t, id, nNow, ok);
      CleanUpKeeps(s, id, nNow, ok);
      LoopTopKeeps(CleanUp(s, id, nNow, ok), id);
    } else if WakeStep(s, t, id, true) {
      WokenKeeps(s, id, true);
      LoopTopKeeps(Woken(s, id), id);
    } else if ExecStep(s, t, id) {
      var todo: seq<Check>, ok: bool, nNow: nat :| ExecStepWith(s, t, id, todo, ok, nNow);
      WorkKeeps(s, id, todo, ok, nNow, Working(todo[1..], if ok then todo[0].passes else false, nNow));
    } else {
      var ok, nNow :| DoneStepWith(s, t, id, ok, nNow);
      WorkKeeps(s, id, [], ok, nNow, Ready(nNow, ok));
    }
  }

  // ---------------------------------------------------------------- whole runs

  /** A run: any interleaving of steps, from the start. */
  ghost predicate Run(states: seq<State>) {
    && states != [] && Init(states[0])
    && forall i :: 0 <= i < |states| - 1 ==> StepAt(states, i)
  }

  ghost predicate StepAt(states: seq<State>, i: nat)
    requires i + 1 < |states|
  {
    Next(states[i], states[i + 1])
  }

  lemma {:induction false} InitSums(ts: seq<Thread>)
    requires forall i :: 0 <= i < |ts| ==> ts[i] == Ready(0, true)
    ensures Sum(ts, InFlight) == 0 && Sum(ts, Sleeping) == 0 && Sum(ts, Entered) == 0
  {
    if ts != [] {
      InitSums(ts[1..]);
    }
  }

  lemma {:induction false} RunKeepsInv(states: seq<State>, k: nat)
    requires Run(states) && k < |states|
    ensures Inv(states[k])
  {
    if k == 0 {
      InitSums(states[0].workers);
    } else {
      RunKeepsInv(states, k - 1);
      assert StepAt(states, k - 1);
      NextKeeps(states[k - 1], states[k]);
    }
  }

  /** In every run, nTodo counts the queued and the held checks, and never goes negative. */
  lemma TodoIsExact(states: seq<State>, k: nat)
    requires Run(states) && k < |states|
    ensures states[k].nTodo == |states[k].queue| + Total(states[k], InFlight)
    ensures states[k].nTodo >= 0 && states[k].nTotal >= 0 && states[k].nIdle >= 0
  {
    RunKeepsInv(states, k);
  }

  /** In every run, every round that Wait finished was true exactly when all its checks pass. */
  lemma EveryVerdictIsRight(states: seq<State>, k: nat, r: nat)
    requires Run(states) && k < |states| && r < |states[k].rounds|
    ensures states[k].rounds[r].result <==> AllPass(states[k].rounds[r].checks)
  {
    RunKeepsInv(states, k);
  }

  /** Only the return of Wait ends a round, and only with nothing left to do. */
  ghost predicate ReturnOrSameRounds(s: State, t: State) {
    t.rounds == s.rounds || (t.queue == [] && t.nTodo == 0 && t.master == Outside)
  }

  lemma ThreadStepReturns(s: State, t: State, id: Tid)
    requires LockStep(s, t, id) || WakeStep(s, t, id, true) || WakeStep(s, t, id, false) || ExecStep(s, t, id) || DoneStep(s, t, id)
    ensures ReturnOrSameRounds(s, t)
  {
    if LockStep(s, t, id) {
      var nNow, ok :| LockStepWith(s, t, id, nNow, ok);
      assert CleanUp(s, id, nNow, ok).rounds == s.rounds;
    }
  }

  /** In every run, a step on which Wait returns finds nothing queued and nothing held by any thread. */
  lemma ReturnsOnlyWhenDrained(states: seq<State>, k: nat)
    requires Run(states) && k + 1 < |states|
    requires states[k + 1].rounds != states[k].rounds
    ensures states[k + 1].queue == [] && states[k + 1].nTodo == 0 && Total(states[k + 1], InFlight) == 0
    ensures states[k + 1].master == Outside
  {
    RunKeepsInv(states, k + 1);
    assert StepAt(states, k);
    var s, t := states[k], states[k + 1];
    if LoopStep(s, t) {
      var id :| LockStep(s, t, id) || WakeStep(s, t, id, true) || ExecStep(s, t, id) || DoneStep(s, t, id);
      ThreadStepReturns(s, t, id);
    } else if SpuriousWake(s, t) {
      var id :| WakeStep(s, t, id, false);
      ThreadStepReturns(s, t, id);
    }
  }

  /** The master never sleeps un-notified once nothing is left: then some worker still holds a check. */
  lemma SleepingMasterIsAwaited(states: seq<State>, k: nat) returns (i: nat)
    requires Run(states) && k < |states| && states[k].master == InLoop(Asleep(false))
    ensures states[k].nTodo > 0 && states[k].queue == []
    ensures i < |states[k].workers| && InFlight(states[k].workers[i]) > 0
  {
    RunKeepsInv(states, k);
    i := SumPositive(states[k].workers, InFlight);
  }

  // ---------------------------------------------------------------- progress

  /** Work left in a thread, in steps. */
  function Weight(t: Thread): nat {
    match t
    case Ready(_, _) => 2
    case Locked => 2
    case Asleep(notified) => if notified then 1 else 0
    case Working(todo, _, _) => |todo| + 3
  }

  function Measure(s: State): nat {
    5 * |s.queue| + Total(s, Weight)
  }

  /** While the master waits, some step other than a wake-up without cause is possible. */
  lemma NeverStuck(s: State) returns (t: State)
    requires Inv(s) && s.master.InLoop?
    ensures LoopStep(s, t)
  {
    var id := MasterId;
    var th := s.master.thread;
    if th == Asleep(false) {
      var i := SumPositive(s.workers, InFlight);
      id, th := WorkerId(i), s.workers[i];
    }
    assert At(s, id, th) && !th.Locked? && th != Asleep(false);
    match th {
      case Ready(nNow, ok) =>
        CleanUpKeeps(s, id, nNow, ok);
        t := LoopTop(CleanUp(s, id, nNow, ok), id);
        assert LockStepWith(s, t, id, nNow, ok);
        assert LockStep(s, t, id);
      case Asleep(notified) =>
        WokenKeeps(s, id, notified);
        t := LoopTop(Woken(s, id), id);
        assert WakeStep(s, t, id, true);
      case Working(todo, ok, nNow) =>
        if todo == [] {
          t := Move(s, id, Ready(nNow, ok));
          assert DoneStepWith(s, t, id, ok, nNow);
          assert DoneStep(s, t, id);
        } else {
          t := Move(s, id, Working(todo[1..], if ok then todo[0].passes else false, nNow));
          assert ExecStepWith(s, t, id, todo, ok, nNow);
          assert ExecStep(s, t, id);
        }
    }
  }

  lemma LoopTopDescends(s: State, id: Tid)
    requires At(s, id, Locked) && s.nTotal >= 0 && s.nIdle >= 0 && s.master.InLoop?
    ensures var t := LoopTop(s, id);
            t.master.Outside? || Measure(t) <= Measure(s) - 2
  {
    if s.queue == [] {
      MoveTotal(s, id, Locked, Asleep(false), Weight);
    } else {
      BatchFits(s);
      var n := BatchCount(s);
      MoveTotal(s, id, Locked, Working(Popped(s.queue, n), s.allOk, n), Weight);
      var t := LoopTop(s, id);
      assert |t.queue| == |s.queue| - n;
    }
  }

  lemma CleanUpWeight(s: State, id: Tid, nNow: nat, ok: bool)
    requires At(s, id, Ready(nNow, ok)) && s.master.InLoop?
    ensures var c := CleanUp(s, id, nNow, ok);
            c.master.InLoop? && c.queue == s.queue && Measure(c) <= Measure(s) + 1
  {
    MoveTotal(s, id, Ready(nNow, ok), Locked, Weight);
    assert CleanUp(s, id, nNow, ok).workers == Move(s, id, Locked).workers;
  }

  lemma WakeDescends(s: State, t: State, id: Tid)
    requires Inv(s) && s.master.InLoop? && WakeStep(s, t, id, true)
    ensures t.master.Outside? || Measure(t) < Measure(s)
  {
    MoveTotal(s, id, Asleep(true), Locked, Weight);
    WokenKeeps(s, id, true);
    LoopTopDescends(Woken(s, id), id);
  }

  lemma LockDescends(s: State, t: State, id: Tid, nNow: nat, ok: bool)
    requires Inv(s) && s.master.InLoop? && LockStepWith(s, t, id, nNow, ok)
    ensures t.master.Outside? || Measure(t) < Measure(s)
  {
    CleanUpKeeps(s, id, nNow, ok);
    CleanUpWeight(s, id, nNow, ok);
    LoopTopDescends(CleanUp(s, id, nNow, ok), id);
  }

  /** While the master waits, every step of any thread lets Wait return or uses up a measure. */
  lemma EveryStepDescends(s: State, t: State)
    requires Inv(s) && s.master.InLoop? && LoopStep(s, t)
    ensures t.master.Outside? || Measure(t) < Measure(s)
  {
    var id :| LockStep(s, t, id) || WakeStep(s, t, id, true) || ExecStep(s, t, id) || DoneStep(s, t, id);
    if LockStep(s, t, id) {
      var nNow, ok :| LockStepWith(s, t, id, nNow, ok);
      LockDescends(s, t, id, nNow, ok);
    } else if WakeStep(s, t, id, true) {
      WakeDescends(s, t, id);
    } else if ExecStep(s, t, id) {
      ExecDescends(s, t, id);
    } else {
      DoneDescends(s, t, id);
    }
  }

  lemma ExecDescends(s: State, t: State, id: Tid)
    requires Inv(s) && s.master.InLoop? && ExecStep(s, t, id)
    ensures Measure(t) < Measure(s)
  {
    var todo: seq<Check>, ok: bool, nNow: nat :| ExecStepWith(s, t, id, todo, ok, nNow);
    MoveTotal(s, id, Working(todo, ok, nNow), Working(todo[1..], if ok then todo[0].passes else false, nNow), Weight);
  }

  lemma DoneDescends(s: State, t: State, id: Tid)
    requires Inv(s) && s.master.InLoop? && DoneStep(s, t, id)
    ensures Measure(t) < Measure(s)
  {
    var ok, nNow :| DoneStepWith(s, t, id, ok, nNow);
    MoveTotal(s, id, Working([], ok, nNow), Ready(nNow, ok), Weight);
  }

  /** A wake-up without cause never adds to the measure. */
  lemma SpuriousWakeNeutral(s: State, t: State)
    requires Inv(s) && s.master.InLoop? && SpuriousWake(s, t)
    ensures t.master.Outside? || Measure(t) <= Measure(s)
  {
    var id :| WakeStep(s, t, id, false);
    MoveTotal(s, id, Asleep(false), Locked, Weight);
    WokenKeeps(s, id, false);
    LoopTopDescends(Woken(s, id), id);
  }

  lemma WaitStep(s: State, t: State)
    requires Inv(s) && Next(s, t) && s.master.InLoop? && t.master.InLoop?
    ensures RealStep(s, t) + Measure(t) <= Measure(s)
  {
    if LoopStep(s, t) {
      EveryStepDescends(s, t);
    } else {
      SpuriousWakeNeutral(s, t);
    }
  }

  lemma RunStep(states: seq<State>, k: nat)
    requires Run(states) && k + 1 < |states|
    ensures Inv(states[k]) && Next(states[k], states[k + 1])
  {
    RunKeepsInv(states, k);
    assert StepAt(states, k);
  }

  ghost function RealStep(s: State, t: State): nat { if LoopStep(s, t) then 1 else 0 }

  /** How many steps between two states of a run are not wake-ups without cause. */
  ghost function RealSteps(states: seq<State>, k: nat, m: nat): nat
    requires k <= m < |states|
    decreases m
  {
    if k == m then 0 else RealSteps(states, k, m - 1) + RealStep(states[m - 1], states[m])
  }

  /**
   * Wait terminates: in every run, as long as the master is inside Wait, there are no more steps than the
   * measure says at the start, other than wake-ups without cause.
   */
  lemma {:induction false} WaitTerminates(states: seq<State>, k: nat, m: nat)
    requires Run(states) && k <= m < |states| && forall j :: k <= j <= m ==> states[j].master.InLoop?
    ensures RealSteps(states, k, m) + Measure(states[m]) <= Measure(states[k])
    decreases m
  {
    if k < m {
      WaitTerminates(states, k, m - 1);
      RunStep(states, m - 1);
      WaitStep(states[m - 1], states[m]);
    }
  }
}
