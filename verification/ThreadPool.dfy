/** The fork/join protocol of the GC worker threads, `src/runtime/gc-thread-pool.c`,
    as a step relation over any number of workers and rounds. */
module ThreadPool {
  import opened Common

  type Action = nat

  /** A worker waits on its start semaphore, has been let through but not yet read the shared
      action, or is inside the action. */
  datatype Worker = Waiting | Woken | Running

  /** The caller is outside run_on_thread_pool, has posted the first `n` start semaphores, is in
      its own call of the action, or has passed the join semaphore `n` times. */
  datatype Caller = Outside | Posting(n: nat) | Acting | Joining(n: nat)

  /** `ran[i]` are the actions that worker `i` has begun, `posted` those that the caller has set;
      both are histories, the rest is the state of the program. */
  datatype State = State(start: seq<nat>, join: nat, action: Option<Action>, workers: seq<Worker>, caller: Caller,
                         ran: seq<seq<Action>>, posted: seq<Action>)

  function Size(s: State): nat { |s.workers| }

  // ---- Steps of the caller ----

  /** action = act */
  ghost predicate SetAction(s: State, s': State, a: Action) {
    s.caller == Outside && s' == s.(action := Some(a), caller := Posting(0), posted := s.posted + [a])
  }

  ghost predicate PostStart(s: State, s': State) {
    && s.caller.Posting? && s.caller.n < Size(s) && s.caller.n < |s.start|
    && s' == s.(start := s.start[s.caller.n := s.start[s.caller.n] + 1], caller := Posting(s.caller.n + 1))
  }

  /** wake_gc_threads is done; call the action. */
  ghost predicate CallAction(s: State, s': State) {
    s.caller == Posting(Size(s)) && s' == s.(caller := Acting)
  }

  ghost predicate ReturnFromAction(s: State, s': State) {
    s.caller == Acting && s' == s.(caller := Joining(0))
  }

  ghost predicate WaitJoin(s: State, s': State) {
    && s.caller.Joining? && s.caller.n < Size(s) && s.join > 0
    && s' == s.(join := s.join - 1, caller := Joining(s.caller.n + 1))
  }

  /** action = 0, and return. */
  ghost predicate ClearAction(s: State, s': State) {
    s.caller == Joining(Size(s)) && s' == s.(action := None, caller := Outside)
  }

  // ---- Steps of a worker ----

  ghost predicate WaitStart(s: State, s': State, i: nat) {
    && i < Size(s) && i < |s.start| && s.workers[i] == Waiting && s.start[i] > 0
    && s' == s.(start := s.start[i := s.start[i] - 1], workers := s.workers[i := Woken])
  }

  /** Read the shared pointer and call through it; only a set action can be called. */
  ghost predicate BeginAction(s: State, s': State, i: nat) {
    && i < Size(s) && i < |s.ran| && s.workers[i] == Woken && s.action.Some?
    && s' == s.(workers := s.workers[i := Running], ran := s.ran[i := s.ran[i] + [s.action.value]])
  }

  /** The action returns; post the join semaphore. */
  ghost predicate PostJoin(s: State, s': State, i: nat) {
    && i < Size(s) && s.workers[i] == Running
    && s' == s.(workers := s.workers[i := Waiting], join := s.join + 1)
  }

  ghost predicate Next(s: State, s': State) {
    || (exists a :: SetAction(s, s', a))
    || PostStart(s, s') || CallAction(s, s') || ReturnFromAction(s, s') || WaitJoin(s, s') || ClearAction(s, s')
    || (exists i :: WaitStart(s, s', i))
    || (exists i :: BeginAction(s, s', i))
    || (exists i :: PostJoin(s, s', i))
  }

  /** thread_pool_init */
  ghost predicate Init(s: State) {
    && |s.start| == |s.ran| == Size(s) && s.join == 0 && s.action == None && s.caller == Outside && s.posted == []
    && forall i :: 0 <= i < Size(s) ==> s.start[i] == 0 && s.workers[i] == Waiting && s.ran[i] == []
  }

  // ---- The invariant ----

  /** The workers below this index have been let go in the current round. */
  function Released(s: State): nat {
    match s.caller
    case Outside => Size(s)
    case Posting(n) => n
    case Acting => Size(s)
    case Joining(_) => Size(s)
  }

  /** The actions of the rounds before the current one. */
  function Earlier(s: State): seq<Action> {
    if s.posted == [] then [] else s.posted[..|s.posted| - 1]
  }

  /** The worker has finished the current round. */
  ghost predicate Finished(s: State, i: nat) {
    && i < Size(s) && i < |s.ran| && i < |s.start|
    && s.workers[i] == Waiting && s.start[i] == 0 && s.ran[i] == s.posted && i < Released(s)
  }

  /** A worker is not let go yet, about to pass its semaphore, let through, running, or finished. */
  ghost predicate WorkerOk(s: State, i: nat)
    requires i < Size(s) == |s.start| == |s.ran|
  {
    if s.caller == Outside then Finished(s, i)
    else if i >= Released(s) then s.workers[i] == Waiting && s.start[i] == 0 && s.ran[i] == Earlier(s)
    else match s.workers[i]
      case Waiting => (s.start[i] == 1 && s.ran[i] == Earlier(s)) || (s.start[i] == 0 && s.ran[i] == s.posted)
      case Woken => s.start[i] == 0 && s.ran[i] == Earlier(s)
      case Running => s.start[i] == 0 && s.ran[i] == s.posted
  }

  ghost function FinishedSet(s: State): set<nat> {
    set i: nat | i < Size(s) && Finished(s, i)
  }

  /** How often the join semaphore has been passed in the current round. */
  function Joined(s: State): nat {
    match s.caller
    case Outside => Size(s)
    case Joining(n) => n
    case _ => 0
  }

  ghost predicate Inv(s: State) {
    && |s.start| == |s.ran| == Size(s)
    && (s.caller != Outside ==> s.posted != [] && s.action == Some(s.posted[|s.posted| - 1]))
    && Released(s) <= Size(s) && Joined(s) <= Size(s)
    && (forall i :: 0 <= i < Size(s) ==> WorkerOk(s, i))
    && s.join + Joined(s) == |FinishedSet(s)|
  }

  // ---- Every run keeps it ----

  ghost function Upto(n: nat): (s: set<nat>)
    ensures |s| == n && forall i: nat :: i in s <==> i < n
  {
    if n == 0 then {} else Upto(n - 1) + {n - 1}
  }

  lemma {:induction false} UptoCard(n: nat, s: set<nat>)
    requires forall i: nat :: i in s <==> i < n
    ensures |s| == n
  {
    if n == 0 {
      assert s == {};
    } else {
      UptoCard(n - 1, s - {n - 1});
    }
  }

  lemma FinishedBound(s: State)
    ensures |FinishedSet(s)| <= Size(s)
    ensures |FinishedSet(s)| == Size(s) ==> forall i :: 0 <= i < Size(s) ==> Finished(s, i)
  {
    SubsetCard(FinishedSet(s), Upto(Size(s)));
    if |FinishedSet(s)| == Size(s) {
      forall i | 0 <= i < Size(s) ensures Finished(s, i) { assert i in Upto(Size(s)); }
    }
  }

  lemma InitOk(s: State)
    requires Init(s)
    ensures Inv(s)
  {
    UptoCard(Size(s), FinishedSet(s));
  }

  lemma CallerKeeps(s: State, s': State, a: Action)
    requires Inv(s)
    requires SetAction(s, s', a) || CallAction(s, s') || ReturnFromAction(s, s') || WaitJoin(s, s') ||
               ClearAction(s, s')
    ensures Inv(s')
  {
    FinishedBound(s);
    if SetAction(s, s', a) {
      forall i | 0 <= i < Size(s) ensures i in FinishedSet(s) && WorkerOk(s', i) { assert WorkerOk(s, i); }
      UptoCard(Size(s), FinishedSet(s));
      assert Earlier(s') == s.posted;
      assert FinishedSet(s') == {};
    } else if ClearAction(s, s') {
      forall i | 0 <= i < Size(s) ensures Finished(s', i) { assert Finished(s, i); }
      assert FinishedSet(s') == FinishedSet(s);
    } else {
      forall i | 0 <= i < Size(s) ensures WorkerOk(s', i) && (Finished(s', i) <==> Finished(s, i)) {
        assert WorkerOk(s, i);
      }
      assert FinishedSet(s') == FinishedSet(s);
    }
  }

  lemma PostStartKeeps(s: State, s': State)
    requires Inv(s) && PostStart(s, s')
    ensures Inv(s')
  {
    assert WorkerOk(s, s.caller.n);
    forall i | 0 <= i < Size(s) ensures WorkerOk(s', i) && (Finished(s', i) <==> Finished(s, i)) {
      assert WorkerOk(s, i);
    }
    assert FinishedSet(s') == FinishedSet(s);
  }

  /** The step of worker `i` as seen by worker `k`. */
  lemma WorkerStep(s: State, s': State, i: nat, k: nat)
    requires Inv(s) && (WaitStart(s, s', i) || BeginAction(s, s', i) || PostJoin(s, s', i)) && k < Size(s)
    ensures WorkerOk(s', k) && Finished(s', k) == if k == i then PostJoin(s, s', i) else Finished(s, k)
    ensures !Finished(s, i)
  {
    hide *;
    OwnStep(s, s', i);
    if k != i { OtherStep(s, s', i, k); }
  }

  lemma OwnStep(s: State, s': State, i: nat)
    requires Inv(s) && (WaitStart(s, s', i) || BeginAction(s, s', i) || PostJoin(s, s', i))
    ensures i < Size(s) == Size(s') == |s'.start| == |s'.ran|
    ensures WorkerOk(s', i) && Finished(s', i) == PostJoin(s, s', i) && !Finished(s, i)
  {
    assert WorkerOk(s, i);
    if s.posted != [] {
      assert Earlier(s) + [s.posted[|s.posted| - 1]] == s.posted;
    }
  }

  lemma OtherStep(s: State, s': State, i: nat, k: nat)
    requires Inv(s) && (WaitStart(s, s', i) || BeginAction(s, s', i) || PostJoin(s, s', i)) && k != i && k < Size(s)
    ensures Size(s) == Size(s') == |s'.start| == |s'.ran|
    ensures WorkerOk(s', k) && Finished(s', k) == Finished(s, k)
  {
    assert WorkerOk(s, k) && WorkerOk(s, i);
  }

  lemma WorkerKeeps(s: State, s': State, i: nat)
    requires Inv(s) && (WaitStart(s, s', i) || BeginAction(s, s', i) || PostJoin(s, s', i))
    ensures Inv(s')
  {
    hide WorkerOk, Finished;
    forall k | 0 <= k < Size(s)
      ensures WorkerOk(s', k) && Finished(s', k) == if k == i then PostJoin(s, s', i) else Finished(s, k)
    {
      WorkerStep(s, s', i, k);
    }
    WorkerStep(s, s', i, i);
    if PostJoin(s, s', i) {
      assert FinishedSet(s') == FinishedSet(s) + {i};
    } else {
      assert FinishedSet(s') == FinishedSet(s);
    }
  }

  lemma NextKeeps(s: State, s': State)
    requires Inv(s) && Next(s, s')
    ensures Inv(s')
  {
    hide Inv, SetAction, PostStart, CallAction, ReturnFromAction;
    hide WaitJoin, ClearAction, WaitStart, BeginAction, PostJoin;
    if a :| SetAction(s, s', a) {
      CallerKeeps(s, s', a);
    } else if PostStart(s, s') {
      PostStartKeeps(s, s');
    } else if i :| WaitStart(s, s', i) {
      WorkerKeeps(s, s', i);
    } else if i :| BeginAction(s, s', i) {
      WorkerKeeps(s, s', i);
    } else if i :| PostJoin(s, s', i) {
      WorkerKeeps(s, s', i);
    } else {
      CallerKeeps(s, s', 0);
    }
  }

  ghost predicate IsRun(run: seq<State>) {
    && |run| > 0 && Init(run[0])
    && forall k :: 0 < k < |run| ==> Next(run[k - 1], run[k])
  }

  lemma {:induction false} RunKeeps(run: seq<State>, k: nat)
    requires IsRun(run) && k < |run|
    ensures Inv(run[k])
  {
    if k == 0 {
      InitOk(run[0]);
    } else {
      RunKeeps(run, k - 1);
      NextKeeps(run[k - 1], run[k]);
    }
  }

  /** Whenever the caller is outside the pool, every worker has run exactly the posted actions,
      in order and once per round, all of them are waiting, and no semaphore is left raised. */
  lemma ReturnMeansAllRanOnce(run: seq<State>, k: nat, i: nat)
    requires IsRun(run) && k < |run| && run[k].caller == Outside && i < Size(run[k])
    ensures i < |run[k].ran| && run[k].ran[i] == run[k].posted
    ensures run[k].workers[i] == Waiting && i < |run[k].start| && run[k].start[i] == 0 && run[k].join == 0
  {
    RunKeeps(run, k);
    assert WorkerOk(run[k], i);
    FinishedBound(run[k]);
  }

  /** A worker that has been let through finds an action to run, the one posted in this round;
      at no time has a worker run an action twice in a round, or one that was not posted. */
  lemma WokenWorkerSeesAction(run: seq<State>, k: nat, i: nat)
    requires IsRun(run) && k < |run| && i < Size(run[k])
    ensures var s := run[k];
            i < |s.ran| && s.ran[i] <= s.posted && |s.posted| <= |s.ran[i]| + 1
    ensures var s := run[k];
            s.workers[i] == Woken ==>
                s.posted != [] && s.action == Some(s.posted[|s.posted| - 1]) && s.ran[i] + [s.action.value] == s.posted
  {
    RunKeeps(run, k);
    assert WorkerOk(run[k], i);
  }

  /** The protocol does not get stuck: while the caller is inside the pool, some step is possible. */
  lemma NoDeadlock(run: seq<State>, k: nat)
    requires IsRun(run) && k < |run|
    ensures exists s' :: Next(run[k], s')
  {
    RunKeeps(run, k);
    var s := run[k];
    match s.caller
    case Outside =>
      assert SetAction(s, s.(action := Some(0), caller := Posting(0), posted := s.posted + [0]), 0);
      assert Next(s, s.(action := Some(0), caller := Posting(0), posted := s.posted + [0]));
    case Posting(n) =>
      if n < Size(s) {
        assert PostStart(s, s.(start := s.start[n := s.start[n] + 1], caller := Posting(n + 1)));
        assert Next(s, s.(start := s.start[n := s.start[n] + 1], caller := Posting(n + 1)));
      } else {
        assert CallAction(s, s.(caller := Acting));
        assert Next(s, s.(caller := Acting));
      }
    case Acting =>
      assert ReturnFromAction(s, s.(caller := Joining(0)));
      assert Next(s, s.(caller := Joining(0)));
    case Joining(n) =>
      if n == Size(s) {
        assert ClearAction(s, s.(action := None, caller := Outside));
        assert Next(s, s.(action := None, caller := Outside));
      } else if s.join > 0 {
        assert WaitJoin(s, s.(join := s.join - 1, caller := Joining(n + 1)));
        assert Next(s, s.(join := s.join - 1, caller := Joining(n + 1)));
      } else {
        UnfinishedCanStep(s);
      }
  }

  /** If not all workers have finished, one of the unfinished can step. */
  lemma UnfinishedCanStep(s: State)
    requires Inv(s) && s.caller.Joining? && s.caller.n < Size(s) && s.join == 0
    ensures exists s' :: Next(s, s')
  {
    if forall i :: 0 <= i < Size(s) ==> Finished(s, i) {
      UptoCard(Size(s), FinishedSet(s));
    }
    var i :| 0 <= i < Size(s) && !Finished(s, i);
    assert WorkerOk(s, i);
    match s.workers[i]
    case Waiting =>
      var s' := s.(start := s.start[i := s.start[i] - 1], workers := s.workers[i := Woken]);
      assert WaitStart(s, s', i) && Next(s, s');
    case Woken =>
      var s' := s.(workers := s.workers[i := Running], ran := s.ran[i := s.ran[i] + [s.action.value]]);
      assert BeginAction(s, s', i) && Next(s, s');
    case Running =>
      var s' := s.(workers := s.workers[i := Waiting], join := s.join + 1);
      assert PostJoin(s, s', i) && Next(s, s');
  }

  // ---- The caller returns ----

  /** Steps that worker `i` has still to make in this round. */
  function WorkerLeft(s: State, i: nat): nat {
    if i >= Size(s) || i >= |s.start| then 0
    else if i >= Released(s) then 3
    else match s.workers[i]
      case Waiting => if s.start[i] > 0 then 3 else 0
      case Woken => 2
      case Running => 1
  }

  function WorkersLeft(s: State, n: nat): nat {
    if n == 0 then 0 else WorkersLeft(s, n - 1) + WorkerLeft(s, n - 1)
  }

  /** Steps that the caller has still to make before it returns. */
  function CallerLeft(s: State): int {
    match s.caller
    case Outside => 0
    case Posting(n) => (Size(s) - n) + Size(s) + 3
    case Acting => Size(s) + 2
    case Joining(n) => (Size(s) - n) + 1
  }

  /** All steps left in this round. */
  function Left(s: State): int {
    CallerLeft(s) + WorkersLeft(s, Size(s))
  }

  lemma {:induction false} WorkersSame(s: State, s': State, n: nat)
    requires forall i: nat :: i < n ==> WorkerLeft(s', i) == WorkerLeft(s, i)
    ensures WorkersLeft(s', n) == WorkersLeft(s, n)
  {
    if n > 0 { WorkersSame(s, s', n - 1); }
  }

  lemma {:induction false} WorkersOneLess(s: State, s': State, n: nat, k: nat)
    requires k < n && WorkerLeft(s', k) == WorkerLeft(s, k) - 1
    requires forall i: nat :: i < n && i != k ==> WorkerLeft(s', i) == WorkerLeft(s, i)
    ensures WorkersLeft(s', n) == WorkersLeft(s, n) - 1
  {
    if k == n - 1 { WorkersSame(s, s', n - 1); } else { WorkersOneLess(s, s', n - 1, k); }
  }

  /** Inside the pool every step, of the caller or of a worker, uses up one of those left. */
  lemma StepUsesOne(s: State, s': State)
    requires Inv(s) && Next(s, s') && s.caller != Outside
    ensures Left(s') == Left(s) - 1 && Size(s') == Size(s)
  {
    hide WorkersLeft, WaitStart, BeginAction, PostJoin, Inv, Left;
    if i :| WaitStart(s, s', i) {
      WorkerUsesOne(s, s', i);
    } else if i :| BeginAction(s, s', i) {
      WorkerUsesOne(s, s', i);
    } else if i :| PostJoin(s, s', i) {
      WorkerUsesOne(s, s', i);
    } else {
      CallerUsesOne(s, s');
    }
  }

  lemma WorkerUsesOne(s: State, s': State, i: nat)
    requires Inv(s) && (WaitStart(s, s', i) || BeginAction(s, s', i) || PostJoin(s, s', i)) && s.caller != Outside
    ensures Left(s') == Left(s) - 1 && Size(s') == Size(s)
  {
    assert WorkerOk(s, i);
    WorkersOneLess(s, s', Size(s), i);
  }

  lemma CallerUsesOne(s: State, s': State)
    requires Inv(s)
    requires PostStart(s, s') || CallAction(s, s') || ReturnFromAction(s, s') || WaitJoin(s, s') || ClearAction(s, s')
    ensures Left(s') == Left(s) - 1 && Size(s') == Size(s)
  {
    forall k: nat | k < Size(s) ensures WorkerLeft(s', k) == WorkerLeft(s, k) { assert WorkerOk(s, k); }
    WorkersSame(s, s', Size(s));
  }

  lemma WorkerLeftBounds(s: State, i: nat)
    ensures 0 <= WorkerLeft(s, i) <= 3
  {
  }

  lemma {:induction false} LeftIsNatural(s: State, n: nat)
    requires Inv(s)
    ensures 0 <= CallerLeft(s) <= 2 * Size(s) + 3 && 0 <= WorkersLeft(s, n) <= 3 * n
  {
    hide WorkerLeft;
    if n > 0 {
      LeftIsNatural(s, n - 1);
      WorkerLeftBounds(s, n - 1);
    }
  }

  /** As long as the caller stays inside the pool, at most `5 * Size + 3` steps are made: since some step
      is always possible, it returns. */
  lemma {:induction false} CallerReturns(run: seq<State>, k: nat, m: nat)
    requires IsRun(run) && k + m < |run| && forall j :: k <= j < k + m ==> run[j].caller != Outside
    ensures Left(run[k + m]) + m == Left(run[k]) && Size(run[k + m]) == Size(run[k])
    ensures m <= 5 * Size(run[k]) + 3
  {
    hide Inv, Left, Next, Init;
    RunKeeps(run, k);
    LeftBounds(run[k]);
    RunKeeps(run, k + m);
    LeftBounds(run[k + m]);
    if m > 0 {
      CallerReturns(run, k, m - 1);
      RunKeeps(run, k + m - 1);
      StepUsesOne(run[k + m - 1], run[k + m]);
    }
  }

  lemma LeftBounds(s: State)
    requires Inv(s)
    ensures 0 <= Left(s) <= 5 * Size(s) + 3
  {
    hide Inv, CallerLeft, WorkersLeft;
    LeftIsNatural(s, Size(s));
  }
}
