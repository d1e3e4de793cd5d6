/** Two clears that stop the same thread of the refresh protocol. */
module RefreshJoins {
  import opened Options
  import opened RefreshProtocol
  import opened RefreshLimits

  // ---------- two clears that wait for the same thread ----------

  predicate WaitsFor(s: State, t: nat, k: nat) {
    Pc(s, t) == Join(Await(k))
  }

  /** Two callers wait for thread k, or one of them still does although it has been joined, or it has been joined twice. */
  predicate Doomed(s: State, t: nat, u: nat, k: nat) {
    s.badJoin || (WaitsFor(s, t, k) && WaitsFor(s, u, k))
    || (k < |s.threads| && s.threads[k] == Joined && (WaitsFor(s, t, k) || WaitsFor(s, u, k)))
  }

  lemma DoomedByCaller(s: State, s': State, t: nat, u: nat, k: nat, v: nat)
    requires t != u && Doomed(s, t, u, k) && Does(s, s', v) && s'.callers == s.callers[v := Pc(s', v)]
    ensures Doomed(s', t, u, k)
  {
    assert forall x :: x != v ==> Pc(s', x) == Pc(s, x);
    hide Pc;
  }

  lemma DoomedByThread(s: State, t: nat, u: nat, k: nat, j: nat, spurious: bool)
    requires Doomed(s, t, u, k) && j < |s.threads| && StepThread(s, j, spurious).Some? && Owners(s)
    ensures Doomed(StepThread(s, j, spurious).value, t, u, k)
  {
    var s' := StepThread(s, j, spurious).value;
    ThreadStepDoes(s, j, spurious);
    hide StepThread, Owners, ThreadMutex, ThreadRefresh;
    assert Pc(s', t) == Pc(s, t) && Pc(s', u) == Pc(s, u);
  }

  lemma DoomedStays(s: State, s': State, t: nat, u: nat, k: nat)
    requires t != u && Doomed(s, t, u, k) && Owners(s) && Next(s, s')
    ensures Doomed(s', t, u, k)
  {
    hide Doomed, StepCaller, StepThread, Does, Owners;
    if v, c :| StepCaller(s, v, c) == Some(s') {
      StepDoes(s, v, c);
      DoomedByCaller(s, s', t, u, k, v);
    } else {
      var j: nat, spurious :| j < |s.threads| && StepThread(s, j, spurious) == Some(s');
      DoomedByThread(s, t, u, k, j, spurious);
    }
  }

  lemma BothWait(s: State, t: nat, u: nat, k: nat)
    requires WaitsFor(s, t, k) && WaitsFor(s, u, k)
    ensures Doomed(s, t, u, k)
  {
  }

  lemma {:induction false} StillDoomed(run: seq<State>, i: nat, j: nat, t: nat, u: nat, k: nat)
    requires IsRun(run) && i <= j < |run| && t != u && WaitsFor(run[i], t, k) && WaitsFor(run[i], u, k)
    ensures Doomed(run[j], t, u, k)
  {
    hide Doomed, Owners, Next, WaitsFor;
    if i == j {
      BothWait(run[i], t, u, k);
    } else {
      StillDoomed(run, i, j - 1, t, u, k);
      RunOwners(run, j - 1);
      assert Next(run[j - 1], run[j - 1 + 1]);
      DoomedStays(run[j - 1], run[j], t, u, k);
    }
  }

  /** In every run, two callers that wait for the same thread will have joined it twice when both have gone on. */
  lemma TwoWaitersJoinTwice(run: seq<State>, i: nat, j: nat, t: nat, u: nat, k: nat)
    requires IsRun(run) && i <= j < |run| && t != u && WaitsFor(run[i], t, k) && WaitsFor(run[i], u, k)
    requires !WaitsFor(run[j], t, k) && !WaitsFor(run[j], u, k)
    ensures run[j].badJoin
  {
    hide IsRun, WaitsFor;
    StillDoomed(run, i, j, t, u, k);
  }

  /** Caller t, which has found the thread, is about to stop it although caller u is stopping it already. This is how the
      second kind of clash begins. */
  ghost predicate BothStop(s: State, t: nat, u: nat) {
    && Owners(s) && EarlierJoined(s) && s.inited && t != u && Pc(s, t) == Stop(LockStop) && Stopping(Pc(s, u))
    && (forall v :: !Creating(Pc(s, v)) && Pc(s, v) != Init(CreateFailed))
    && (Pc(s, u).Join? && Pc(s, u).join.Await? ==> Pc(s, u).join.thread == |s.threads| - 1)
    && (Pc(s, u) == Join(ClearOk) ==> Latest(s) == Joined)
  }

  /** Up to the first clash of this kind the run is calm: the clash begins like that. */
  lemma ClashBegins(s: State, v: nat, c: Choice, t: nat, u: nat)
    requires Inv(s) && Calm(s) && StepCaller(s, v, c).Some? && t != u
    requires Stopping(Pc(StepCaller(s, v, c).value, t)) && Stopping(Pc(StepCaller(s, v, c).value, u))
    ensures var s' := StepCaller(s, v, c).value; BothStop(s', t, u) || BothStop(s', u, t)
  {
    hide StepCaller, Owners, NoLostWakeUp, Remembered, Latest, EarlierJoined, HoldsMutex;
    var s' := StepCaller(s, v, c).value;
    CallerOwners(s, v, c);
    CallerLatest(s, v, c);
    assert forall x :: x != v ==> Pc(s', x) == Pc(s, x);
    assert Fits(s, Pc(s, t)) && Fits(s, Pc(s, u)) && !Clash(Pc(s, t), Pc(s, u)) && !Clash(Pc(s, u), Pc(s, t));
    hide Pc;
    forall x
      ensures !Creating(Pc(s', x)) && Pc(s', x) != Init(CreateFailed)
    {
      assert Fits(s, Pc(s, x)) && Fits(s, Pc(s, v));
    }
  }

  // ---------- the mutexes become free ----------

  /** How many steps the owner of the mutex is from giving it back, if nobody else has the other mutex. */
  function CallerRank(pc: CallerPc): nat {
    match pc
    case Init(AskAgain) => 2
    case Init(UnlockInit) => 1
    case Post(SetWant) => 3
    case Post(SignalWant) => 2
    case Post(UnlockPost) => 1
    case Stop(ClearRunning) => 3
    case Stop(SignalStop) => 2
    case Stop(UnlockStop) => 1
    case Wipe(LockRefresh) => 3
    case Wipe(UnlockRefresh) => 2
    case Wipe(UnlockWipe) => 1
    case _ => 0
  }

  function ThreadRank(pc: ThreadPc): nat {
    match pc
    case CheckWait => 3
    case CheckRun => 2
    case ExitUnlock => 1
    case TakeUnlock => 1
    case _ => 0
  }

  function MutexRank(s: State): nat {
    match s.mutex
    case Free => 0
    case Caller(v) => CallerRank(Pc(s, v))
    case Thread(k) => ThreadRank(ThreadAt(s, k))
  }

  /** Does somebody refresh without the first mutex? */
  predicate RefreshApart(s: State) {
    s.refresh != Free && s.refresh != s.mutex
  }

  function Rank(s: State): nat {
    MutexRank(s) + if RefreshApart(s) then 1 else 0
  }

  /** A step of another caller, or of u towards the join, keeps the clash. */
  lemma BothStopStay(s: State, s': State, t: nat, u: nat, v: nat)
    requires BothStop(s, t, u) && Owners(s') && EarlierJoined(s') && v != t
    requires s'.callers == s.callers[v := Pc(s', v)] && s'.inited == s.inited && |s'.threads| == |s.threads|
    requires Latest(s) == Joined ==> Latest(s') == Joined
    requires !Creating(Pc(s', v)) && Pc(s', v) != Init(CreateFailed)
    requires v == u ==> Pc(s', v) in {Stop(SignalStop), Stop(UnlockStop), Join(AskThread)}
    ensures BothStop(s', t, u)
  {
    assert forall x :: x != v ==> Pc(s', x) == Pc(s, x);
    hide Pc, Owners, EarlierJoined, Latest;
  }

  /** What the next step of the owner of the mutex does. */
  predicate PassesOn(s: State, s': State, v: nat) {
    var (pc, pc') := (Pc(s, v), Pc(s', v));
    && (if HoldsMutex(pc') then s'.mutex == s.mutex && CallerRank(pc') < CallerRank(pc) else s'.mutex == Free && CallerRank(pc) > 0)
    && !RefreshApart(s') && s'.inited == s.inited && !Creating(pc') && pc' != Init(CreateFailed)
    && (Stopping(pc) ==> pc' in {Stop(SignalStop), Stop(UnlockStop), Join(AskThread)})
  }

  lemma OwnerInit(s: State, v: nat, pc: InitPc)
    requires Pc(s, v) == Init(pc) && pc in {AskAgain, UnlockInit}
    requires s.inited && s.mutex == Caller(v) && !RefreshApart(s) && (HoldsRefresh(Pc(s, v)) <==> s.refresh == Caller(v))
    ensures PassesOn(s, StepInit(s, v, pc, Going(s)).value, v)
  {
  }

  lemma OwnerPost(s: State, v: nat, pc: PostPc)
    requires Pc(s, v) == Post(pc) && HoldsMutex(Post(pc)) && Signalled(s, Going(s)).Some?
    requires s.inited && s.mutex == Caller(v) && !RefreshApart(s) && (HoldsRefresh(Pc(s, v)) <==> s.refresh == Caller(v))
    ensures StepPost(s, v, pc, Going(s)).Some? && PassesOn(s, StepPost(s, v, pc, Going(s)).value, v)
  {
    hide NoneParked;
  }

  lemma OwnerStop(s: State, v: nat, pc: StopPc)
    requires Pc(s, v) == Stop(pc) && HoldsMutex(Stop(pc)) && Signalled(s, Going(s)).Some?
    requires s.inited && s.mutex == Caller(v) && !RefreshApart(s) && (HoldsRefresh(Pc(s, v)) <==> s.refresh == Caller(v))
    ensures StepStop(s, v, pc, Going(s)).Some? && PassesOn(s, StepStop(s, v, pc, Going(s)).value, v)
  {
    hide NoneParked;
  }

  lemma OwnerWipe(s: State, v: nat, pc: WipePc)
    requires Pc(s, v) == Wipe(pc) && HoldsMutex(Wipe(pc))
    requires s.inited && s.mutex == Caller(v) && !RefreshApart(s) && (HoldsRefresh(Pc(s, v)) <==> s.refresh == Caller(v))
    ensures StepWipe(s, v, pc).Some? && PassesOn(s, StepWipe(s, v, pc).value, v)
  {
  }

  lemma GoingWakes(s: State)
    requires EarlierJoined(s)
    ensures Signalled(s, Going(s)).Some?
  {
    if s.threads != [] && Latest(s) != Parked {
      assert NoneParked(s.threads);
    }
  }

  lemma OwnerStep(s: State, v: nat)
    requires EarlierJoined(s) && HoldsMutex(Pc(s, v)) && !Creating(Pc(s, v)) && Pc(s, v) != Init(CreateFailed)
    requires s.inited && s.mutex == Caller(v) && !RefreshApart(s) && (HoldsRefresh(Pc(s, v)) <==> s.refresh == Caller(v))
    ensures StepCaller(s, v, Going(s)).Some? && PassesOn(s, StepCaller(s, v, Going(s)).value, v)
  {
    hide PassesOn, Signalled, EarlierJoined, Going;
    GoingWakes(s);
    match Pc(s, v)
    case Init(pc) => OwnerInit(s, v, pc);
    case Post(pc) => OwnerPost(s, v, pc);
    case Stop(pc) => OwnerStop(s, v, pc);
    case Wipe(pc) => OwnerWipe(s, v, pc);
  }

  lemma WakesOnlyLatest(s: State, s': State, v: nat)
    requires EarlierJoined(s) && Does(s, s', v) && HoldsMutex(Pc(s, v)) && !Creating(Pc(s, v))
    ensures EarlierJoined(s') && |s'.threads| == |s.threads| && (Latest(s) == Joined ==> Latest(s') == Joined)
  {
    hide Effects, Comes;
    if Pc(s, v) == Post(SignalWant) || Pc(s, v) == Stop(SignalStop) {
      WokeLatest(s, s');
    }
  }

  /** The owner of the mutex goes on. */
  lemma OwnerGoesOn(s: State, t: nat, u: nat, v: nat) returns (s': State)
    requires BothStop(s, t, u) && s.mutex == Caller(v) && !RefreshApart(s)
    ensures CallerStep(s, s') && BothStop(s', t, u) && !RefreshApart(s') && Rank(s') < Rank(s)
  {
    assert HoldsMutex(Pc(s, v)) && !Creating(Pc(s, v)) && Pc(s, v) != Init(CreateFailed);
    assert HoldsRefresh(Pc(s, v)) <==> s.refresh == Caller(v);
    assert v != t && (v == u ==> Stopping(Pc(s, v)));
    hide StepCaller, Owners, EarlierJoined, Does, Latest, Stopping, HoldsMutex, HoldsRefresh, BothStop, CallerRank;
    OwnerStep(s, v);
    s' := StepCaller(s, v, Going(s)).value;
    BothStopOwners(s, t, u);
    StepDoes(s, v, Going(s));
    CallerOwners(s, v, Going(s));
    WakesOnlyLatest(s, s', v);
    BothStopStay(s, s', t, u, v);
  }

  lemma BothStopOwners(s: State, t: nat, u: nat)
    requires BothStop(s, t, u)
    ensures Owners(s) && EarlierJoined(s)
  {
  }

  /** A thread that owns the mutex goes on. */
  lemma ThreadGoesOn(s: State, t: nat, u: nat, k: nat) returns (s': State)
    requires BothStop(s, t, u) && s.mutex == Thread(k) && !RefreshApart(s)
    ensures ThreadStep(s, s') && BothStop(s', t, u) && !RefreshApart(s') && Rank(s') < Rank(s)
  {
    assert ThreadHoldsMutex(ThreadAt(s, k)) && !(ThreadAt(s, k) == Body);
    assert s.refresh == Free;
    s' := StepThread(s, k, false).value;
    ThreadStepDoes(s, k, false);
    ThreadOwners(s, k, false);
    hide StepThread, Owners;
    BothStopThread(s, s', t, u, k);
  }

  /** A step of a thread keeps the clash. */
  lemma BothStopThread(s: State, s': State, t: nat, u: nat, k: nat)
    requires BothStop(s, t, u) && ThreadDoes(s, s', k) && Owners(s')
    ensures BothStop(s', t, u)
  {
    assert forall x :: Pc(s', x) == Pc(s, x);
    hide Pc, Owners, ThreadMutex, ThreadRefresh;
  }

  /** Whoever refreshes without the first mutex finishes. */
  lemma RefreshEnds(s: State, t: nat, u: nat) returns (s': State)
    requires BothStop(s, t, u) && RefreshApart(s)
    ensures Next(s, s') && BothStop(s', t, u) && !RefreshApart(s') && Rank(s') < Rank(s)
  {
    if s.refresh.Thread? {
      var k := s.refresh.id;
      assert ThreadAt(s, k) == Body;
      s' := StepThread(s, k, false).value;
      ThreadStepDoes(s, k, false);
      ThreadOwners(s, k, false);
      assert ThreadStep(s, s');
      hide StepThread, Owners;
      BothStopThread(s, s', t, u, k);
    } else {
      s' := BodyEnds(s, t, u, s.refresh.id);
    }
  }

  lemma BodyEnds(s: State, t: nat, u: nat, v: nat) returns (s': State)
    requires BothStop(s, t, u) && s.refresh == Caller(v) && RefreshApart(s)
    ensures CallerStep(s, s') && BothStop(s', t, u) && !RefreshApart(s') && Rank(s') < Rank(s)
  {
    assert HoldsRefresh(Pc(s, v)) && (HoldsMutex(Pc(s, v)) ==> s.mutex == Caller(v));
    assert Pc(s, v) == Sync(SyncBody);
    s' := StepCaller(s, v, Succeed).value;
    CallerOwners(s, v, Succeed);
    hide StepCaller, Owners, EarlierJoined;
    BothStopStay(s, s', t, u, v);
  }

  /** The mutexes become free. */
  lemma {:induction false} FreeBoth(g: State, s: State, t: nat, u: nat) returns (s': State)
    requires Leads(g, s, false) && BothStop(s, t, u)
    ensures Leads(g, s', false) && BothStop(s', t, u) && s'.mutex == Free && s'.refresh == Free
    decreases Rank(s)
  {
    hide Leads, BothStop, Next, CallerStep, ThreadStep, Rank, RefreshApart;
    if RefreshApart(s) {
      var n := RefreshEnds(s, t, u);
      ReachNext(g, s, false, n);
      s' := FreeBoth(g, n, t, u);
    } else if s.mutex.Caller? {
      var n := OwnerGoesOn(s, t, u, s.mutex.id);
      assert Next(s, n) by { CallersGo(s, n); }
      ReachNext(g, s, false, n);
      s' := FreeBoth(g, n, t, u);
    } else if s.mutex.Thread? {
      var n := ThreadGoesOn(s, t, u, s.mutex.id);
      assert Next(s, n) by { ThreadsGo(s, n); }
      ReachNext(g, s, false, n);
      s' := FreeBoth(g, n, t, u);
    } else {
      FreeThen(s);
      s' := s;
    }
  }

  lemma CallersGo(s: State, n: State)
    requires CallerStep(s, n)
    ensures Next(s, n)
  {
    hide CallerStep, ThreadStep;
  }

  lemma ThreadsGo(s: State, n: State)
    requires ThreadStep(s, n)
    ensures Next(s, n)
  {
    hide CallerStep, ThreadStep;
  }

  lemma FreeThen(s: State)
    requires s.mutex == Free && !RefreshApart(s)
    ensures s.refresh == Free
  {
  }

  // ---------- both go on ----------

  /** A signal has woken the latest thread if it was parked. */
  predicate SignalledLatest(a: seq<ThreadPc>, b: seq<ThreadPc>) {
    b == a || (a != [] && a[|a| - 1] == Parked && b == a[|a| - 1 := Woken])
  }

  lemma GoingSignals(s: State)
    requires EarlierJoined(s)
    ensures Signalled(s, Going(s)).Some? && SignalledLatest(s.threads, Signalled(s, Going(s)).value.threads)
    ensures Signalled(s, Going(s)).value == s.(threads := Signalled(s, Going(s)).value.threads)
  {
    GoingWakes(s);
  }

  /** A clear that may take the mutex goes on to wait for the latest thread. */
  lemma GoesToJoin(g: State, s: State, t: nat) returns (s': State)
    requires Leads(g, s, false) && Pc(s, t) == Stop(LockStop) && s.mutex == Free && s.threads != [] && EarlierJoined(s)
    ensures Leads(g, s', false) && OthersSame(s, s', t) && WaitsFor(s', t, |s.threads| - 1)
    ensures !s'.running && s'.mutex == Free && s'.refresh == s.refresh && SignalledLatest(s.threads, s'.threads)
  {
    hide Leads, Alone, Signalled, SignalledLatest, Going;
    s' := ReachStop(g, s, false, t, LockStop);
    s' := ReachStop(g, s', false, t, ClearRunning);
    s' := SignalsStop(g, s', t);
    s' := ReachStop(g, s', false, t, UnlockStop);
    SameLength(s.threads, s'.threads);
    s' := ReachJoin(g, s', false, t, AskThread);
  }

  lemma SameLength(a: seq<ThreadPc>, b: seq<ThreadPc>)
    requires SignalledLatest(a, b)
    ensures |b| == |a|
  {
  }

  lemma SignalsStop(g: State, s: State, t: nat) returns (s': State)
    requires Leads(g, s, false) && Pc(s, t) == Stop(SignalStop) && EarlierJoined(s)
    ensures Leads(g, s', false) && OthersSame(s, s', t) && Pc(s', t) == Stop(UnlockStop) && SignalledLatest(s.threads, s'.threads)
    ensures s' == Goto(s, t, Stop(UnlockStop)).(threads := s'.threads)
  {
    hide Leads, Alone, Signalled, SignalledLatest, Going;
    var n := Goto(s, t, Stop(UnlockStop));
    GoingSignals(n);
    assert Going(n) == Going(s) by { SameGoing(n, s); }
    s' := ReachCaller(g, s, false, t, Going(s));
  }

  lemma SameGoing(n: State, s: State)
    requires n.threads == s.threads
    ensures Going(n) == Going(s)
  {
  }

  /** How far a thread that is to stop is from its end. */
  function EndRank(pc: ThreadPc): nat {
    match pc
    case Parked => 5
    case TakeLock => 4
    case Woken => 4
    case CheckWait => 3
    case CheckRun => 2
    case ExitUnlock => 1
    case TakeUnlock => 4
    case BodyLock => 3
    case Body => 2
    case LoopHead => 1
    case _ => 0
  }

  /** Thread k has what its position says, and nobody has anything else. */
  predicate OnlyOwner(s: State, k: nat) {
    && k < |s.threads| && s.threads[k] != Joined && !s.running
    && s.mutex == (if ThreadHoldsMutex(s.threads[k]) then Thread(k) else Free)
    && s.refresh == (if s.threads[k] == Body then Thread(k) else Free)
  }

  lemma EndStep(s: State, k: nat) returns (s': State)
    requires OnlyOwner(s, k) && s.threads[k] != Exited
    ensures ThreadStep(s, s') && OnlyOwner(s', k) && EndRank(s'.threads[k]) < EndRank(s.threads[k])
    ensures s'.callers == s.callers && s'.threads == s.threads[k := s'.threads[k]]
  {
    s' := StepThread(s, k, true).value;
    hide EndRank, ThreadHoldsMutex;
    if Waits(s.threads[k]) {
      EndWait(s, k, s.threads[k]);
    } else {
      EndTake(s, k, s.threads[k]);
    }
  }

  lemma EndWait(s: State, k: nat, pc: ThreadPc)
    requires OnlyOwner(s, k) && pc == s.threads[k] && Waits(pc)
    ensures StepWait(s, k, pc, true).Some?
    ensures var s' := StepWait(s, k, pc, true).value;
      OnlyOwner(s', k) && EndRank(s'.threads[k]) < EndRank(pc) && s'.threads == s.threads[k := s'.threads[k]]
  {
  }

  lemma EndTake(s: State, k: nat, pc: ThreadPc)
    requires OnlyOwner(s, k) && pc == s.threads[k] && !Waits(pc) && pc != Exited
    ensures StepTake(s, k, pc).Some?
    ensures var s' := StepTake(s, k, pc).value;
      OnlyOwner(s', k) && EndRank(s'.threads[k]) < EndRank(pc) && s'.threads == s.threads[k := s'.threads[k]]
  {
  }

  /** A thread that is to stop comes to its end. */
  lemma {:induction false} ThreadEnds(g: State, s: State, k: nat) returns (s': State)
    requires Leads(g, s, false) && OnlyOwner(s, k)
    ensures Leads(g, s', false) && s'.callers == s.callers && k < |s'.threads| && s'.threads[k] == Exited
    decreases if OnlyOwner(s, k) then EndRank(s.threads[k]) else 0
  {
    s' := s;
    if s.threads[k] != Exited {
      var n := EndStep(s, k);
      assert Next(s, n) by { ThreadsGo(s, n); }
      hide Leads, OnlyOwner, Next, EndRank;
      ReachNext(g, s, false, n);
      s' := ThreadEnds(g, n, k);
    }
  }

  /** Two callers that wait for the same thread join it one after the other. */
  lemma BothJoinThread(g: State, s: State, t: nat, u: nat, k: nat) returns (s': State)
    requires Leads(g, s, false) && t != u && WaitsFor(s, t, k) && WaitsFor(s, u, k) && k < |s.threads| && s.threads[k] == Exited
    ensures Leads(g, s', false) && s'.badJoin
  {
    hide Leads, Alone;
    s' := ReachJoin(g, s, false, t, Await(k));
    s' := ReachJoin(g, s', false, u, Await(k));
  }

  /** Without any thread the join is a bad one. */
  lemma NoThreadToJoin(g: State, s: State, t: nat) returns (s': State)
    requires Leads(g, s, false) && Pc(s, t) == Stop(LockStop) && s.mutex == Free && s.threads == []
    ensures Leads(g, s', false) && s'.badJoin
  {
    hide Leads, Alone, Signalled, Going;
    s' := ReachStop(g, s, false, t, LockStop);
    s' := ReachStop(g, s', false, t, ClearRunning);
    s' := SignalsStop(g, s', t);
    s' := ReachStop(g, s', false, t, UnlockStop);
    s' := ReachJoin(g, s', false, t, AskThread);
  }

  /** What holds when both mutexes are free. */
  lemma AtRest(s: State, t: nat, u: nat)
    requires BothStop(s, t, u) && s.mutex == Free && s.refresh == Free
    ensures Pc(s, u) in {Stop(LockStop), Join(AskThread), Join(ClearOk)} || (s.threads != [] && WaitsFor(s, u, |s.threads| - 1))
    ensures s.threads != [] ==> !ThreadHoldsMutex(Latest(s)) && Latest(s) != Body
  {
    assert !HoldsMutex(Pc(s, u));
    assert ThreadHoldsMutex(ThreadAt(s, |s.threads|)) <==> s.mutex == Thread(|s.threads|);
    if s.threads != [] {
      assert ThreadAt(s, |s.threads| - 1) == Latest(s);
      assert ThreadHoldsMutex(ThreadAt(s, |s.threads| - 1)) <==> s.mutex == Thread(|s.threads| - 1);
      assert ThreadAt(s, |s.threads| - 1) == Body <==> s.refresh == Thread(|s.threads| - 1);
    }
    hide Owners, Latest, ThreadAt;
  }

  /** After a signal the latest thread still owns nothing. */
  lemma StillAtRest(a: seq<ThreadPc>, b: seq<ThreadPc>)
    requires SignalledLatest(a, b) && a != []
    ensures |b| == |a| && (forall k :: 0 <= k < |a| - 1 ==> b[k] == a[k])
    ensures a[|a| - 1] == Joined <==> b[|a| - 1] == Joined
    ensures !ThreadHoldsMutex(a[|a| - 1]) && a[|a| - 1] != Body ==> !ThreadHoldsMutex(b[|a| - 1]) && b[|a| - 1] != Body
  {
  }

  /** Caller u comes to wait for the thread that t waits for. */
  lemma BothWaitFor(g: State, s: State, t: nat, u: nat) returns (s': State)
    requires Leads(g, s, false) && t != u && s.threads != [] && EarlierJoined(s) && s.mutex == Free && s.refresh == Free && !s.running
    requires WaitsFor(s, t, |s.threads| - 1)
    requires Pc(s, u) in {Stop(LockStop), Join(AskThread)} || WaitsFor(s, u, |s.threads| - 1)
    ensures Leads(g, s', false) && WaitsFor(s', t, |s.threads| - 1) && WaitsFor(s', u, |s.threads| - 1)
    ensures !s'.running && s'.mutex == Free && s'.refresh == Free && SignalledLatest(s.threads, s'.threads)
  {
    hide Leads, Alone, EarlierJoined;
    if Pc(s, u) == Stop(LockStop) {
      s' := GoesToJoin(g, s, u);
    } else if Pc(s, u) == Join(AskThread) {
      s' := ReachJoin(g, s, false, u, AskThread);
    } else {
      s' := s;
    }
  }

  /** Wherever two clears stop the thread at the same time, they may join it twice: a run leads there from every such
      clash. */
  lemma ClashJoinsTwice(s: State, t: nat, u: nat) returns (s': State)
    requires BothStop(s, t, u)
    ensures Leads(s, s', false) && s'.badJoin
  {
    hide Leads, Owners, EarlierJoined, BothStop, OnlyOwner, SignalledLatest, Alone;
    StaysHere(s);
    s' := FreeBoth(s, s, t, u);
    AtRest(s', t, u);
    WhatBothStopIs(s', t, u);
    if s'.threads == [] {
      s' := NoThreadToJoin(s, s', t);
    } else {
      s' := JoinTwice(s, s', t, u);
    }
  }

  lemma WhatBothStopIs(s: State, t: nat, u: nat)
    requires BothStop(s, t, u)
    ensures t != u && Pc(s, t) == Stop(LockStop) && EarlierJoined(s) && (Pc(s, u) == Join(ClearOk) ==> Latest(s) == Joined)
  {
    hide Owners, EarlierJoined, Pc;
  }

  lemma JoinTwice(g: State, s: State, t: nat, u: nat) returns (s': State)
    requires Leads(g, s, false) && t != u && Pc(s, t) == Stop(LockStop) && s.mutex == Free && s.refresh == Free
    requires s.threads != [] && EarlierJoined(s) && !ThreadHoldsMutex(Latest(s)) && Latest(s) != Body
    requires Pc(s, u) in {Stop(LockStop), Join(AskThread)} || WaitsFor(s, u, |s.threads| - 1) || Latest(s) == Joined
    ensures Leads(g, s', false) && s'.badJoin
  {
    hide Leads, Alone, SignalledLatest, OnlyOwner;
    var k := |s.threads| - 1;
    s' := GoesToJoin(g, s, t);
    StillAtRest(s.threads, s'.threads);
    if s.threads[k] == Joined {
      s' := ReachJoin(g, s', false, t, Await(k));
    } else {
      assert Pc(s', u) == Pc(s, u);
      var n := BothWaitFor(g, s', t, u);
      StillAtRest(s'.threads, n.threads);
      assert OnlyOwner(n, k) by { NobodyOwns(n, k); }
      s' := ThreadEnds(g, n, k);
      assert Pc(s', t) == Pc(n, t) && Pc(s', u) == Pc(n, u);
      s' := BothJoinThread(g, s', t, u, k);
    }
  }

  lemma NobodyOwns(n: State, k: nat)
    requires k < |n.threads| && n.threads[k] != Joined && !n.running && n.mutex == Free && n.refresh == Free
    requires !ThreadHoldsMutex(n.threads[k]) && n.threads[k] != Body
    ensures OnlyOwner(n, k)
  {
  }
}
