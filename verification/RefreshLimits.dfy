/** Runs of the refresh protocol in which a promise ends. */
module RefreshLimits {
  import opened RefreshProtocol

  ghost predicate Path(run: seq<State>, calm: bool) {
    && run != [] && (forall i :: 0 <= i < |run| - 1 ==> Next(run[i], run[i + 1]))
    && (calm ==> forall i :: 0 <= i < |run| ==> Calm(run[i]))
  }

  /** Some run leads from g to s, and a calm one if calm is set. */
  ghost predicate Leads(g: State, s: State, calm: bool) {
    exists run :: Path(run, calm) && run[0] == g && run[|run| - 1] == s
  }

  /** What can be reached from the beginning is the end of a run. */
  lemma Reachable(s: State, calm: bool) returns (run: seq<State>)
    requires Leads(INIT, s, calm)
    ensures IsRun(run) && run[|run| - 1] == s && (calm ==> IsCalmRun(run))
  {
    hide Next, Calm;
    run :| Path(run, calm) && run[0] == INIT && run[|run| - 1] == s;
  }

  lemma Extend(run: seq<State>, calm: bool, s': State)
    requires Path(run, calm) && Next(run[|run| - 1], s') && (calm ==> Calm(s'))
    ensures Path(run + [s'], calm)
  {
    var longer := run + [s'];
    forall i | 0 <= i < |longer| - 1
      ensures Next(longer[i], longer[i + 1])
    {
      if i < |run| - 1 {
        assert Next(run[i], run[i + 1]);
      }
    }
  }

  /** Only caller t does anything. */
  ghost predicate Alone(s: State, t: nat) {
    forall u :: u != t ==> Pc(s, u) == Idle
  }

  ghost predicate OthersSame(s: State, s': State, t: nat) {
    forall u :: u != t ==> Pc(s', u) == Pc(s, u)
  }

  lemma AloneIsCalm(s: State, t: nat)
    requires Alone(s, t)
    ensures Calm(s)
  {
    hide Pc;
  }

  lemma ReachNext(g: State, s: State, calm: bool, s': State)
    requires Leads(g, s, calm) && Next(s, s') && (calm ==> Calm(s'))
    ensures Leads(g, s', calm)
  {
    hide Next, Calm;
    var run :| Path(run, calm) && run[0] == g && run[|run| - 1] == s;
    Extend(run, calm, s');
    assert (run + [s'])[|run|] == s' && (run + [s'])[0] == g;
  }

  lemma ReachCaller(g: State, s: State, calm: bool, t: nat, c: Choice) returns (s': State)
    requires Leads(g, s, calm) && StepCaller(s, t, c).Some? && (calm ==> Alone(s, t))
    ensures s' == StepCaller(s, t, c).value && Leads(g, s', calm) && (calm ==> Alone(s', t)) && OthersSame(s, s', t)
  {
    s' := StepCaller(s, t, c).value;
    assert OthersSame(s, s', t);
    hide StepCaller, Leads, Calm;
    if calm {
      AloneIsCalm(s', t);
    }
    ReachNext(g, s, calm, s');
  }

  lemma SameCallers(s: State, s': State, t: nat)
    requires s'.callers == s.callers && Alone(s, t)
    ensures Alone(s', t) && Calm(s')
  {
    assert forall u :: Pc(s', u) == Pc(s, u);
    AloneIsCalm(s', t);
  }

  lemma ReachThread(g: State, s: State, calm: bool, t: nat, k: nat) returns (s': State)
    requires k < |s.threads| && Leads(g, s, calm) && StepThread(s, k, false).Some? && (calm ==> Alone(s, t))
    ensures s' == StepThread(s, k, false).value && s'.callers == s.callers && Leads(g, s', calm) && (calm ==> Alone(s', t))
  {
    hide StepThread, StepCaller, Leads, Calm, Alone, Pc;
    s' := StepThread(s, k, false).value;
    if calm {
      SameCallers(s, s', t);
    }
    assert ThreadStep(s, s');
    ReachNext(g, s, calm, s');
  }

  lemma ReachInit(g: State, s: State, calm: bool, t: nat, pc: InitPc) returns (s': State)
    requires Leads(g, s, calm) && Pc(s, t) == Init(pc) && StepInit(s, t, pc, Succeed).Some? && (calm ==> Alone(s, t))
    ensures s' == StepInit(s, t, pc, Succeed).value && Leads(g, s', calm) && (calm ==> Alone(s', t)) && OthersSame(s, s', t)
  {
    hide Leads, Alone, OthersSame, StepInit;
    s' := ReachCaller(g, s, calm, t, Succeed);
  }

  lemma ReachPost(g: State, s: State, calm: bool, t: nat, pc: PostPc) returns (s': State)
    requires Leads(g, s, calm) && Pc(s, t) == Post(pc) && StepPost(s, t, pc, Succeed).Some? && (calm ==> Alone(s, t))
    ensures s' == StepPost(s, t, pc, Succeed).value && Leads(g, s', calm) && (calm ==> Alone(s', t)) && OthersSame(s, s', t)
  {
    hide Leads, Alone, OthersSame, StepPost;
    s' := ReachCaller(g, s, calm, t, Succeed);
  }

  lemma ReachStop(g: State, s: State, calm: bool, t: nat, pc: StopPc) returns (s': State)
    requires Leads(g, s, calm) && Pc(s, t) == Stop(pc) && StepStop(s, t, pc, Succeed).Some? && (calm ==> Alone(s, t))
    ensures s' == StepStop(s, t, pc, Succeed).value && Leads(g, s', calm) && (calm ==> Alone(s', t)) && OthersSame(s, s', t)
  {
    hide Leads, Alone, OthersSame, StepStop;
    s' := ReachCaller(g, s, calm, t, Succeed);
  }

  lemma ReachJoin(g: State, s: State, calm: bool, t: nat, pc: JoinPc) returns (s': State)
    requires Leads(g, s, calm) && Pc(s, t) == Join(pc) && StepJoin(s, t, pc).Some? && (calm ==> Alone(s, t))
    ensures s' == StepJoin(s, t, pc).value && Leads(g, s', calm) && (calm ==> Alone(s', t)) && OthersSame(s, s', t)
  {
    hide Leads, Alone, OthersSame, StepJoin;
    s' := ReachCaller(g, s, calm, t, Succeed);
  }

  lemma ReachStart(g: State, s: State, calm: bool, t: nat, c: Choice) returns (s': State)
    requires Leads(g, s, calm) && Pc(s, t) == Idle && StepIdle(s, t, c).Some? && (calm ==> Alone(s, t))
    ensures s' == StepIdle(s, t, c).value && Leads(g, s', calm) && (calm ==> Alone(s', t)) && OthersSame(s, s', t)
  {
    hide Leads, Alone, OthersSame, StepIdle;
    s' := ReachCaller(g, s, calm, t, c);
  }

  lemma InitReachable(calm: bool)
    ensures Leads(INIT, INIT, calm) && Alone(INIT, 0)
  {
    var run := [INIT];
    assert Path(run, calm) && run[0] == INIT && run[|run| - 1] == INIT;
  }

  /** Caller t creates a thread. */
  lemma CreateThread(g: State, s: State, t: nat, calm: bool) returns (s': State)
    requires Leads(g, s, calm) && Pc(s, t) == Idle && s.mutex == Free && !s.inited && (calm ==> Alone(s, t))
    ensures Leads(g, s', calm) && (calm ==> Alone(s', t)) && OthersSame(s, s', t)
    ensures Pc(s', t) == Init(SetOk) && s'.mutex == Caller(t) && s'.inited && s'.running && s'.ok == s.ok
    ensures s'.threads == s.threads + [LoopHead] && s'.badJoin == s.badJoin
    ensures s'.asked == s.asked && s'.started == s.started && s'.clock == s.clock
  {
    hide Leads, Alone;
    s' := ReachStart(g, s, calm, t, StartAsync);
    s' := ReachInit(g, s', calm, t, AskInited);
    s' := ReachInit(g, s', calm, t, LockInit);
    s' := ReachInit(g, s', calm, t, AskAgain);
    s' := ReachInit(g, s', calm, t, SetRunning);
    s' := ReachInit(g, s', calm, t, Create);
  }

  /** Caller t, having created the first thread, posts its request. */
  lemma PostRequest(g: State, s: State, t: nat, calm: bool) returns (s': State)
    requires Leads(g, s, calm) && Pc(s, t) == Init(SetOk) && s.threads == [LoopHead] && (calm ==> Alone(s, t))
    ensures Leads(g, s', calm) && (calm ==> Alone(s', t)) && OthersSame(s, s', t) && Pc(s', t) == Idle && s'.mutex == Free && s'.ok
    ensures s'.threads == [LoopHead] && s'.asked == s.clock + 1 && s'.started == s.started
  {
    hide Leads, Alone;
    s' := ReachInit(g, s, calm, t, SetOk);
    s' := ReachInit(g, s', calm, t, UnlockInit);
    s' := ReachPost(g, s', calm, t, AskOk);
    s' := ReachPost(g, s', calm, t, LockPost);
    s' := SignalRequest(g, s', t, calm);
  }

  lemma SignalRequest(g: State, s: State, t: nat, calm: bool) returns (s': State)
    requires Leads(g, s, calm) && Pc(s, t) == Post(SetWant) && s.threads == [LoopHead] && (calm ==> Alone(s, t))
    ensures Leads(g, s', calm) && (calm ==> Alone(s', t)) && OthersSame(s, s', t) && Pc(s', t) == Idle && s'.mutex == Free
    ensures s'.ok == s.ok && s'.threads == [LoopHead] && s'.asked == s.clock + 1 && s'.started == s.started
  {
    hide Leads, Alone;
    assert NoneParked(s.threads);
    s' := ReachPost(g, s, calm, t, SetWant);
    s' := ReachPost(g, s', calm, t, SignalWant);
    s' := ReachPost(g, s', calm, t, UnlockPost);
  }

  /** Caller t has seen the only thread, stops it, and goes to join it. */
  lemma StopThread(g: State, s: State, t: nat, calm: bool) returns (s': State)
    requires Leads(g, s, calm) && Pc(s, t) == Stop(LockStop) && s.mutex == Free && s.threads == [LoopHead]
    requires calm ==> Alone(s, t)
    ensures Leads(g, s', calm) && (calm ==> Alone(s', t)) && OthersSame(s, s', t) && Pc(s', t) == Join(Await(0))
    ensures s'.threads == [LoopHead] && !s'.running && s'.mutex == Free && s'.asked == s.asked && s'.started == s.started
  {
    hide Leads, Alone;
    s' := ReachStop(g, s, calm, t, LockStop);
    s' := ReachStop(g, s', calm, t, ClearRunning);
    s' := SignalThread(g, s', t, calm);
  }

  lemma SignalThread(g: State, s: State, t: nat, calm: bool) returns (s': State)
    requires Leads(g, s, calm) && Pc(s, t) == Stop(SignalStop) && s.threads == [LoopHead] && (calm ==> Alone(s, t))
    ensures Leads(g, s', calm) && (calm ==> Alone(s', t)) && OthersSame(s, s', t) && Pc(s', t) == Join(Await(0))
    ensures s'.threads == [LoopHead] && s'.running == s.running && s'.mutex == Free
    ensures s'.asked == s.asked && s'.started == s.started
  {
    hide Leads, Alone;
    assert NoneParked(s.threads);
    s' := ReachStop(g, s, calm, t, SignalStop);
    s' := ReachStop(g, s', calm, t, UnlockStop);
    s' := ReachJoin(g, s', calm, t, AskThread);
  }

  /** Caller 0 requests the first refresh. */
  lemma FirstRequest(calm: bool) returns (s: State)
    ensures Leads(INIT, s, calm) && Alone(s, 0) && Pc(s, 0) == Idle && s.mutex == Free && s.ok
    ensures s.threads == [LoopHead] && s.asked == 1 && s.started == 0
  {
    hide Leads;
    InitReachable(calm);
    s := CreateThread(INIT, INIT, 0, calm);
    s := PostRequest(INIT, s, 0, calm);
  }

  /** A single caller that requests a refresh and then clears: the thread may exit without ever having refreshed. */
  lemma RequestDroppedByClear() returns (run: seq<State>)
    ensures IsCalmRun(run)
    ensures var s := run[|run| - 1]; Pc(s, 0) == Join(ClearOk) && s.threads == [Joined] && s.asked == 1 && s.started == 0
  {
    hide Leads, OthersSame;
    var s := FirstRequest(true);
    s := ReachStart(INIT, s, true, 0, StartClear);
    s := ReachStop(INIT, s, true, 0, AskStop);
    s := StopThread(INIT, s, 0, true);
    var before := s;
    s := ReachThread(INIT, s, true, 0, 0);
    assert Pc(s, 0) == Pc(before, 0);
    s := ReachJoin(INIT, s, true, 0, Await(0));
    run := Reachable(s, true);
  }

  /** A clear that overlaps the creation of the thread finds none to stop, and the next asynchronous refresh creates a
      second one beside the first. */
  lemma SecondThread() returns (run: seq<State>)
    ensures IsRun(run) && run[|run| - 1].threads == [LoopHead, LoopHead]
  {
    hide Leads, Alone;
    InitReachable(false);
    var s := CreateThread(INIT, INIT, 0, false);
    s := ClearMisses(s);
    s := ReachInit(INIT, s, false, 0, SetOk);
    s := ReachInit(INIT, s, false, 0, UnlockInit);
    s := CreateThread(INIT, s, 2, false);
    run := Reachable(s, false);
  }

  /** Caller 1 clears while caller 0 is about to note that the thread has been created. */
  lemma ClearMisses(s: State) returns (s': State)
    requires Leads(INIT, s, false) && Pc(s, 0) == Init(SetOk) && Pc(s, 1) == Idle && Pc(s, 2) == Idle && !s.ok
    ensures Leads(INIT, s', false) && Pc(s', 0) == Init(SetOk) && Pc(s', 2) == Idle && !s'.inited
    ensures s'.mutex == s.mutex && s'.threads == s.threads
  {
    hide Leads, Alone;
    s' := ReachStart(INIT, s, false, 1, StartClear);
    s' := ReachStop(INIT, s', false, 1, AskStop);
    s' := ReachJoin(INIT, s', false, 1, ClearInited);
  }

  /** Caller u finishes the creation of a thread. */
  lemma FinishCreation(s: State, u: nat) returns (s': State)
    requires Owners(s) && Creating(Pc(s, u)) && (Pc(s, u) == Init(SetOk) ==> Alive(s))
    ensures Leads(s, s', false) && OthersSame(s, s', u) && Pc(s', u) == Init(SetOk) && Alive(s') && s'.threads != []
  {
    hide Leads, Owners, Alone;
    s' := s;
    StaysHere(s);
    if Pc(s', u) == Init(SetRunning) {
      s' := ReachInit(s, s', false, u, SetRunning);
    }
    if Pc(s', u) == Init(Create) {
      s' := ReachInit(s, s', false, u, Create);
    }
  }

  lemma StaysHere(s: State)
    ensures Leads(s, s, false)
  {
    assert Path([s], false) && [s][0] == s && [s][|[s]| - 1] == s;
  }

  /** Wherever a clear is about to reset the flag while a thread is being created, two threads may be the result: any
      idle caller can go on to create another one while the first is alive. */
  lemma ClashGivesSecondThread(s: State, t: nat, u: nat, v: nat) returns (s': State)
    requires Owners(s) && Pc(s, t) == Join(ClearInited) && Creating(Pc(s, u)) && (Pc(s, u) == Init(SetOk) ==> Alive(s))
    requires Pc(s, v) == Idle
    ensures Leads(s, s', false) && |s'.threads| >= 2 && Alive(s')
    ensures s'.threads[|s'.threads| - 2] != Exited && s'.threads[|s'.threads| - 2] != Joined
  {
    hide Leads, Owners, Alone;
    s' := FinishCreation(s, u);
    s' := ReachJoin(s, s', false, t, ClearInited);
    s' := ReachInit(s, s', false, u, SetOk);
    s' := ReachInit(s, s', false, u, UnlockInit);
    s' := CreateThread(s, s', v, false);
  }

  /** Two clears that overlap join the same thread. */
  lemma JoinedTwice() returns (run: seq<State>)
    ensures IsRun(run) && run[|run| - 1].badJoin
  {
    hide Leads;
    var s := FirstRequest(false);
    assert Pc(s, 1) == Idle && Pc(s, 2) == Idle;
    hide Alone;
    s := ReachStart(INIT, s, false, 1, StartClear);
    s := ReachStop(INIT, s, false, 1, AskStop);
    s := ReachStart(INIT, s, false, 2, StartClear);
    s := ReachStop(INIT, s, false, 2, AskStop);
    s := StopThread(INIT, s, 1, false);
    s := StopThread(INIT, s, 2, false);
    s := BothJoin(s);
    run := Reachable(s, false);
  }

  lemma BothJoin(s: State) returns (s': State)
    requires Leads(INIT, s, false) && Pc(s, 1) == Join(Await(0)) && Pc(s, 2) == Join(Await(0))
    requires s.threads == [LoopHead] && !s.running
    ensures Leads(INIT, s', false) && s'.badJoin
  {
    hide Leads, Alone;
    s' := ReachThread(INIT, s, false, 1, 0);
    assert Pc(s', 1) == Pc(s, 1) && Pc(s', 2) == Pc(s, 2);
    s' := ReachJoin(INIT, s', false, 1, Await(0));
    s' := ReachJoin(INIT, s', false, 2, Await(0));
  }
}
