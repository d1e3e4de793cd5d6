/** What a call of the refresh functions has done when it returns. */
module RefreshCalls {
  import opened Options
  import opened RefreshProtocol

  lemma ThreadsLeave(s: State, s': State, t: nat)
    requires ThreadStep(s, s')
    ensures Pc(s', t) == Pc(s, t)
  {
    hide StepThread;
  }

  lemma OthersLeave(s: State, s': State, t: nat, v: nat, c: Choice)
    requires StepCaller(s, v, c) == Some(s') && v != t
    ensures Pc(s', t) == Pc(s, t)
  {
    hide StepCaller;
  }

  /** Whoever is somewhere else after a step has made it. */
  lemma Onward(s: State, s': State, t: nat) returns (c: Choice)
    requires Next(s, s') && Pc(s', t) != Pc(s, t)
    ensures StepCaller(s, t, c) == Some(s')
  {
    hide StepCaller, ThreadStep, Pc;
    if ThreadStep(s, s') {
      ThreadsLeave(s, s', t);
      assert false;
    }
    var v, d :| StepCaller(s, v, d) == Some(s');
    if v != t {
      OthersLeave(s, s', t, v, d);
      assert false;
    }
    c := d;
  }

  // ---------- a synchronous refresh ----------

  lemma SyncStep(s: State, s': State, t: nat)
    requires Next(s, s') && Pc(s, t) == Sync(LockSync)
    ensures Pc(s', t) == Sync(LockSync) || (Pc(s', t) == Sync(SyncBody) && s'.refresh == Caller(t))
  {
    if Pc(s', t) != Pc(s, t) {
      hide Next;
      var c := Onward(s, s', t);
    }
  }

  lemma {:induction false} SyncOnWay(run: seq<State>, i: nat, j: nat, t: nat)
    requires IsRun(run) && i <= j < |run| && Pc(run[i], t) == Sync(LockSync)
    ensures Pc(run[j], t) == Sync(LockSync) || exists k :: i < k <= j && Pc(run[k], t) == Sync(SyncBody) && run[k].refresh == Caller(t)
  {
    hide Next, Pc;
    if i < j {
      SyncOnWay(run, i, j - 1, t);
      assert Next(run[j - 1], run[j - 1 + 1]);
      if Pc(run[j - 1], t) == Sync(LockSync) {
        SyncStep(run[j - 1], run[j], t);
      }
    }
  }

  /** A synchronous call that has returned has refreshed in between, with the refresh mutex. */
  lemma SyncRefreshes(run: seq<State>, i: nat, j: nat, t: nat)
    requires IsRun(run) && i <= j < |run| && Pc(run[i], t) == Sync(LockSync) && Pc(run[j], t) == Idle
    ensures exists k :: i < k < j && Pc(run[k], t) == Sync(SyncBody) && run[k].refresh == Caller(t)
  {
    hide IsRun, Pc;
    SyncOnWay(run, i, j, t);
  }

  // ---------- an asynchronous request ----------

  /** Before the request is flagged. */
  predicate Asking(pc: CallerPc) {
    pc.Init? || (pc.Post? && pc.post in {AskOk, LockPost, SetWant})
  }

  /** The request of t has just been flagged, under the mutex. */
  predicate JustAsked(s: State, t: nat) {
    Pc(s, t) == Post(SignalWant) && s.want && s.asked == s.clock
  }

  lemma AskStep(s: State, s': State, t: nat)
    requires Next(s, s') && Asking(Pc(s, t))
    ensures Asking(Pc(s', t)) || (JustAsked(s', t) && s'.asked > s.clock) || (Pc(s, t) == Post(AskOk) && !s.ok && Pc(s', t) == Idle)
  {
    if Pc(s', t) != Pc(s, t) {
      hide Next;
      var c := Onward(s, s', t);
      AskGoes(s, t, c);
    }
  }

  lemma AskGoes(s: State, t: nat, c: Choice)
    requires StepCaller(s, t, c).Some? && Asking(Pc(s, t))
    ensures var s' := StepCaller(s, t, c).value;
      || Asking(Pc(s', t)) || (JustAsked(s', t) && s'.asked > s.clock) || (Pc(s, t) == Post(AskOk) && !s.ok && Pc(s', t) == Idle)
  {
    match Pc(s, t)
    case Init(pc) => AskInit(s, t, pc, c);
    case Post(pc) =>
  }

  lemma AskInit(s: State, t: nat, pc: InitPc, c: Choice)
    requires Pc(s, t) == Init(pc) && StepInit(s, t, pc, c).Some?
    ensures Asking(Pc(StepInit(s, t, pc, c).value, t))
  {
  }

  lemma ClockStep(s: State, s': State)
    requires Next(s, s')
    ensures s'.clock >= s.clock
  {
    hide StepCaller, StepThread;
    if v, d :| StepCaller(s, v, d) == Some(s') {
      StepDoes(s, v, d);
      hide ThreadEffect, Comes;
    } else {
      var k: nat, spurious :| k < |s.threads| && StepThread(s, k, spurious) == Some(s');
      ThreadClock(s, k, spurious);
    }
  }

  lemma ThreadClock(s: State, k: nat, spurious: bool)
    requires k < |s.threads| && StepThread(s, k, spurious).Some?
    ensures StepThread(s, k, spurious).value.clock >= s.clock
  {
  }

  ghost predicate Answered(run: seq<State>, i: nat, j: nat, t: nat)
    requires i <= j < |run|
  {
    || (exists k :: i < k <= j && JustAsked(run[k], t) && run[k].asked > run[i].clock)
    || (exists k :: i <= k <= j && Pc(run[k], t) == Post(AskOk) && !run[k].ok)
  }

  lemma {:induction false} AskOnWay(run: seq<State>, i: nat, j: nat, t: nat)
    requires IsRun(run) && i <= j < |run| && Asking(Pc(run[i], t))
    ensures run[j].clock >= run[i].clock && (Asking(Pc(run[j], t)) || Answered(run, i, j, t))
  {
    hide Next, Pc, Asking, JustAsked;
    if i < j {
      AskOnWay(run, i, j - 1, t);
      assert Next(run[j - 1], run[j - 1 + 1]);
      ClockStep(run[j - 1], run[j]);
      if Asking(Pc(run[j - 1], t)) {
        AskStep(run[j - 1], run[j], t);
      }
    }
  }

  /** An asynchronous call that has returned has flagged a new request, or has found that there is no thread. */
  lemma AsyncAsks(run: seq<State>, i: nat, j: nat, t: nat)
    requires IsRun(run) && i <= j < |run| && Pc(run[i], t) == Init(AskInited) && Pc(run[j], t) == Idle
    ensures Answered(run, i, j, t)
  {
    assert Asking(Pc(run[i], t)) && !Asking(Pc(run[j], t));
    hide IsRun, Pc, Answered;
    AskOnWay(run, i, j, t);
  }

  // ---------- a clear ----------

  predicate Clearing(pc: CallerPc) {
    pc.Stop? || pc.Join?
  }

  /** Caller t has reset the flag, and goes on to free the tables. */
  predicate HasReset(s: State, t: nat) {
    Pc(s, t) == Wipe(LockWipe) && !s.inited
  }

  predicate BeforeWipe(pc: CallerPc) {
    pc == Wipe(LockWipe) || pc == Wipe(LockRefresh)
  }

  /** Caller t frees the tables. */
  predicate Wiping(s: State, t: nat) {
    Pc(s, t) == Wipe(UnlockRefresh) && s.mutex == Caller(t) && s.refresh == Caller(t)
  }

  lemma ClearGoes(s: State, t: nat, c: Choice)
    requires StepCaller(s, t, c).Some? && Clearing(Pc(s, t))
    ensures var s' := StepCaller(s, t, c).value; Clearing(Pc(s', t)) || (HasReset(s', t) && Pc(s, t) == Join(ClearInited))
  {
    match Pc(s, t)
    case Stop(pc) => StopGoes(s, t, pc, c);
    case Join(pc) => JoinGoes(s, t, pc);
  }

  lemma StopGoes(s: State, t: nat, pc: StopPc, c: Choice)
    requires Pc(s, t) == Stop(pc) && StepStop(s, t, pc, c).Some?
    ensures Clearing(Pc(StepStop(s, t, pc, c).value, t))
  {
    hide NoneParked;
  }

  lemma JoinGoes(s: State, t: nat, pc: JoinPc)
    requires Pc(s, t) == Join(pc) && StepJoin(s, t, pc).Some?
    ensures var s' := StepJoin(s, t, pc).value; Clearing(Pc(s', t)) || (HasReset(s', t) && pc == ClearInited)
  {
    hide ThreadAt;
  }

  lemma ClearStep(s: State, s': State, t: nat)
    requires Next(s, s') && Clearing(Pc(s, t))
    ensures Clearing(Pc(s', t)) || (HasReset(s', t) && Pc(s, t) == Join(ClearInited) && s'.ok == s.ok && s'.threads == s.threads)
  {
    if Pc(s', t) != Pc(s, t) {
      hide Next;
      var c := Onward(s, s', t);
      ClearGoes(s, t, c);
      if Pc(s, t) == Join(ClearInited) {
        assert StepCaller(s, t, c) == StepJoin(s, t, ClearInited);
      }
    }
  }

  lemma WipeStep(s: State, s': State, t: nat)
    requires Next(s, s') && BeforeWipe(Pc(s, t)) && Owners(s)
    ensures BeforeWipe(Pc(s', t)) || Wiping(s', t)
  {
    if Pc(s', t) != Pc(s, t) {
      hide Next;
      var c := Onward(s, s', t);
      OwnerIs(s, t);
      hide Owners;
    }
  }

  /** At point k caller t has just reset the flag. */
  ghost predicate ResetAt(run: seq<State>, k: nat, t: nat) {
    && 0 < k < |run| && Pc(run[k - 1], t) == Join(ClearInited) && HasReset(run[k], t)
    && run[k].ok == run[k - 1].ok && run[k].threads == run[k - 1].threads
  }

  lemma {:induction false} ClearOnWay(run: seq<State>, i: nat, j: nat, t: nat)
    requires IsRun(run) && i <= j < |run| && Clearing(Pc(run[i], t))
    ensures Clearing(Pc(run[j], t)) || exists k :: i < k <= j && ResetAt(run, k, t)
  {
    hide Next, Pc, Clearing, HasReset;
    if i < j {
      ClearOnWay(run, i, j - 1, t);
      assert Next(run[j - 1], run[j - 1 + 1]);
      if Clearing(Pc(run[j - 1], t)) {
        ClearStep(run[j - 1], run[j], t);
        assert Clearing(Pc(run[j], t)) || ResetAt(run, j, t);
      }
    }
  }

  lemma {:induction false} WipeOnWay(run: seq<State>, i: nat, j: nat, t: nat)
    requires IsRun(run) && i <= j < |run| && BeforeWipe(Pc(run[i], t))
    ensures BeforeWipe(Pc(run[j], t)) || exists k :: i < k <= j && Wiping(run[k], t)
  {
    hide Next, Pc, BeforeWipe, Wiping, Owners;
    if i < j {
      WipeOnWay(run, i, j - 1, t);
      assert Next(run[j - 1], run[j - 1 + 1]);
      if BeforeWipe(Pc(run[j - 1], t)) {
        RunOwners(run, j - 1);
        WipeStep(run[j - 1], run[j], t);
      }
    }
  }

  /** A clear that has returned has first reset the flag and then freed the tables, with both mutexes. */
  lemma ClearWipes(run: seq<State>, i: nat, j: nat, t: nat) returns (k: nat, m: nat)
    requires IsRun(run) && i <= j < |run| && Pc(run[i], t) == Stop(AskStop) && Pc(run[j], t) == Idle
    ensures i < k < m < j && ResetAt(run, k, t) && Wiping(run[m], t)
  {
    assert Clearing(Pc(run[i], t)) && !Clearing(Pc(run[j], t)) && !BeforeWipe(Pc(run[j], t)) && !Wiping(run[j], t);
    hide IsRun, Pc, Clearing, BeforeWipe, Wiping, ResetAt;
    ClearOnWay(run, i, j, t);
    k :| i < k <= j && ResetAt(run, k, t);
    AtWipe(run, k, t);
    WipeOnWay(run, k, j, t);
    m :| k < m <= j && Wiping(run[m], t);
  }

  lemma AtWipe(run: seq<State>, k: nat, t: nat)
    requires ResetAt(run, k, t)
    ensures BeforeWipe(Pc(run[k], t)) && Pc(run[k], t) != Idle
  {
  }

  /** Over a calm run a clear that has returned has also seen that no thread is left, so that the next asynchronous
      refresh starts from the beginning. */
  lemma ClearResets(run: seq<State>, i: nat, j: nat, t: nat) returns (k: nat)
    requires IsCalmRun(run) && i <= j < |run| && Pc(run[i], t) == Stop(AskStop) && Pc(run[j], t) == Idle
    ensures i < k < j && !run[k].inited && !run[k].ok && !Alive(run[k])
  {
    hide Pc, Owners, NoLostWakeUp, Remembered;
    var m;
    k, m := ClearWipes(run, i, j, t);
    RunKeeps(run, k - 1);
    assert Fits(run[k - 1], Pc(run[k - 1], t));
  }
}
