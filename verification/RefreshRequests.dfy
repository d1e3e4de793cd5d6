/** Requests for an asynchronous refresh, over whole runs of the refresh protocol. */
module RefreshRequests {
  import opened Options
  import opened RefreshProtocol

  /** How far a thread is from the start of a refresh. */
  function Distance(pc: ThreadPc): (d: nat)
    ensures 1 <= d <= 9
  {
    match pc
    case BodyLock => 1
    case TakeUnlock => 2
    case CheckRun => 3
    case CheckWait => 4
    case TakeLock => 5
    case Woken => 5
    case LoopHead => 6
    case Body => 7
    case Parked => 8
    case _ => 9
  }

  /** The thread is about to pass the test of xh_core.c:479. */
  predicate Passing(s: State) {
    Latest(s) == CheckRun && s.running
  }

  // ---------- one step ----------

  /** While a request is not served and nobody stops the thread, every step of the thread starts the refresh or
      brings it nearer. */
  lemma ThreadAdvances(s: State, s': State)
    requires Remembered(s) && Flags(s) && Unserved(s) && s.running && LatestGoes(s, s')
    ensures Unserved(s') ==> Distance(Latest(s')) < Distance(Latest(s))
  {
    hide Latest;
  }

  /** No step of a caller delays it. */
  lemma CallersDoNotDelay(s: State, s': State, pc: CallerPc, pc': CallerPc)
    requires Fits(s, pc) && LatestEffect(s, s', pc, pc')
    ensures Distance(Latest(s')) <= Distance(Latest(s))
  {
    hide Latest, EarlierJoined;
  }

  /** If the thread sleeps although a request is not served, the owner of the mutex wakes it with its next step. */
  lemma SomeoneWakes(s: State)
    requires Inv(s) && Unserved(s) && Latest(s) == Parked
    ensures s.mutex.Caller? && StepCaller(s, s.mutex.id, Going(s)).Some?
    ensures Latest(StepCaller(s, s.mutex.id, Going(s)).value) == Woken
  {
    hide Owners, OneThread;
  }

  /** What a step does to requests: a refresh starts after all earlier requests, and only if one has been taken; it is
      taken by passing the test; and from there the thread goes on to the refresh. */
  predicate Course(s: State, s': State) {
    && s'.clock >= s.clock && s'.asked >= s.asked
    && (s'.started == s.started || (s'.started > s.clock && Taken(s) && Latest(s') == Body))
    && (Taken(s') ==> Taken(s) || Passing(s))
    && (Taken(s) || Passing(s) ==> Taken(s') || Passing(s') || s'.started > s.clock)
  }

  lemma ThreadCourse(s: State, s': State)
    requires LatestGoes(s, s') && Remembered(s)
    ensures Course(s, s')
  {
    hide Latest;
  }

  lemma CallerCourse(s: State, s': State, pc: CallerPc, pc': CallerPc)
    requires Fits(s, pc) && Effects(s, s', pc) && LatestEffect(s, s', pc, pc') && Remembered(s)
    requires HoldsMutex(pc) ==> !ThreadHoldsMutex(Latest(s))
    ensures Course(s, s')
  {
    hide Latest, EarlierJoined, ThreadAt;
  }

  lemma StepCourse(s: State, s': State)
    requires Inv(s) && Next(s, s')
    ensures Course(s, s')
  {
    hide StepCaller, StepThread, Owners, NoLostWakeUp, Remembered, OneThread, Course, Effects, Comes, LatestEffect, LatestGoes, Fits;
    if t, c :| StepCaller(s, t, c) == Some(s') {
      CallerLatest(s, t, c);
      CallerCourse(s, s', Pc(s, t), Pc(s', t));
    } else {
      var k: nat, spurious :| k < |s.threads| && StepThread(s, k, spurious) == Some(s');
      ThreadLatest(s, k, spurious);
      ThreadCourse(s, s');
    }
  }

  lemma StepDistance(s: State, s': State)
    requires Inv(s) && Next(s, s') && Unserved(s) && s.running && Unserved(s')
    ensures Distance(Latest(s')) + (if ThreadStep(s, s') then 1 else 0) <= Distance(Latest(s))
  {
    hide StepCaller, StepThread, Owners, NoLostWakeUp, Remembered, Flags, Fits, LatestEffect, LatestGoes, Latest, Distance, Effects, Comes;
    if k: nat, spurious :| k < |s.threads| && StepThread(s, k, spurious) == Some(s') {
      ThreadLatest(s, k, spurious);
      ThreadAdvances(s, s');
    } else {
      var t, c :| StepCaller(s, t, c) == Some(s');
      CallerLatest(s, t, c);
      CallersDoNotDelay(s, s', Pc(s, t), Pc(s', t));
    }
  }

  // ---------- the thread is running ----------

  /** The steps of threads between two points of a run. */
  ghost function ThreadSteps(run: seq<State>, i: nat, j: nat): nat
    requires i <= j < |run|
  {
    if i == j then 0 else ThreadSteps(run, i, j - 1) + if ThreadStep(run[j - 1], run[j]) then 1 else 0
  }

  /** As long as a request is not served and nobody stops the thread, each step of the thread brings the refresh
      nearer, whatever the callers do in between. */
  lemma {:induction false} Nearer(run: seq<State>, i: nat, j: nat)
    requires IsCalmRun(run) && i <= j < |run|
    requires forall k :: i <= k <= j ==> Unserved(run[k]) && run[k].running
    ensures Distance(Latest(run[j])) + ThreadSteps(run, i, j) <= Distance(Latest(run[i]))
  {
    hide Inv, Calm, Next, ThreadStep, Latest, Distance, Unserved;
    if i < j {
      Nearer(run, i, j - 1);
      RunKeeps(run, j - 1);
      assert Next(run[j - 1], run[j - 1 + 1]);
      StepDistance(run[j - 1], run[j]);
    }
  }

  /** Time goes on, and a refresh that starts later starts after the requests before. */
  lemma {:induction false} Later(run: seq<State>, i: nat, j: nat)
    requires IsCalmRun(run) && i <= j < |run|
    ensures run[j].clock >= run[i].clock && run[j].asked >= run[i].asked
    ensures run[j].started == run[i].started || run[j].started > run[i].clock
  {
    hide Inv, Calm, Next, Taken, Passing;
    if i < j {
      Later(run, i, j - 1);
      RunKeeps(run, j - 1);
      assert Next(run[j - 1], run[j - 1 + 1]);
      StepCourse(run[j - 1], run[j]);
    }
  }

  /** A refresh body of the latest thread is in progress, with the refresh mutex, and it has started after time a. */
  predicate InBody(s: State, a: nat) {
    Latest(s) == Body && s.threads != [] && s.refresh == Thread(|s.threads| - 1) && s.started > a
  }

  lemma BodyHolds(s: State)
    requires Owners(s) && Latest(s) == Body
    ensures s.threads != [] && s.refresh == Thread(|s.threads| - 1)
  {
    assert ThreadAt(s, |s.threads| - 1) == Body <==> s.refresh == Thread(|s.threads| - 1);
    hide HoldsMutex, HoldsRefresh, ThreadHoldsMutex, Pc;
  }

  /** What is counted as a start is one: if a refresh has started since point i, a refresh body was in progress. */
  lemma {:induction false} StartedInBody(run: seq<State>, i: nat, j: nat, a: nat)
    requires IsCalmRun(run) && i <= j < |run| && run[i].started <= a < run[j].started
    ensures exists k :: i < k <= j && InBody(run[k], a)
  {
    hide Calm, Next, Taken, Passing, NoLostWakeUp, Remembered, OneThread, Owners, Latest;
    RunKeeps(run, j - 1);
    RunKeeps(run, j);
    assert Next(run[j - 1], run[j - 1 + 1]);
    StepCourse(run[j - 1], run[j]);
    if run[j - 1].started > a {
      StartedInBody(run, i, j - 1, a);
    } else {
      BodyHolds(run[j]);
      assert InBody(run[j], a);
    }
  }

  /** A request is followed by a refresh that starts after it within nine steps of the thread, if nobody stops it. */
  lemma ServedSoon(run: seq<State>, i: nat, j: nat)
    requires IsCalmRun(run) && i <= j < |run| && Unserved(run[i])
    requires (forall k :: i <= k <= j ==> run[k].running) && ThreadSteps(run, i, j) >= 9
    ensures exists k :: i < k <= j && InBody(run[k], run[i].asked)
  {
    hide IsCalmRun, Latest, ThreadSteps, InBody;
    RunKeeps(run, i);
    hide Owners, NoLostWakeUp, OneThread;
    if forall k :: i <= k <= j ==> run[k].started <= run[i].asked {
      forall k | i <= k <= j
        ensures Unserved(run[k])
      {
        Later(run, i, k);
      }
      Nearer(run, i, j);
      assert false;
    }
    var m :| i <= m <= j && run[m].started > run[i].asked;
    StartedInBody(run, i, m, run[i].asked);
  }

  // ---------- the thread is stopped ----------

  /** Whatever has been served or taken since point i has passed the test since then, or had passed it before. */
  lemma {:induction false} OnlyByPassing(run: seq<State>, i: nat, j: nat, a: nat)
    requires IsCalmRun(run) && i <= j < |run| && run[i].started <= a
    requires run[j].started > a || Taken(run[j])
    ensures Taken(run[i]) || exists k :: i <= k < j && Passing(run[k])
  {
    hide Inv, Calm, Next, Taken, Passing;
    if i < j {
      RunKeeps(run, j - 1);
      assert Next(run[j - 1], run[j - 1 + 1]);
      StepCourse(run[j - 1], run[j]);
      if run[j - 1].started > a || Taken(run[j - 1]) {
        OnlyByPassing(run, i, j - 1, a);
      } else {
        assert Passing(run[j - 1]);
      }
    }
  }

  /** Whoever has passed the test goes on to the refresh. */
  lemma {:induction false} PassedGoesOn(run: seq<State>, i: nat, j: nat)
    requires IsCalmRun(run) && i <= j < |run| && (Taken(run[i]) || Passing(run[i]))
    ensures run[j].started > run[i].clock || Taken(run[j]) || Passing(run[j])
  {
    hide Inv, Calm, Next, Taken, Passing;
    if i < j {
      PassedGoesOn(run, i, j - 1);
      Later(run, i, j - 1);
      RunKeeps(run, j - 1);
      assert Next(run[j - 1], run[j - 1 + 1]);
      StepCourse(run[j - 1], run[j]);
    }
  }

  /** When the thread has exited, a request made at point i or before has been followed by a refresh exactly if the
      thread had then been past the test for a stop, or came to it later with the flag still set. So the request before
      a clear is served unless the clear has cleared the flag before the thread is at that test. */
  lemma ServedBeforeExit(run: seq<State>, i: nat, j: nat)
    requires IsCalmRun(run) && i <= j < |run| && Unserved(run[i]) && !Alive(run[j])
    ensures (exists k :: i < k <= j && InBody(run[k], run[i].asked)) <==> Taken(run[i]) || exists k :: i <= k < j && Passing(run[k])
  {
    StartedExactly(run, i, j);
    hide IsCalmRun, Latest;
    RunKeeps(run, i);
    hide Owners, NoLostWakeUp, OneThread;
    if run[j].started > run[i].asked {
      StartedInBody(run, i, j, run[i].asked);
    }
    if k :| i < k <= j && InBody(run[k], run[i].asked) {
      Kept(run, i, k, j);
    }
  }

  /** What has started stays counted. */
  lemma {:induction false} Kept(run: seq<State>, i: nat, k: nat, j: nat)
    requires IsCalmRun(run) && i <= k <= j < |run| && run[k].started > run[i].asked
    ensures run[j].started > run[i].asked
  {
    hide Inv, Calm, Next, Taken, Passing, Latest;
    if k < j {
      Kept(run, i, k, j - 1);
      RunKeeps(run, j - 1);
      assert Next(run[j - 1], run[j - 1 + 1]);
      StepCourse(run[j - 1], run[j]);
      Counted(run[j - 1]);
    }
  }

  lemma Counted(s: State)
    requires Inv(s)
    ensures s.started <= s.clock
  {
    hide Owners, NoLostWakeUp, OneThread;
  }

  lemma StartedExactly(run: seq<State>, i: nat, j: nat)
    requires IsCalmRun(run) && i <= j < |run| && Unserved(run[i]) && !Alive(run[j])
    ensures run[j].started > run[i].asked <==> Taken(run[i]) || exists k :: i <= k < j && Passing(run[k])
  {
    hide IsCalmRun, Latest;
    RunKeeps(run, i);
    hide Owners, NoLostWakeUp, OneThread;
    if run[j].started > run[i].asked {
      OnlyByPassing(run, i, j, run[i].asked);
    }
    if Taken(run[i]) {
      PassedGoesOn(run, i, j);
    } else if k :| i <= k < j && Passing(run[k]) {
      Later(run, i, k);
      PassedGoesOn(run, k, j);
    }
  }

  /** A request that is dropped in this way is still flagged, for the next thread. */
  lemma LeftForTheNextThread(run: seq<State>, i: nat)
    requires IsCalmRun(run) && i < |run| && Unserved(run[i]) && !Alive(run[i])
    ensures run[i].want
  {
    hide IsCalmRun, Latest;
    RunKeeps(run, i);
    hide Owners, NoLostWakeUp, OneThread;
  }
}
