/** The callers of the refresh functions and the refresh threads, as a state machine: one step for each access to the
    shared flags, the two mutexes and the condition variable. */
module RefreshProtocol {
  import opened Options

  datatype Owner = Free | Caller(id: nat) | Thread(id: nat)

  /** Where a caller is; the name tells what comes next. Init is xh_core_init_async_once, Post the request of an
      asynchronous refresh, Sync a synchronous one, Stop, Join and Wipe the parts of xh_core_clear. */
  datatype CallerPc =
    | Idle | Init(init: InitPc) | Post(post: PostPc) | Sync(sync: SyncPc) | Stop(stop: StopPc) | Join(join: JoinPc)
    | Wipe(wipe: WipePc)

  datatype InitPc = AskInited | LockInit | AskAgain | SetRunning | Create | CreateFailed | SetOk | UnlockInit

  datatype PostPc = AskOk | LockPost | SetWant | SignalWant | UnlockPost

  datatype SyncPc = LockSync | SyncBody

  datatype StopPc = AskStop | LockStop | ClearRunning | SignalStop | UnlockStop

  datatype JoinPc = AskThread | Await(thread: nat) | ClearOk | ClearInited

  datatype WipePc = LockWipe | LockRefresh | UnlockRefresh | UnlockWipe

  /** Where a refresh thread is. Parked is inside pthread_cond_wait; Woken has to get the mutex back. */
  datatype ThreadPc =
    | LoopHead | TakeLock | CheckWait | Parked | Woken | CheckRun | ExitUnlock | TakeUnlock | BodyLock | Body | Exited | Joined

  /** What is decided outside: which operation a caller starts, whether pthread_create succeeds, and which of the waiting
      threads a signal wakes. */
  datatype Choice = StartAsync | StartSync | StartClear | Succeed | Fail | Wake(thread: nat)

  /** The shared state; want is xh_core_refresh_thread_do. The threads are listed as they were created: the last one is
      xh_core_refresh_thread_tid. A join is bad if there is no thread, or if it has been joined before. The clock counts
      requests and refresh starts of the threads, asked and started are the times of the latest ones. */
  datatype State = State(mutex: Owner, refresh: Owner, want: bool, running: bool, inited: bool, ok: bool,
                         threads: seq<ThreadPc>, callers: map<nat, CallerPc>, badJoin: bool,
                         clock: nat, asked: nat, started: nat)

  const INIT := State(Free, Free, false, false, false, false, [], map[], false, 0, 0, 0)

  function Pc(s: State, t: nat): CallerPc {
    if t in s.callers then s.callers[t] else Idle
  }

  function Goto(s: State, t: nat, pc: CallerPc): State {
    s.(callers := s.callers[t := pc])
  }

  function ThreadAt(s: State, k: nat): ThreadPc {
    if k < |s.threads| then s.threads[k] else Joined
  }

  /** The thread that was created last. */
  function Latest(s: State): ThreadPc {
    if s.threads == [] then Joined else s.threads[|s.threads| - 1]
  }

  predicate Alive(s: State) {
    Latest(s) != Exited && Latest(s) != Joined
  }

  predicate NoneParked(threads: seq<ThreadPc>) {
    forall k :: 0 <= k < |threads| ==> threads[k] != Parked
  }

  /** pthread_cond_signal wakes one of the waiting threads, if there is any. */
  function Signalled(s: State, c: Choice): Option<State> {
    if NoneParked(s.threads) then Some(s)
    else if c.Wake? && ThreadAt(s, c.thread) == Parked then Some(s.(threads := s.threads[c.thread := Woken]))
    else None
  }

  function Locked(s: State, t: nat, pc: CallerPc): Option<State> {
    if s.mutex == Free then Some(Goto(s, t, pc).(mutex := Caller(t))) else None
  }

  function StepIdle(s: State, t: nat, c: Choice): (r: Option<State>)
    ensures r.Some? ==> r.value.callers == s.callers[t := Pc(r.value, t)]
  {
    match c
    case StartAsync => Some(Goto(s, t, Init(AskInited)))
    case StartSync => Some(Goto(s, t, Sync(LockSync)))
    case StartClear => Some(Goto(s, t, Stop(AskStop)))
    case _ => None
  }

  function StepInit(s: State, t: nat, pc: InitPc, c: Choice): (r: Option<State>)
    ensures r.Some? ==> r.value.callers == s.callers[t := Pc(r.value, t)]
  {
    match pc
    case AskInited => Some(Goto(s, t, if s.inited then Post(AskOk) else Init(LockInit)))
    case LockInit => Locked(s, t, Init(AskAgain))
    case AskAgain => Some(if s.inited then Goto(s, t, Init(UnlockInit)) else Goto(s, t, Init(SetRunning)).(inited := true))
    case SetRunning => Some(Goto(s, t, Init(Create)).(running := true))
    case Create =>
      if c == Fail then Some(Goto(s, t, Init(CreateFailed)))
      else Some(Goto(s, t, Init(SetOk)).(threads := s.threads + [LoopHead]))
    case CreateFailed => Some(Goto(s, t, Init(UnlockInit)).(running := false))
    case SetOk => Some(Goto(s, t, Init(UnlockInit)).(ok := true))
    case UnlockInit => Some(Goto(s, t, Post(AskOk)).(mutex := Free))
  }

  function StepPost(s: State, t: nat, pc: PostPc, c: Choice): (r: Option<State>)
    ensures r.Some? ==> r.value.callers == s.callers[t := Pc(r.value, t)]
  {
    match pc
    case AskOk => Some(Goto(s, t, if s.ok then Post(LockPost) else Idle))
    case LockPost => Locked(s, t, Post(SetWant))
    case SetWant => Some(Goto(s, t, Post(SignalWant)).(want := true, clock := s.clock + 1, asked := s.clock + 1))
    case SignalWant => Signalled(Goto(s, t, Post(UnlockPost)), c)
    case UnlockPost => Some(Goto(s, t, Idle).(mutex := Free))
  }

  function StepSync(s: State, t: nat, pc: SyncPc): (r: Option<State>)
    ensures r.Some? ==> r.value.callers == s.callers[t := Pc(r.value, t)]
  {
    match pc
    case LockSync => if s.refresh == Free then Some(Goto(s, t, Sync(SyncBody)).(refresh := Caller(t))) else None
    case SyncBody => Some(Goto(s, t, Idle).(refresh := Free))
  }

  function StepStop(s: State, t: nat, pc: StopPc, c: Choice): (r: Option<State>)
    ensures r.Some? ==> r.value.callers == s.callers[t := Pc(r.value, t)]
  {
    match pc
    case AskStop => Some(Goto(s, t, if s.ok then Stop(LockStop) else Join(ClearInited)))
    case LockStop => Locked(s, t, Stop(ClearRunning))
    case ClearRunning => Some(Goto(s, t, Stop(SignalStop)).(running := false))
    case SignalStop => Signalled(Goto(s, t, Stop(UnlockStop)), c)
    case UnlockStop => Some(Goto(s, t, Join(AskThread)).(mutex := Free))
  }

  function StepJoin(s: State, t: nat, pc: JoinPc): (r: Option<State>)
    ensures r.Some? ==> r.value.callers == s.callers[t := Pc(r.value, t)]
  {
    match pc
    case AskThread =>
      if s.threads == [] then Some(Goto(s, t, Join(ClearOk)).(badJoin := true))
      else Some(Goto(s, t, Join(Await(|s.threads| - 1))))
    case Await(k) =>
      if ThreadAt(s, k) == Joined then Some(Goto(s, t, Join(ClearOk)).(badJoin := true))
      else if s.threads[k] == Exited then Some(Goto(s, t, Join(ClearOk)).(threads := s.threads[k := Joined]))
      else None
    case ClearOk => Some(Goto(s, t, Join(ClearInited)).(ok := false))
    case ClearInited => Some(Goto(s, t, Wipe(LockWipe)).(inited := false))
  }

  function StepWipe(s: State, t: nat, pc: WipePc): (r: Option<State>)
    ensures r.Some? ==> r.value.callers == s.callers[t := Pc(r.value, t)]
  {
    match pc
    case LockWipe => Locked(s, t, Wipe(LockRefresh))
    case LockRefresh => if s.refresh == Free then Some(Goto(s, t, Wipe(UnlockRefresh)).(refresh := Caller(t))) else None
    case UnlockRefresh => Some(Goto(s, t, Wipe(UnlockWipe)).(refresh := Free))
    case UnlockWipe => Some(Goto(s, t, Idle).(mutex := Free))
  }

  /** One step of caller t; none if it has to wait. */
  function StepCaller(s: State, t: nat, c: Choice): (r: Option<State>)
    ensures r.Some? ==> r.value.callers == s.callers[t := Pc(r.value, t)]
  {
    match Pc(s, t)
    case Idle => StepIdle(s, t, c)
    case Init(pc) => StepInit(s, t, pc, c)
    case Post(pc) => StepPost(s, t, pc, c)
    case Sync(pc) => StepSync(s, t, pc)
    case Stop(pc) => StepStop(s, t, pc, c)
    case Join(pc) => StepJoin(s, t, pc)
    case Wipe(pc) => StepWipe(s, t, pc)
  }

  function ThreadGoto(s: State, k: nat, pc: ThreadPc): State
    requires k < |s.threads|
  {
    s.(threads := s.threads[k := pc])
  }

  /** The head of the loop and the wait for a request. */
  function StepWait(s: State, k: nat, pc: ThreadPc, spurious: bool): (r: Option<State>)
    requires k < |s.threads|
    ensures r.Some? ==> r.value.callers == s.callers
  {
    match pc
    case LoopHead => Some(ThreadGoto(s, k, if s.running then TakeLock else Exited))
    case TakeLock => if s.mutex == Free then Some(ThreadGoto(s, k, CheckWait).(mutex := Thread(k))) else None
    case CheckWait =>
      if !s.want && s.running then Some(ThreadGoto(s, k, Parked).(mutex := Free)) else Some(ThreadGoto(s, k, CheckRun))
    case Parked => if spurious then Some(ThreadGoto(s, k, Woken)) else None
    case Woken => if s.mutex == Free then Some(ThreadGoto(s, k, CheckWait).(mutex := Thread(k))) else None
    case _ => None
  }

  /** The request is taken, and the refresh done. */
  function StepTake(s: State, k: nat, pc: ThreadPc): (r: Option<State>)
    requires k < |s.threads|
    ensures r.Some? ==> r.value.callers == s.callers
  {
    match pc
    case CheckRun =>
      if s.running then Some(ThreadGoto(s, k, TakeUnlock).(want := false)) else Some(ThreadGoto(s, k, ExitUnlock))
    case ExitUnlock => Some(ThreadGoto(s, k, Exited).(mutex := Free))
    case TakeUnlock => Some(ThreadGoto(s, k, BodyLock).(mutex := Free))
    case BodyLock =>
      if s.refresh == Free
      then Some(ThreadGoto(s, k, Body).(refresh := Thread(k), clock := s.clock + 1, started := s.clock + 1))
      else None
    case Body => Some(ThreadGoto(s, k, LoopHead).(refresh := Free))
    case _ => None
  }

  predicate Waits(pc: ThreadPc) {
    pc == LoopHead || pc == TakeLock || pc == CheckWait || pc == Parked || pc == Woken
  }

  /** One step of refresh thread k; spurious says that a wait may end by itself. */
  function StepThread(s: State, k: nat, spurious: bool): (r: Option<State>)
    requires k < |s.threads|
    ensures r.Some? ==> r.value.callers == s.callers
  {
    var pc := s.threads[k];
    if Waits(pc) then StepWait(s, k, pc, spurious) else StepTake(s, k, pc)
  }

  ghost predicate CallerStep(s: State, s': State) {
    exists t, c :: StepCaller(s, t, c) == Some(s')
  }

  ghost predicate ThreadStep(s: State, s': State) {
    exists k: nat, spurious :: k < |s.threads| && StepThread(s, k, spurious) == Some(s')
  }

  ghost predicate Next(s: State, s': State) {
    CallerStep(s, s') || ThreadStep(s, s')
  }

  ghost predicate IsRun(run: seq<State>) {
    run != [] && run[0] == INIT && forall i :: 0 <= i < |run| - 1 ==> Next(run[i], run[i + 1])
  }

  // ---------- the mutexes ----------

  predicate HoldsMutex(pc: CallerPc) {
    match pc
    case Idle => false
    case Init(i) => i != AskInited && i != LockInit
    case Post(p) => p != AskOk && p != LockPost
    case Sync(_) => false
    case Stop(c) => c != AskStop && c != LockStop
    case Join(_) => false
    case Wipe(w) => w != LockWipe
  }

  predicate HoldsRefresh(pc: CallerPc) {
    pc == Sync(SyncBody) || pc == Wipe(UnlockRefresh)
  }

  predicate ThreadHoldsMutex(pc: ThreadPc) {
    pc == CheckWait || pc == CheckRun || pc == ExitUnlock || pc == TakeUnlock
  }

  /** Each mutex belongs to the caller or the thread whose position says so. */
  ghost predicate Owners(s: State) {
    && (forall t :: HoldsMutex(Pc(s, t)) <==> s.mutex == Caller(t))
    && (forall k :: ThreadHoldsMutex(ThreadAt(s, k)) <==> s.mutex == Thread(k))
    && (forall t :: HoldsRefresh(Pc(s, t)) <==> s.refresh == Caller(t))
    && (forall k :: ThreadAt(s, k) == Body <==> s.refresh == Thread(k))
  }

  /** A signal, a creation and a join leave every thread outside the mutexes or inside, as it was. */
  predicate SameGrip(a: ThreadPc, b: ThreadPc) {
    ThreadHoldsMutex(a) == ThreadHoldsMutex(b) && (a == Body <==> b == Body)
  }

  ghost predicate SameGrips(s: State, s': State) {
    forall k :: SameGrip(ThreadAt(s, k), ThreadAt(s', k))
  }

  /** What a step of caller t may do to the mutexes: take a free one, give back its own. */
  predicate Moves(s: State, s': State, t: nat) {
    var (before, after) := (Pc(s, t), Pc(s', t));
    && (HoldsMutex(after) && !HoldsMutex(before) ==> s.mutex == Free)
    && s'.mutex == (if HoldsMutex(after) then Caller(t) else if HoldsMutex(before) then Free else s.mutex)
    && (HoldsRefresh(after) && !HoldsRefresh(before) ==> s.refresh == Free)
    && s'.refresh == (if HoldsRefresh(after) then Caller(t) else if HoldsRefresh(before) then Free else s.refresh)
  }

  lemma OwnersMove(s: State, s': State, t: nat)
    requires Owners(s) && s'.callers == s.callers[t := Pc(s', t)] && Moves(s, s', t) && SameGrips(s, s')
    ensures Owners(s')
  {
    assert forall u :: u != t ==> Pc(s', u) == Pc(s, u);
    assert forall k :: SameGrip(ThreadAt(s, k), ThreadAt(s', k));
    hide HoldsMutex, HoldsRefresh, ThreadHoldsMutex, Pc, ThreadAt;
  }

  lemma OwnerIs(s: State, t: nat)
    requires Owners(s)
    ensures HoldsMutex(Pc(s, t)) ==> s.mutex == Caller(t)
    ensures HoldsRefresh(Pc(s, t)) ==> s.refresh == Caller(t)
  {
    hide HoldsMutex, HoldsRefresh, Pc;
  }

  /** Every step of a caller moves like that. */
  lemma StepMoves(s: State, t: nat, c: Choice)
    requires StepCaller(s, t, c).Some?
    requires HoldsMutex(Pc(s, t)) ==> s.mutex == Caller(t)
    requires HoldsRefresh(Pc(s, t)) ==> s.refresh == Caller(t)
    ensures Moves(s, StepCaller(s, t, c).value, t)
  {
    hide Moves, HoldsMutex, HoldsRefresh;
    match Pc(s, t)
    case Idle => MovesIdle(s, t, c);
    case Init(pc) => MovesInit(s, t, pc, c);
    case Post(pc) => MovesPost(s, t, pc, c);
    case Sync(pc) => MovesSync(s, t, pc);
    case Stop(pc) => MovesStop(s, t, pc, c);
    case Join(pc) => MovesJoin(s, t, pc);
    case Wipe(pc) => MovesWipe(s, t, pc);
  }

  lemma MovesIdle(s: State, t: nat, c: Choice)
    requires Pc(s, t) == Idle && StepIdle(s, t, c).Some?
    ensures Moves(s, StepIdle(s, t, c).value, t)
  {
  }

  lemma MovesSync(s: State, t: nat, pc: SyncPc)
    requires Pc(s, t) == Sync(pc) && StepSync(s, t, pc).Some?
    requires HoldsRefresh(Sync(pc)) ==> s.refresh == Caller(t)
    ensures Moves(s, StepSync(s, t, pc).value, t)
  {
  }

  lemma MovesWipe(s: State, t: nat, pc: WipePc)
    requires Pc(s, t) == Wipe(pc) && StepWipe(s, t, pc).Some?
    requires HoldsMutex(Wipe(pc)) ==> s.mutex == Caller(t)
    requires HoldsRefresh(Wipe(pc)) ==> s.refresh == Caller(t)
    ensures Moves(s, StepWipe(s, t, pc).value, t)
  {
  }

  lemma MovesInit(s: State, t: nat, pc: InitPc, c: Choice)
    requires Pc(s, t) == Init(pc) && StepInit(s, t, pc, c).Some?
    requires HoldsMutex(Init(pc)) ==> s.mutex == Caller(t)
    ensures Moves(s, StepInit(s, t, pc, c).value, t)
  {
  }

  lemma MovesPost(s: State, t: nat, pc: PostPc, c: Choice)
    requires Pc(s, t) == Post(pc) && StepPost(s, t, pc, c).Some?
    requires HoldsMutex(Post(pc)) ==> s.mutex == Caller(t)
    ensures Moves(s, StepPost(s, t, pc, c).value, t)
  {
    hide NoneParked;
  }

  lemma MovesJoin(s: State, t: nat, pc: JoinPc)
    requires Pc(s, t) == Join(pc) && StepJoin(s, t, pc).Some?
    ensures Moves(s, StepJoin(s, t, pc).value, t)
  {
    hide ThreadAt;
  }

  lemma MovesStop(s: State, t: nat, pc: StopPc, c: Choice)
    requires Pc(s, t) == Stop(pc) && StepStop(s, t, pc, c).Some?
    requires HoldsMutex(Stop(pc)) ==> s.mutex == Caller(t)
    ensures Moves(s, StepStop(s, t, pc, c).value, t)
  {
    hide NoneParked;
  }

  // ---------- what a step does to the flags ----------

  ghost predicate Woke(a: seq<ThreadPc>, b: seq<ThreadPc>) {
    if NoneParked(a) then b == a
    else exists k :: 0 <= k < |a| && a[k] == Parked && b == a[k := Woken]
  }

  /** What a step of caller t, from pc to pc', does to the threads. */
  ghost predicate ThreadEffect(a: seq<ThreadPc>, b: seq<ThreadPc>, pc: CallerPc, pc': CallerPc) {
    if pc == Init(Create) && pc' == Init(SetOk) then b == a + [LoopHead]
    else if pc == Post(SignalWant) || pc == Stop(SignalStop) then Woke(a, b)
    else if pc.Join? && pc.join.Await? && pc.join.thread < |a| && a[pc.join.thread] == Exited then b == a[pc.join.thread := Joined]
    else b == a
  }

  /** What such a step does to the flags, to the clock, and to joins. */
  predicate Effects(s: State, s': State, pc: CallerPc) {
    && s'.want == (s.want || pc == Post(SetWant))
    && s'.running == (pc == Init(SetRunning) || (s.running && pc != Init(CreateFailed) && pc != Stop(ClearRunning)))
    && s'.inited == (pc == Init(AskAgain) || (s.inited && pc != Join(ClearInited)))
    && s'.ok == (pc == Init(SetOk) || (s.ok && pc != Join(ClearOk)))
    && s'.badJoin == (s.badJoin || (pc == Join(AskThread) && s.threads == [])
                      || (pc.Join? && pc.join.Await? && ThreadAt(s, pc.join.thread) == Joined))
    && s'.started == s.started
    && (if pc == Post(SetWant) then s'.clock == s'.asked == s.clock + 1 else s'.clock == s.clock && s'.asked == s.asked)
  }

  /** Where a caller comes from, and what it has just seen. */
  predicate Comes(s: State, pc: CallerPc, pc': CallerPc) {
    && (pc == Post(SetWant) <==> pc' == Post(SignalWant))
    && (pc.Join? && pc.join.Await? ==> pc' == Join(ClearOk))
    && match pc'
       case Init(SetRunning) => pc == Init(AskAgain) && !s.inited
       case Init(Create) => pc == Init(SetRunning)
       case Init(CreateFailed) => pc == Init(Create)
       case Init(SetOk) => pc == Init(Create)
       case Stop(LockStop) => pc == Stop(AskStop) && s.ok
       case Stop(ClearRunning) => pc == Stop(LockStop)
       case Stop(SignalStop) => pc == Stop(ClearRunning)
       case Stop(UnlockStop) => pc == Stop(SignalStop)
       case Join(AskThread) => pc == Stop(UnlockStop)
       case Join(Await(k)) => pc == Join(AskThread) && k == |s.threads| - 1
       case Join(ClearOk) => (pc == Join(AskThread) && s.threads == []) || JoinsAt(s, pc)
       case Join(ClearInited) => pc == Join(ClearOk) || (pc == Stop(AskStop) && !s.ok)
       case _ => pc != Stop(ClearRunning)
  }

  predicate JoinsAt(s: State, pc: CallerPc) {
    pc.Join? && pc.join.Await? && (ThreadAt(s, pc.join.thread) == Joined || ThreadAt(s, pc.join.thread) == Exited)
  }

  ghost predicate Does(s: State, s': State, t: nat) {
    var (pc, pc') := (Pc(s, t), Pc(s', t));
    Effects(s, s', pc) && ThreadEffect(s.threads, s'.threads, pc, pc') && Comes(s, pc, pc')
  }

  lemma StepDoes(s: State, t: nat, c: Choice)
    requires StepCaller(s, t, c).Some?
    ensures Does(s, StepCaller(s, t, c).value, t)
  {
    hide Does;
    match Pc(s, t)
    case Idle => DoesIdle(s, t, c);
    case Init(pc) => DoesInit(s, t, pc, c);
    case Post(pc) => DoesPost(s, t, pc, c);
    case Sync(pc) => DoesSync(s, t, pc);
    case Stop(pc) => DoesStop(s, t, pc, c);
    case Join(pc) => DoesJoin(s, t, pc);
    case Wipe(pc) => DoesWipe(s, t, pc);
  }

  lemma DoesIdle(s: State, t: nat, c: Choice)
    requires Pc(s, t) == Idle && StepIdle(s, t, c).Some?
    ensures Does(s, StepIdle(s, t, c).value, t)
  {
  }

  lemma DoesInit(s: State, t: nat, pc: InitPc, c: Choice)
    requires Pc(s, t) == Init(pc) && StepInit(s, t, pc, c).Some?
    ensures Does(s, StepInit(s, t, pc, c).value, t)
  {
  }

  lemma DoesPost(s: State, t: nat, pc: PostPc, c: Choice)
    requires Pc(s, t) == Post(pc) && StepPost(s, t, pc, c).Some?
    ensures Does(s, StepPost(s, t, pc, c).value, t)
  {
  }

  lemma DoesSync(s: State, t: nat, pc: SyncPc)
    requires Pc(s, t) == Sync(pc) && StepSync(s, t, pc).Some?
    ensures Does(s, StepSync(s, t, pc).value, t)
  {
  }

  lemma DoesJoin(s: State, t: nat, pc: JoinPc)
    requires Pc(s, t) == Join(pc) && StepJoin(s, t, pc).Some?
    ensures Does(s, StepJoin(s, t, pc).value, t)
  {
  }

  lemma DoesStop(s: State, t: nat, pc: StopPc, c: Choice)
    requires Pc(s, t) == Stop(pc) && StepStop(s, t, pc, c).Some?
    ensures Does(s, StepStop(s, t, pc, c).value, t)
  {
  }

  lemma DoesWipe(s: State, t: nat, pc: WipePc)
    requires Pc(s, t) == Wipe(pc) && StepWipe(s, t, pc).Some?
    ensures Does(s, StepWipe(s, t, pc).value, t)
  {
  }

  lemma GripsKept(s: State, s': State, t: nat)
    requires Does(s, s', t)
    ensures SameGrips(s, s')
  {
    hide Effects, Comes;
  }

  // ---------- one refresh at a time, in every run ----------

  lemma CallerOwners(s: State, t: nat, c: Choice)
    requires Owners(s) && StepCaller(s, t, c).Some?
    ensures Owners(StepCaller(s, t, c).value)
  {
    hide StepCaller, Owners, Moves, Does, SameGrips, HoldsMutex, HoldsRefresh;
    OwnerIs(s, t);
    StepMoves(s, t, c);
    StepDoes(s, t, c);
    GripsKept(s, StepCaller(s, t, c).value, t);
    OwnersMove(s, StepCaller(s, t, c).value, t);
  }

  /** What a step of thread k may do to the mutexes. */
  predicate ThreadMutex(s: State, s': State, k: nat) {
    var (before, after) := (ThreadAt(s, k), ThreadAt(s', k));
    && (ThreadHoldsMutex(after) && !ThreadHoldsMutex(before) ==> s.mutex == Free)
    && s'.mutex == (if ThreadHoldsMutex(after) then Thread(k) else if ThreadHoldsMutex(before) then Free else s.mutex)
  }

  predicate ThreadRefresh(s: State, s': State, k: nat) {
    var (before, after) := (ThreadAt(s, k), ThreadAt(s', k));
    && (after == Body && before != Body ==> s.refresh == Free)
    && s'.refresh == (if after == Body then Thread(k) else if before == Body then Free else s.refresh)
  }

  predicate OnlyThread(s: State, s': State, k: nat) {
    s'.callers == s.callers && k < |s.threads| && s'.threads == s.threads[k := ThreadAt(s', k)]
  }

  /** What a step of thread k, from pc to pc', does to the flags. */
  predicate ThreadFlags(s: State, s': State, pc: ThreadPc, pc': ThreadPc) {
    && s'.want == (s.want && pc' != TakeUnlock)
    && s'.running == s.running && s'.inited == s.inited && s'.ok == s.ok && s'.badJoin == s.badJoin && s'.asked == s.asked
    && (if pc == BodyLock then s'.clock == s'.started == s.clock + 1 else s'.clock == s.clock && s'.started == s.started)
  }

  /** Where a thread goes next. */
  predicate Goes(s: State, pc: ThreadPc, pc': ThreadPc) {
    match pc
    case LoopHead => pc' == if s.running then TakeLock else Exited
    case TakeLock => pc' == CheckWait
    case CheckWait => pc' == if !s.want && s.running then Parked else CheckRun
    case Parked => pc' == Woken
    case Woken => pc' == CheckWait
    case CheckRun => pc' == if s.running then TakeUnlock else ExitUnlock
    case ExitUnlock => pc' == Exited
    case TakeUnlock => pc' == BodyLock
    case BodyLock => pc' == Body
    case Body => pc' == LoopHead
    case _ => false
  }

  predicate ThreadDoes(s: State, s': State, k: nat) {
    var (pc, pc') := (ThreadAt(s, k), ThreadAt(s', k));
    && OnlyThread(s, s', k) && ThreadMutex(s, s', k) && ThreadRefresh(s, s', k) && ThreadFlags(s, s', pc, pc') && Goes(s, pc, pc')
  }

  lemma WaitDoes(s: State, k: nat, pc: ThreadPc, spurious: bool)
    requires k < |s.threads| && s.threads[k] == pc && Waits(pc) && StepWait(s, k, pc, spurious).Some?
    requires ThreadHoldsMutex(pc) ==> s.mutex == Thread(k)
    ensures ThreadDoes(s, StepWait(s, k, pc, spurious).value, k)
  {
  }

  lemma TakeDoes(s: State, k: nat, pc: ThreadPc)
    requires k < |s.threads| && s.threads[k] == pc && !Waits(pc) && StepTake(s, k, pc).Some?
    requires (ThreadHoldsMutex(pc) ==> s.mutex == Thread(k)) && (pc == Body ==> s.refresh == Thread(k))
    ensures ThreadDoes(s, StepTake(s, k, pc).value, k)
  {
  }

  /** All that a step of a thread does. */
  lemma ThreadStepDoes(s: State, k: nat, spurious: bool)
    requires Owners(s) && k < |s.threads| && StepThread(s, k, spurious).Some?
    ensures ThreadDoes(s, StepThread(s, k, spurious).value, k)
  {
    hide StepWait, StepTake, Waits, ThreadDoes, HoldsMutex, HoldsRefresh, ThreadHoldsMutex;
    assert ThreadHoldsMutex(ThreadAt(s, k)) ==> s.mutex == Thread(k);
    assert ThreadAt(s, k) == Body ==> s.refresh == Thread(k);
    if Waits(s.threads[k]) {
      WaitDoes(s, k, s.threads[k], spurious);
    } else {
      TakeDoes(s, k, s.threads[k]);
    }
  }

  lemma ThreadOwnersMove(s: State, s': State, k: nat)
    requires Owners(s) && ThreadMutex(s, s', k) && ThreadRefresh(s, s', k) && OnlyThread(s, s', k)
    ensures Owners(s')
  {
    assert forall t :: Pc(s', t) == Pc(s, t);
    assert forall j :: j != k ==> ThreadAt(s', j) == ThreadAt(s, j);
    hide HoldsMutex, HoldsRefresh, Pc, ThreadHoldsMutex, ThreadAt;
  }

  lemma ThreadOwners(s: State, k: nat, spurious: bool)
    requires Owners(s) && k < |s.threads| && StepThread(s, k, spurious).Some?
    ensures Owners(StepThread(s, k, spurious).value)
  {
    hide StepThread, Owners, ThreadMutex, ThreadRefresh, OnlyThread, ThreadFlags, Goes, ThreadAt;
    ThreadStepDoes(s, k, spurious);
    ThreadOwnersMove(s, StepThread(s, k, spurious).value, k);
  }

  lemma NextOwners(s: State, s': State)
    requires Owners(s) && Next(s, s')
    ensures Owners(s')
  {
    hide Owners, StepCaller, StepThread;
    if t, c :| StepCaller(s, t, c) == Some(s') {
      CallerOwners(s, t, c);
    } else {
      var k: nat, spurious :| k < |s.threads| && StepThread(s, k, spurious) == Some(s');
      ThreadOwners(s, k, spurious);
    }
  }

  lemma InitialOwners()
    ensures Owners(INIT)
  {
  }

  /** In every interleaving each mutex has the owner that it should have. */
  lemma {:induction false} RunOwners(run: seq<State>, i: nat)
    requires IsRun(run) && i < |run|
    ensures Owners(run[i])
  {
    hide Owners, Next;
    InitialOwners();
    if i > 0 {
      RunOwners(run, i - 1);
      assert Next(run[i - 1], run[i - 1 + 1]);
      NextOwners(run[i - 1], run[i]);
    }
  }

  /** Is a refresh body, or the wiping of the tables, in progress? */
  predicate Refreshing(s: State, o: Owner) {
    match o
    case Free => false
    case Caller(t) => HoldsRefresh(Pc(s, t))
    case Thread(k) => ThreadAt(s, k) == Body
  }

  /** In every interleaving at most one refresh body runs at a time, and none while the tables are freed, however many
      threads there are. */
  lemma OneRefreshAtATime(run: seq<State>, i: nat, o: Owner, p: Owner)
    requires IsRun(run) && i < |run| && Refreshing(run[i], o) && Refreshing(run[i], p)
    ensures o == p
  {
    hide IsRun, HoldsMutex, HoldsRefresh, ThreadHoldsMutex, Pc, ThreadAt;
    RunOwners(run, i);
  }

  // ---------- one thread at a time ----------

  /** Is a thread being created? */
  predicate Creating(pc: CallerPc) {
    pc == Init(SetRunning) || pc == Init(Create) || pc == Init(SetOk)
  }

  /** Has a clear seen the thread, and not yet said that it is gone? */
  predicate Stopping(pc: CallerPc) {
    (pc.Stop? && pc.stop != AskStop) || (pc.Join? && pc.join != ClearInited)
  }

  /** A clear that has found no thread, or has joined it, is about to clear the flag while a thread is being created;
      or two clears stop the same thread. */
  predicate Clash(p: CallerPc, q: CallerPc) {
    (p == Join(ClearInited) && Creating(q)) || (Stopping(p) && Stopping(q))
  }

  ghost predicate Calm(s: State) {
    forall t, u :: t != u ==> !Clash(Pc(s, t), Pc(s, u))
  }

  ghost predicate IsCalmRun(run: seq<State>) {
    IsRun(run) && forall i :: 0 <= i < |run| ==> Calm(run[i])
  }

  /** While a thread is parked although there is something to do, a signal is about to be sent. */
  predicate NoLostWakeUp(s: State) {
    Latest(s) == Parked && (s.want || !s.running) ==>
      s.mutex.Caller? && (Pc(s, s.mutex.id) == Post(SignalWant) || Pc(s, s.mutex.id) == Stop(SignalStop))
  }

  predicate Unserved(s: State) {
    s.asked > s.started
  }

  /** A request has been taken whose refresh has not started. */
  predicate Taken(s: State) {
    Latest(s) == TakeUnlock || Latest(s) == BodyLock
  }

  /** A request is not forgotten before a refresh has started after it. */
  predicate Remembered(s: State) {
    s.asked <= s.clock && s.started <= s.clock && (Unserved(s) ==> s.want || Taken(s))
  }

  /** What the flags and the latest thread are when a caller is at pc. */
  predicate Fits(s: State, pc: CallerPc) {
    && (Creating(pc) ==> s.inited && !s.ok && (pc == Init(SetOk) <==> Latest(s) != Joined))
    && (pc == Init(CreateFailed) ==> !s.ok && Latest(s) == Joined)
    && (Stopping(pc) ==> s.ok && (pc == Join(ClearOk) <==> Latest(s) == Joined))
    && (Stopping(pc) && pc != Stop(LockStop) && pc != Stop(ClearRunning) ==> !s.running)
    && (pc.Join? && pc.join.Await? ==> pc.join.thread == |s.threads| - 1)
    && (pc == Join(ClearInited) ==> !s.ok && Latest(s) == Joined)
  }

  predicate AtSetOk(s: State) {
    s.mutex.Caller? && Pc(s, s.mutex.id) == Init(SetOk)
  }

  ghost predicate SomeoneAtClearOk(s: State) {
    exists t :: Pc(s, t) == Join(ClearOk)
  }

  predicate EarlierJoined(s: State) {
    forall k :: 0 <= k < |s.threads| - 1 ==> s.threads[k] == Joined
  }

  predicate Flags(s: State) {
    && !s.badJoin
    && (s.ok ==> s.inited)
    && (Latest(s) != Joined ==> s.inited && (s.ok || AtSetOk(s)))
    && (Latest(s) == ExitUnlock || Latest(s) == Exited ==> !s.running)
  }

  /** There is one thread at a time, the flags tell, and every thread is joined once. */
  ghost predicate OneThread(s: State) {
    && EarlierJoined(s) && Flags(s) && (s.ok && Latest(s) == Joined ==> SomeoneAtClearOk(s))
    && forall t :: Fits(s, Pc(s, t))
  }

  ghost predicate Inv(s: State) {
    Owners(s) && NoLostWakeUp(s) && Remembered(s) && OneThread(s)
  }

  /** What a step of caller t does to the latest thread, if the others have been joined. */
  predicate LatestEffect(s: State, s': State, pc: CallerPc, pc': CallerPc) {
    && EarlierJoined(s')
    && Latest(s') == (if pc == Init(Create) && pc' == Init(SetOk) then LoopHead
                      else if (pc == Post(SignalWant) || pc == Stop(SignalStop)) && Latest(s) == Parked then Woken
                      else if pc' == Join(ClearOk) then Joined
                      else Latest(s))
    && (|s'.threads| == |s.threads| || (pc == Init(Create) && pc' == Init(SetOk)))
    && !s'.badJoin
    && (pc' == Join(ClearOk) ==> pc.Join? && pc.join.Await? && Latest(s) == Exited)
  }

  lemma LatestChanges(s: State, s': State, t: nat)
    requires OneThread(s) && Does(s, s', t)
    ensures LatestEffect(s, s', Pc(s, t), Pc(s', t))
  {
    var (pc, pc') := (Pc(s, t), Pc(s', t));
    assert Fits(s, pc) && EarlierJoined(s) && Flags(s);
    hide Pc, OneThread;
    if pc == Post(SignalWant) || pc == Stop(SignalStop) {
      WokeLatest(s, s');
    }
  }

  lemma WokeLatest(s: State, s': State)
    requires EarlierJoined(s) && Woke(s.threads, s'.threads)
    ensures EarlierJoined(s') && |s'.threads| == |s.threads|
    ensures Latest(s') == if Latest(s) == Parked then Woken else Latest(s)
  {
  }

  lemma WakeUpKept(s: State, s': State, t: nat)
    requires Owners(s) && OneThread(s) && NoLostWakeUp(s)
    requires s'.callers == s.callers[t := Pc(s', t)] && Moves(s, s', t) && Does(s, s', t)
    ensures NoLostWakeUp(s')
  {
    assert s.mutex.Caller? ==> HoldsMutex(Pc(s, s.mutex.id));
    assert HoldsMutex(Pc(s, t)) ==> s.mutex == Caller(t);
    assert Fits(s, Pc(s, t));
    LatestChanges(s, s', t);
    hide Owners, OneThread, ThreadEffect, Latest, EarlierJoined, Fits;
    assert Fits(s, Pc(s, t));
    if Latest(s') == Parked && (s'.want || !s'.running) {
      assert Latest(s) == Parked;
    }
  }

  lemma RememberedKept(s: State, s': State, t: nat)
    requires OneThread(s) && Remembered(s) && Does(s, s', t)
    ensures Remembered(s')
  {
    assert Fits(s, Pc(s, t));
    LatestChanges(s, s', t);
    hide OneThread, ThreadEffect, Comes, Latest, EarlierJoined;
  }

  lemma HolderStays(s: State, s': State, t: nat)
    requires Owners(s) && Moves(s, s', t) && s.mutex.Caller? && s.mutex.id != t
    ensures s'.mutex == s.mutex
  {
    assert HoldsMutex(Pc(s, t)) ==> s.mutex == Caller(t);
    hide HoldsMutex, Pc;
  }

  lemma FlagsKept(s: State, s': State, t: nat)
    requires Owners(s) && Flags(s) && Fits(s, Pc(s, t)) && s'.callers == s.callers[t := Pc(s', t)]
    requires Moves(s, s', t) && Does(s, s', t) && LatestEffect(s, s', Pc(s, t), Pc(s', t))
    ensures Flags(s')
  {
    if s.mutex.Caller? && s.mutex.id != t {
      HolderStays(s, s', t);
      assert Pc(s', s.mutex.id) == Pc(s, s.mutex.id);
    }
    hide Owners, ThreadEffect, Latest, EarlierJoined, HoldsRefresh;
  }

  lemma NotAtClearOk(s: State, s': State, t: nat)
    requires Calm(s') && s'.callers == s.callers[t := Pc(s', t)] && Pc(s', t) == Stop(LockStop) && Pc(s, t) == Stop(AskStop)
    ensures !SomeoneAtClearOk(s)
  {
    forall u
      ensures Pc(s, u) != Join(ClearOk)
    {
      assert u != t ==> Pc(s', u) == Pc(s, u) && !Clash(Pc(s', t), Pc(s', u));
    }
  }

  /** The caller that moves. */
  lemma SelfFits(s: State, s': State, t: nat)
    requires OneThread(s) && Calm(s') && s'.callers == s.callers[t := Pc(s', t)]
    requires Does(s, s', t) && LatestEffect(s, s', Pc(s, t), Pc(s', t))
    ensures Fits(s', Pc(s', t))
  {
    assert Fits(s, Pc(s, t));
    assert Pc(s', t) == Stop(LockStop) ==> Latest(s) != Joined by {
      if Pc(s', t) == Stop(LockStop) {
        NotAtClearOk(s, s', t);
      }
    }
    assert forall u :: u != t ==> !Clash(Pc(s', t), Pc(s, u)) by {
      assert forall u :: u != t ==> Pc(s', u) == Pc(s, u);
      hide Pc, Clash;
    }
    assert AtSetOk(s) && s.mutex.id != t ==> !Clash(Pc(s', t), Init(SetOk));
    hide OneThread, Calm, ThreadEffect, Latest, EarlierJoined;
  }

  /** Another caller, at q, while the one at p moves. */
  lemma OtherFits(s: State, s': State, p: CallerPc, p': CallerPc, q: CallerPc)
    requires Flags(s) && Fits(s, p) && Fits(s, q) && !Clash(p, q) && !Clash(q, p) && !(HoldsMutex(p) && HoldsMutex(q))
    requires Effects(s, s', p) && Comes(s, p, p') && LatestEffect(s, s', p, p')
    ensures Fits(s', q)
  {
    hide Latest, EarlierJoined, ThreadAt;
  }

  lemma FitsKept(s: State, s': State, t: nat, u: nat)
    requires Owners(s) && OneThread(s) && Calm(s) && Calm(s') && s'.callers == s.callers[t := Pc(s', t)]
    requires Does(s, s', t) && LatestEffect(s, s', Pc(s, t), Pc(s', t))
    ensures Fits(s', Pc(s', u))
  {
    hide Fits, Flags, EarlierJoined, Effects, ThreadEffect, Comes, LatestEffect, HoldsMutex, Clash;
    if u == t {
      SelfFits(s, s', t);
    } else {
      assert Pc(s', u) == Pc(s, u);
      assert Fits(s, Pc(s, t)) && Fits(s, Pc(s, u)) && !Clash(Pc(s, t), Pc(s, u)) && !Clash(Pc(s, u), Pc(s, t));
      OwnerIs(s, t);
      OwnerIs(s, u);
      hide Pc;
      OtherFits(s, s', Pc(s, t), Pc(s', t), Pc(s, u));
    }
  }

  lemma ClearOkKept(s: State, s': State, t: nat)
    requires OneThread(s) && s'.callers == s.callers[t := Pc(s', t)]
    requires Does(s, s', t) && LatestEffect(s, s', Pc(s, t), Pc(s', t)) && s'.ok && Latest(s') == Joined
    ensures SomeoneAtClearOk(s')
  {
    assert Fits(s, Pc(s, t));
    if Pc(s', t) == Join(ClearOk) {
      assert SomeoneAtClearOk(s');
    } else {
      assert s.ok && Latest(s) == Joined by {
        hide OneThread, ThreadEffect, Latest, EarlierJoined;
      }
      var u :| Pc(s, u) == Join(ClearOk);
      assert Pc(s', u) == Join(ClearOk);
    }
  }

  lemma OneThreadKept(s: State, s': State, t: nat)
    requires Owners(s) && OneThread(s) && Calm(s) && Calm(s') && s'.callers == s.callers[t := Pc(s', t)]
    requires Moves(s, s', t) && Does(s, s', t)
    ensures OneThread(s')
  {
    LatestChanges(s, s', t);
    assert EarlierJoined(s');
    hide Fits, Flags, Calm, Moves, Does, Owners, LatestEffect, EarlierJoined, SomeoneAtClearOk, Pc;
    assert Fits(s, Pc(s, t));
    FlagsKept(s, s', t);
    forall u
      ensures Fits(s', Pc(s', u))
    {
      FitsKept(s, s', t, u);
    }
    if s'.ok && Latest(s') == Joined {
      ClearOkKept(s, s', t);
    }
  }

  /** Every step of every caller keeps the invariant, as long as nothing clashes. */
  lemma CallerKeeps(s: State, t: nat, c: Choice)
    requires Inv(s) && StepCaller(s, t, c).Some? && Calm(s) && Calm(StepCaller(s, t, c).value)
    ensures Inv(StepCaller(s, t, c).value)
  {
    hide StepCaller, Moves, Does, Owners, OneThread, NoLostWakeUp, Remembered, Calm, HoldsMutex, HoldsRefresh;
    var s' := StepCaller(s, t, c).value;
    OwnerIs(s, t);
    StepMoves(s, t, c);
    StepDoes(s, t, c);
    CallerOwners(s, t, c);
    WakeUpKept(s, s', t);
    RememberedKept(s, s', t);
    OneThreadKept(s, s', t);
  }

  /** So does every step of the thread, spurious wake-ups included. */
  lemma ThreadKeeps(s: State, k: nat, spurious: bool)
    requires Inv(s) && k < |s.threads| && StepThread(s, k, spurious).Some?
    ensures Inv(StepThread(s, k, spurious).value)
  {
    hide Owners, NoLostWakeUp, Remembered, OneThread, StepThread, ThreadDoes;
    var s' := StepThread(s, k, spurious).value;
    ThreadOwners(s, k, spurious);
    ThreadStepDoes(s, k, spurious);
    ThreadIsLatest(s, s', k);
    ThreadWakeUp(s, s', k);
    ThreadRemembers(s, s', k);
    ThreadIsOne(s, s', k);
  }

  /** What a step of the latest thread does. */
  predicate LatestGoes(s: State, s': State) {
    && s'.callers == s.callers && |s'.threads| == |s.threads| > 0
    && ThreadFlags(s, s', Latest(s), Latest(s')) && Goes(s, Latest(s), Latest(s'))
    && (ThreadHoldsMutex(Latest(s')) && !ThreadHoldsMutex(Latest(s)) ==> s.mutex == Free)
    && (if ThreadHoldsMutex(Latest(s')) then !s'.mutex.Caller?
        else if ThreadHoldsMutex(Latest(s)) then s'.mutex == Free
        else s'.mutex == s.mutex)
  }

  lemma ThreadIsLatest(s: State, s': State, k: nat)
    requires OneThread(s) && ThreadDoes(s, s', k)
    ensures k == |s.threads| - 1 && EarlierJoined(s') && LatestGoes(s, s')
  {
    hide Fits, Flags, ThreadFlags;
  }

  lemma ThreadWakeUp(s: State, s': State, k: nat)
    requires Owners(s) && NoLostWakeUp(s) && k == |s.threads| - 1 && LatestGoes(s, s')
    ensures NoLostWakeUp(s')
  {
    assert ThreadHoldsMutex(ThreadAt(s, k)) ==> s.mutex == Thread(k);
    assert s.mutex.Caller? ==> Pc(s', s.mutex.id) == Pc(s, s.mutex.id);
    assert ThreadAt(s, k) == Latest(s);
    hide Owners, HoldsMutex, HoldsRefresh, Latest, Pc, ThreadAt;
  }

  lemma ThreadRemembers(s: State, s': State, k: nat)
    requires Remembered(s) && LatestGoes(s, s')
    ensures Remembered(s')
  {
    hide Latest;
  }

  lemma ThreadIsOne(s: State, s': State, k: nat)
    requires Owners(s) && OneThread(s) && k == |s.threads| - 1 && LatestGoes(s, s') && EarlierJoined(s')
    ensures OneThread(s')
  {
    assert forall t :: Pc(s', t) == Pc(s, t);
    assert s.mutex.Caller? ==> HoldsMutex(Pc(s, s.mutex.id));
    assert ThreadHoldsMutex(ThreadAt(s, k)) ==> s.mutex == Thread(k);
    assert ThreadAt(s, k) == Latest(s);
    hide Owners, Latest, Pc, EarlierJoined, HoldsMutex, ThreadAt;
    forall t
      ensures Fits(s', Pc(s', t))
    {
      assert Fits(s, Pc(s, t));
    }
    hide Fits;
  }

  /** The effects of a caller, under the invariant. */
  lemma CallerLatest(s: State, t: nat, c: Choice)
    requires Inv(s) && StepCaller(s, t, c).Some?
    ensures var s' := StepCaller(s, t, c).value;
      && Effects(s, s', Pc(s, t)) && Comes(s, Pc(s, t), Pc(s', t)) && LatestEffect(s, s', Pc(s, t), Pc(s', t))
      && Fits(s, Pc(s, t)) && (HoldsMutex(Pc(s, t)) ==> !ThreadHoldsMutex(Latest(s)))
  {
    hide StepCaller, Effects, ThreadEffect, Comes, LatestEffect, Fits, Flags, EarlierJoined, NoLostWakeUp, Remembered, HoldsMutex, HoldsRefresh;
    StepDoes(s, t, c);
    LatestChanges(s, StepCaller(s, t, c).value, t);
    OwnerIs(s, t);
    assert ThreadHoldsMutex(ThreadAt(s, |s.threads|)) ==> s.mutex == Thread(|s.threads|);
    assert s.threads != [] ==> ThreadHoldsMutex(ThreadAt(s, |s.threads| - 1)) ==> s.mutex == Thread(|s.threads| - 1);
  }

  /** The effects of a thread. */
  lemma ThreadLatest(s: State, k: nat, spurious: bool)
    requires Inv(s) && k < |s.threads| && StepThread(s, k, spurious).Some?
    ensures LatestGoes(s, StepThread(s, k, spurious).value)
  {
    hide StepThread, OneThread, Owners, NoLostWakeUp, Remembered, ThreadDoes, LatestGoes;
    ThreadStepDoes(s, k, spurious);
    ThreadIsLatest(s, StepThread(s, k, spurious).value, k);
  }

  lemma NextKeeps(s: State, s': State)
    requires Inv(s) && Calm(s) && Calm(s') && Next(s, s')
    ensures Inv(s')
  {
    hide Inv, Calm, StepCaller, StepThread;
    if t, c :| StepCaller(s, t, c) == Some(s') {
      CallerKeeps(s, t, c);
    } else {
      var k: nat, spurious :| k < |s.threads| && StepThread(s, k, spurious) == Some(s');
      ThreadKeeps(s, k, spurious);
    }
  }

  lemma InitiallyInv()
    ensures Inv(INIT)
  {
  }

  /** Over every calm run everything is kept. */
  lemma {:induction false} RunKeeps(run: seq<State>, i: nat)
    requires IsCalmRun(run) && i < |run|
    ensures Inv(run[i])
  {
    hide Inv, Calm, Next;
    InitiallyInv();
    if i > 0 {
      RunKeeps(run, i - 1);
      assert Next(run[i - 1], run[i - 1 + 1]);
      NextKeeps(run[i - 1], run[i]);
    }
  }

  /** Over every calm run no wake-up is lost: if the thread sleeps although a request is flagged or a stop is wanted, the
      owner of the mutex is about to signal. */
  lemma NoWakeUpLost(run: seq<State>, i: nat)
    requires IsCalmRun(run) && i < |run| && Latest(run[i]) == Parked && (run[i].want || !run[i].running)
    ensures run[i].mutex.Caller?
    ensures Pc(run[i], run[i].mutex.id) == Post(SignalWant) || Pc(run[i], run[i].mutex.id) == Stop(SignalStop)
  {
    hide IsCalmRun, Latest, Pc, Owners, OneThread;
    RunKeeps(run, i);
  }

  /** Over every calm run a thread is created only after the earlier ones have been joined, each of them once. */
  lemma OneThreadAtATime(run: seq<State>, i: nat)
    requires IsCalmRun(run) && i < |run|
    ensures (forall k :: 0 <= k < |run[i].threads| - 1 ==> run[i].threads[k] == Joined) && !run[i].badJoin
  {
    hide IsCalmRun, Latest, Pc, Owners, Fits, NoLostWakeUp, Remembered;
    RunKeeps(run, i);
  }

  // ---------- nobody is stuck ----------

  /** Caller t is under way, and does not have to wait. */
  ghost predicate CallerCanGoOn(s: State, t: nat) {
    Pc(s, t) != Idle && exists c :: StepCaller(s, t, c).Some?
  }

  /** The latest thread goes on without a spurious wake-up. */
  predicate ThreadCanGoOn(s: State) {
    s.threads != [] && StepThread(s, |s.threads| - 1, false).Some?
  }

  /** The choice that lets a step go on. */
  ghost function Going(s: State): Choice {
    if s.threads == [] then Succeed else Wake(|s.threads| - 1)
  }

  lemma HolderGoesOn(s: State, t: nat)
    requires Owners(s) && EarlierJoined(s) && s.mutex == Caller(t)
    ensures CallerCanGoOn(s, t) || (Pc(s, t) == Wipe(LockRefresh) && s.refresh != Free)
  {
    assert HoldsMutex(Pc(s, t));
    hide Owners;
    assert StepCaller(s, t, Going(s)).Some? || (Pc(s, t) == Wipe(LockRefresh) && s.refresh != Free);
  }

  lemma RefresherGoesOn(s: State) returns (t: nat)
    requires Owners(s) && EarlierJoined(s) && s.refresh != Free
    ensures if s.refresh.Thread? then ThreadCanGoOn(s) else CallerCanGoOn(s, t)
  {
    t := s.refresh.id;
    assert s.refresh.Caller? ==> HoldsRefresh(Pc(s, t));
    assert s.refresh.Thread? ==> ThreadAt(s, t) == Body;
    hide Owners;
    assert s.refresh.Caller? ==> StepCaller(s, t, Succeed).Some?;
  }

  /** No deadlock: while an operation is under way, some thread can go on, be it the caller itself, the owner of the
      mutex it waits for, or the thread that it waits for. */
  lemma NoDeadlock(s: State, t: nat) returns (u: nat)
    requires Inv(s) && Pc(s, t) != Idle
    ensures CallerCanGoOn(s, u) || ThreadCanGoOn(s)
  {
    hide StepCaller, StepThread, Owners, EarlierJoined, Flags, Fits, NoLostWakeUp, Remembered, CallerCanGoOn, ThreadCanGoOn;
    u := t;
    if s.mutex.Caller? {
      HolderGoesOn(s, s.mutex.id);
      u := s.mutex.id;
    }
    if s.refresh != Free {
      var v := RefresherGoesOn(s);
      if !s.refresh.Thread? {
        u := v;
      }
    } else if !s.mutex.Caller? {
      WithNoCaller(s, t);
    }
  }

  lemma WithNoCaller(s: State, t: nat)
    requires Inv(s) && Pc(s, t) != Idle && !s.mutex.Caller? && s.refresh == Free
    ensures CallerCanGoOn(s, t) || ThreadCanGoOn(s)
  {
    assert Fits(s, Pc(s, t));
    if s.mutex.Thread? {
      assert ThreadHoldsMutex(ThreadAt(s, s.mutex.id));
      hide Owners;
    } else {
      assert HoldsMutex(Pc(s, t)) ==> s.mutex == Caller(t);
      hide Owners;
      assert StepCaller(s, t, Succeed).Some? || ThreadCanGoOn(s);
    }
  }
}
