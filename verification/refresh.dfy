/**
 The futex hand-off between the program, which asks for a refresh, and the display thread, which clears the futex
 without an atomic exchange. Every action makes at most one access to shared memory or one futex call; flipping the
 picture is one action.
 */
module Refresh {
  import opened Words
  import opened IoOps

  /** `fb_sync_thread`, by what it does next. */
  datatype ThreadPc =
    | Unborn
    | InitClear                // futex = 0 at start-up
    | InitWake                 // the wake that follows
    | Waiting                  // about to call FUTEX_WAIT on 0
    | Asleep
    | Clearing(failed: bool)   // the wait is over, with an unexpected error or not
    | Checking(failed: bool)   // futex cleared; the error and pause tests come next
    | Reading                  // about to read mlc_stl_adr
    | Flipping

  /** The end of `emu_init`, by what it does next. */
  datatype StartPc = SetOne | Cloning | WaitOne | AsleepOne | Defaulting | Started

  /** What a program thread goes on with after asking: nothing, reading the address again, or storing the one it has. */
  datatype After = Done | Reread | Keep(adr: Word)

  /** A program thread in a register write or a blit, by what it does next. */
  datatype AppPc =
    | Idle
    | Comparing                              // half-word commit: about to read mlc_stl_adr
    | ComparingOld(adr: Word, word: bool)    // about to read old_mlc_stl_adr
    | Setting(after: After)                  // about to store 1 into the futex
    | Waking(after: After)
    | Recording                              // about to read mlc_stl_adr again
    | Storing(adr: Word)                     // about to write old_mlc_stl_adr

  /** The last five fields are history: they tell what happened and decide nothing. */
  datatype State = State(
    futex: int, adr: Word, recorded: Word, paused: bool,
    thread: ThreadPc, start: StartPc, apps: seq<AppPc>,
    owed: bool,          // some request stored 1 and the thread has not read mlc_stl_adr since
    dropped: bool,       // that request was cleared on the paused or the error path
    seen: Option<Word>,  // the address the thread read last
    committed: Word,     // the default or the address of the last commit, without half stores since
    whole: bool)         // the address read last was the committed one

  datatype Action =
    | Starter
    | Thread(error: bool)               // the next step of the display thread; error is what the wait call may report
    | Timeout                           // a sleeping display thread's time is up
    | StoreLow(app: nat, low: Half)     // the half-word store that does not commit
    | CommitHigh(app: nat, high: Half)  // the one that does
    | CommitWord(app: nat, adr: Word)   // a word store
    | Blit(app: nat)
    | App(app: nat)                     // the next step of a program thread in the middle of a request
    | Pause(on: bool)

  const DEFAULT: Word := 0x0310_1000

  function Init(apps: nat): State {
    State(0, 0, 0, false, Unborn, SetOne, seq(apps, _ => Idle), false, false, None, 0, false)
  }

  /** FUTEX_WAKE of one waiter; only one of the two threads can be asleep on the futex at a time. */
  function Wake(s: State): State {
    if s.start == AsleepOne then s.(start := Defaulting)
    else if s.thread == Asleep then s.(thread := Clearing(false)) else s
  }

  function ThreadStep(s: State, error: bool): Option<State> {
    match s.thread
    case InitClear => Some(s.(futex := 0, thread := InitWake))
    case InitWake => Some(Wake(s).(thread := Waiting))
    case Waiting =>
      if error then Some(s.(thread := Clearing(true)))
      else Some(s.(thread := if s.futex == 0 then Asleep else Clearing(false)))
    case Clearing(failed) => Some(s.(futex := 0, thread := Checking(failed)))
    case Checking(failed) =>
      if failed || s.paused then Some(s.(thread := Waiting, dropped := s.dropped || (s.owed && s.futex == 0)))
      else Some(s.(thread := Reading))
    case Reading =>
      Some(s.(thread := Flipping, seen := Some(s.adr), whole := s.adr == s.committed, owed := false, dropped := false))
    case Flipping => Some(s.(thread := Waiting))
    case _ => None
  }

  /** The default address is written after the handshake, and nobody is asked to show it. */
  function StartStep(s: State): Option<State> {
    match s.start
    case SetOne => Some(s.(futex := 1, start := Cloning))
    case Cloning => Some(s.(thread := InitClear, start := WaitOne))
    case WaitOne => Some(s.(start := if s.futex == 1 then AsleepOne else Defaulting))
    case Defaulting => Some(s.(adr := DEFAULT, committed := DEFAULT, whole := false, start := Started))
    case _ => None
  }

  function AppStep(s: State, i: nat): Option<State>
    requires i < |s.apps|
  {
    match s.apps[i]
    case Comparing => Some(s.(apps := s.apps[i := ComparingOld(s.adr, false)]))
    case ComparingOld(adr, word) =>
      Some(s.(apps := s.apps[i := if adr != s.recorded then Setting(if word then Keep(adr) else Reread)
                                  else if word then Storing(adr) else Recording]))
    case Setting(after) => Some(s.(futex := 1, owed := true, dropped := false, apps := s.apps[i := Waking(after)]))
    case Waking(after) =>
      var next := match after case Done => Idle case Reread => Recording case Keep(adr) => Storing(adr);
      Some(Wake(s).(apps := s.apps[i := next]))
    case Recording => Some(s.(apps := s.apps[i := Storing(s.adr)]))
    case Storing(adr) => Some(s.(recorded := adr, apps := s.apps[i := Idle]))
    case Idle => None
  }

  predicate Ready(s: State, i: nat) {
    s.start == Started && i < |s.apps| && s.apps[i] == Idle
  }

  /** What an action does; None when it cannot happen. Programs run once `emu_init` is through. */
  function Do(s: State, a: Action): Option<State> {
    match a
    case Starter => StartStep(s)
    case Thread(error) => ThreadStep(s, error)
    case Timeout => if s.thread == Asleep then Some(s.(thread := Clearing(false))) else None
    case StoreLow(i, low) =>
      if Ready(s, i) then Some(s.(adr := s.adr / 0x1_0000 * 0x1_0000 + low)) else None
    case CommitHigh(i, high) =>
      var adr: Word := high * 0x1_0000 + s.adr % 0x1_0000;
      if Ready(s, i) then Some(s.(adr := adr, committed := adr, apps := s.apps[i := Comparing])) else None
    case CommitWord(i, adr) =>
      if Ready(s, i) then Some(s.(adr := adr, committed := adr, apps := s.apps[i := ComparingOld(adr, true)])) else None
    case Blit(i) => if Ready(s, i) then Some(s.(apps := s.apps[i := Setting(Done)])) else None
    case App(i) => if i < |s.apps| then AppStep(s, i) else None
    case Pause(on) => if s.start == Started then Some(s.(paused := on)) else None
  }

  function DoAll(s: State, run: seq<Action>): Option<State>
    decreases |run|
  {
    if run == [] then Some(s)
    else match Do(s, run[0])
      case None => None
      case Some(s') => DoAll(s', run[1..])
  }

  // ----- what every run keeps

  predicate BetweenClearAndRead(t: ThreadPc) {
    t.Checking? || t == Reading
  }

  predicate SomeWaking(s: State) {
    exists i | 0 <= i < |s.apps| :: s.apps[i].Waking?
  }

  predicate Safe(s: State) {
    && s.futex in {0, 1}
    // an owed refresh is on its way, unless the pause or error path took it
    && (s.owed && !s.dropped ==> s.futex == 1 || BetweenClearAndRead(s.thread))
    && (s.dropped ==> s.owed && s.futex == 0 && s.start == Started)
    // nobody sleeps over a request without a wake to come
    && (s.thread == Asleep && s.futex == 1 ==> SomeWaking(s))
    // the start-up handshake
    && (s.start in {SetOne, Cloning} <==> s.thread == Unborn)
    && (s.start == Cloning ==> s.futex == 1)
    && (s.start in {WaitOne, AsleepOne} && s.futex == 1 ==> s.thread == InitClear)
    && (s.thread == InitClear ==> s.futex == 1 && s.start in {WaitOne, AsleepOne})
    && (s.start == AsleepOne ==> s.thread in {InitClear, InitWake})
    && (s.start != Started ==> !s.owed && forall i | 0 <= i < |s.apps| :: s.apps[i] == Idle)
  }

  lemma StepIsSafe(s: State, a: Action)
    requires Safe(s) && Do(s, a).Some?
    ensures Safe(Do(s, a).value)
  {
    var s' := Do(s, a).value;
    match a
    case App(i) => AppIsSafe(s, i);
    case Thread(error) => ThreadIsSafe(s, error);
    case CommitHigh(i, _) => WakingStays(s, s', i);
    case CommitWord(i, _) => WakingStays(s, s', i);
    case Blit(i) => WakingStays(s, s', i);
    case _ =>
  }

  lemma ThreadIsSafe(s: State, error: bool)
    requires Safe(s) && ThreadStep(s, error).Some?
    ensures Safe(ThreadStep(s, error).value)
  {
    match s.thread
    case InitWake =>
    case Checking(_) =>
    case _ =>
  }

  lemma WakingStays(s: State, s': State, i: nat)
    requires i < |s.apps| == |s'.apps| && !s.apps[i].Waking?
    requires forall j | 0 <= j < |s.apps| && j != i :: s'.apps[j] == s.apps[j]
    ensures SomeWaking(s) ==> SomeWaking(s')
  {
    if SomeWaking(s) {
      var j :| 0 <= j < |s.apps| && s.apps[j].Waking?;
      assert s'.apps[j].Waking?;
    }
  }

  lemma AppIsSafe(s: State, i: nat)
    requires Safe(s) && i < |s.apps| && AppStep(s, i).Some?
    ensures Safe(AppStep(s, i).value)
  {
    var s' := AppStep(s, i).value;
    assert s.start == Started;
    if s.apps[i].Setting? {
      assert s'.apps[i].Waking?;
    } else if !s.apps[i].Waking? {
      WakingStays(s, s', i);
    }
  }

  /** Every reachable state of every interleaving is safe. */
  lemma {:induction false} RunIsSafe(s: State, run: seq<Action>)
    requires Safe(s) && DoAll(s, run).Some?
    ensures Safe(DoAll(s, run).value)
    decreases |run|
  {
    hide Safe, Do;
    if run != [] {
      StepIsSafe(s, run[0]);
      RunIsSafe(Do(s, run[0]).value, run[1..]);
    }
  }

  lemma InitIsSafe(apps: nat)
    ensures Safe(Init(apps))
  {
  }

  // ----- which refreshes are lost

  /** A refresh is owed, nothing says so any more, and the thread is not about to read the address. */
  predicate Lost(s: State) {
    s.owed && s.futex == 0 && !BetweenClearAndRead(s.thread)
  }

  /** The thread finds the pause or the error, and the request it has just cleared is the one that is owed. */
  predicate DropsAt(s: State, a: Action) {
    a.Thread? && s.thread.Checking? && (s.thread.failed || s.paused) && s.owed && s.futex == 0
  }

  /** A later request, or the thread's read, makes up for a dropped one. */
  predicate MakesUp(s: State, a: Action) {
    (a.App? && a.app < |s.apps| && s.apps[a.app].Setting?) || (a.Thread? && s.thread == Reading)
  }

  predicate NothingMakesUp(s: State, run: seq<Action>)
    requires DoAll(s, run).Some?
    decreases |run|
  {
    run == [] || (!MakesUp(s, run[0]) && NothingMakesUp(Do(s, run[0]).value, run[1..]))
  }

  /** Somewhere in the run a request is dropped, and nothing makes up for it afterwards. */
  predicate Drops(s: State, run: seq<Action>)
    requires DoAll(s, run).Some?
    decreases |run|
  {
    run != [] && var s' := Do(s, run[0]).value;
    (DropsAt(s, run[0]) && NothingMakesUp(s', run[1..])) || Drops(s', run[1..])
  }

  lemma {:induction false} DroppedBy(s: State, run: seq<Action>)
    requires DoAll(s, run).Some?
    ensures DoAll(s, run).value.dropped <==> (s.dropped && NothingMakesUp(s, run)) || Drops(s, run)
    decreases |run|
  {
    if run != [] {
      DropStep(s, run[0]);
      DroppedBy(Do(s, run[0]).value, run[1..]);
      hide Do, DropsAt, MakesUp;
    }
  }

  lemma DropStep(s: State, a: Action)
    requires Do(s, a).Some?
    ensures Do(s, a).value.dropped <==> (s.dropped && !MakesUp(s, a)) || DropsAt(s, a)
  {
  }

  /**
   In every interleaving of any number of program threads, pauses and errors: a refresh is lost exactly if its store
   preceded a clear after which the thread found the pause or an error, and neither a later request nor the thread's
   reading has made up for it.
   */
  lemma LostExactly(apps: nat, run: seq<Action>)
    requires DoAll(Init(apps), run).Some?
    ensures var s := DoAll(Init(apps), run).value;
      Lost(s) <==> Drops(Init(apps), run) && !BetweenClearAndRead(s.thread)
  {
    InitIsSafe(apps);
    RunIsSafe(Init(apps), run);
    DroppedBy(Init(apps), run);
    hide DoAll, Drops, NothingMakesUp;
  }

  predicate Undisturbed(run: seq<Action>) {
    forall i | 0 <= i < |run| :: !run[i].Pause? && run[i] != Thread(true)
  }

  lemma {:induction false} UndisturbedDropsNothing(s: State, run: seq<Action>)
    requires DoAll(s, run).Some? && Undisturbed(run)
    requires !s.paused && !(s.thread in {Clearing(true), Checking(true)})
    ensures !Drops(s, run)
    decreases |run|
  {
    if run != [] {
      assert run[0] != Thread(true) && !run[0].Pause?;
      UndisturbedStep(s, run[0]);
      hide Do, DropsAt, NothingMakesUp;
      UndisturbedDropsNothing(Do(s, run[0]).value, run[1..]);
    }
  }

  lemma UndisturbedStep(s: State, a: Action)
    requires Do(s, a).Some? && a != Thread(true) && !a.Pause?
    requires !s.paused && !(s.thread in {Clearing(true), Checking(true)})
    ensures var t := Do(s, a).value; !t.paused && !(t.thread in {Clearing(true), Checking(true)}) && !DropsAt(s, a)
  {
    hide ThreadStep, AppStep;
    match a
    case Thread(_) => UndisturbedThread(s);
    case App(i) => UndisturbedApp(s, i);
    case _ =>
  }

  lemma UndisturbedThread(s: State)
    requires ThreadStep(s, false).Some? && !s.paused && !(s.thread in {Clearing(true), Checking(true)})
    ensures var t := ThreadStep(s, false).value; !t.paused && !(t.thread in {Clearing(true), Checking(true)})
  {
    match s.thread
    case Checking(_) =>
    case _ =>
  }

  lemma UndisturbedApp(s: State, i: nat)
    requires i < |s.apps| && AppStep(s, i).Some? && !s.paused && !(s.thread in {Clearing(true), Checking(true)})
    ensures var t := AppStep(s, i).value; !t.paused && !(t.thread in {Clearing(true), Checking(true)})
  {
  }

  /**
   Without pauses and failing waits no refresh is lost: while one is owed, the futex says so or the thread is about to
   read the address; and in any case the thread never sleeps over a set futex unless the wake is still to come.
   */
  lemma NoLostRefresh(apps: nat, run: seq<Action>)
    requires DoAll(Init(apps), run).Some?
    ensures var s := DoAll(Init(apps), run).value;
      && (Undisturbed(run) && s.owed ==> s.futex == 1 || BetweenClearAndRead(s.thread))
      && (s.thread == Asleep && s.futex == 1 ==> SomeWaking(s))
  {
    InitIsSafe(apps);
    RunIsSafe(Init(apps), run);
    LostExactly(apps, run);
    if Undisturbed(run) { UndisturbedDropsNothing(Init(apps), run); }
    hide DoAll, Drops;
  }

  // ----- what the time-outs recover

  /** The display thread's own next move. */
  function Steer(s: State): Action {
    if s.thread == Asleep then Timeout else Thread(false)
  }

  function UntilRead(t: ThreadPc): nat {
    match t
    case Reading => 1
    case Checking(failed) => if failed then 6 else 2
    case Clearing(failed) => if failed then 7 else 3
    case Asleep => 4
    case Waiting => 5
    case _ => 6
  }

  /**
   Whatever was lost or torn lasts until the next time-out at most: from every reachable state that is not paused, the
   display thread on its own comes to read the address as it is, in at most seven moves.
   */
  lemma {:induction false} TimeoutRecovers(s: State) returns (run: seq<Action>)
    requires Safe(s) && s.start == Started && !s.paused
    ensures |run| <= UntilRead(s.thread) && forall i | 0 <= i < |run| :: run[i] in {Timeout, Thread(false)}
    ensures DoAll(s, run).Some?
    ensures var t := DoAll(s, run).value; t.seen == Some(s.adr) == Some(t.adr) && !t.owed && t.apps == s.apps
    decreases UntilRead(s.thread)
  {
    var s' := Do(s, Steer(s)).value;
    if s.thread == Reading {
      run := [Steer(s)];
      assert DoAll(s', run[1..]) == Some(s');
    } else {
      StepIsSafe(s, Steer(s));
      hide Safe;
      var rest := TimeoutRecovers(s');
      run := [Steer(s)] + rest;
      assert run[1..] == rest;
    }
  }

  // ----- one program thread: what is on the screen when all have come to rest

  /** What a commit leaves in the register is not the address zero, which stands for nothing committed yet. */
  predicate NonZero(s: State, a: Action)
    requires Do(s, a).Some?
  {
    a.CommitHigh? || a.CommitWord? ==> Do(s, a).value.committed != 0
  }

  predicate NonZeroCommits(s: State, run: seq<Action>)
    requires DoAll(s, run).Some?
    decreases |run|
  {
    run == [] || (NonZero(s, run[0]) && NonZeroCommits(Do(s, run[0]).value, run[1..]))
  }

  predicate Reads(s: State, a: Action) {
    a.Thread? && s.thread == Reading
  }

  /** The default address is written, and what was read before is no longer of interest. */
  predicate Defaults(s: State, a: Action) {
    a.Starter? && s.start == Defaulting
  }

  predicate NothingRead(s: State, run: seq<Action>)
    requires DoAll(s, run).Some?
    decreases |run|
  {
    run == []
    || (!Reads(s, run[0]) && !Defaults(s, run[0]) && NothingRead(Do(s, run[0]).value, run[1..]))
  }

  /** The thread's last read in the run, start-up behind it, did not fall between a half store and its commit. */
  predicate LastReadWhole(s: State, run: seq<Action>)
    requires DoAll(s, run).Some?
    decreases |run|
  {
    run != [] && var s' := Do(s, run[0]).value;
    (Reads(s, run[0]) && s.adr == s.committed && NothingRead(s', run[1..])) || LastReadWhole(s', run[1..])
  }

  lemma {:induction false} WholeBy(s: State, run: seq<Action>)
    requires DoAll(s, run).Some?
    ensures DoAll(s, run).value.whole <==> (s.whole && NothingRead(s, run)) || LastReadWhole(s, run)
    decreases |run|
  {
    if run != [] {
      WholeStep(s, run[0]);
      WholeBy(Do(s, run[0]).value, run[1..]);
      hide Do, Reads, Defaults;
    }
  }

  lemma WholeStep(s: State, a: Action)
    requires Do(s, a).Some?
    ensures Do(s, a).value.whole
      <==> (Reads(s, a) && s.adr == s.committed) || (s.whole && !Reads(s, a) && !Defaults(s, a))
  {
  }

  /** The program is about to ask for the address it has committed. */
  predicate Pending(s: State) {
    |s.apps| == 1 && match s.apps[0]
      case Comparing => s.committed != s.recorded
      case ComparingOld(adr, _) => adr != s.recorded
      case Setting(after) => after != Done
      case _ => false
  }

  predicate Tracked(s: State) {
    && |s.apps| == 1
    && (s.start != Started ==> s.apps[0] == Idle && s.recorded == 0 && s.adr == 0 && s.seen in {None, Some(0)})
    && (s.start == Started ==> s.committed != 0)
    && (match s.apps[0]
        case Idle => s.recorded in {0, s.committed}
        case Setting(after) =>
          if after == Done then s.recorded in {0, s.committed}
          else s.adr == s.committed && (after == Reread || after == Keep(s.committed))
        case Waking(after) =>
          if after == Done then s.recorded in {0, s.committed}
          else s.adr == s.committed && (after == Reread || after == Keep(s.committed))
        case ComparingOld(adr, _) => s.adr == s.committed == adr
        case Storing(adr) => s.adr == s.committed == adr
        case _ => s.adr == s.committed)
    && (s.start == Started && !s.owed && !Pending(s) ==> (s.seen == Some(s.committed) <==> s.whole))
  }

  lemma StepIsTracked(s: State, a: Action)
    requires Tracked(s) && Do(s, a).Some? && NonZero(s, a)
    ensures Tracked(Do(s, a).value)
  {
    hide ThreadStep, AppStep;
    match a
    case Thread(error) => ThreadIsTracked(s, error);
    case App(i) => AppIsTracked(s);
    case _ =>
  }

  /** The display thread's moves leave the program's side alone; only reading changes what has been seen. */
  lemma ThreadFrame(s: State, error: bool)
    requires ThreadStep(s, error).Some?
    ensures var t := ThreadStep(s, error).value;
      && t.apps == s.apps && t.adr == s.adr && t.committed == s.committed && t.recorded == s.recorded
      && (t.start == Started <==> s.start == Started)
      && (if s.thread == Reading then !t.owed && t.seen == Some(s.adr) && t.whole == (s.adr == s.committed)
          else t.owed == s.owed && t.seen == s.seen && t.whole == s.whole)
  {
    match s.thread
    case InitClear =>
    case InitWake =>
    case Waiting =>
    case Clearing(_) =>
    case Checking(_) =>
    case Reading =>
    case _ =>
  }

  lemma ThreadIsTracked(s: State, error: bool)
    requires Tracked(s) && ThreadStep(s, error).Some?
    ensures Tracked(ThreadStep(s, error).value)
  {
    hide ThreadStep;
    ThreadFrame(s, error);
  }

  lemma AppIsTracked(s: State)
    requires Tracked(s) && AppStep(s, 0).Some?
    ensures Tracked(AppStep(s, 0).value)
  {
    match s.apps[0]
    case Comparing =>
    case ComparingOld(_, _) =>
    case Setting(_) =>
    case Waking(_) =>
    case Recording =>
    case Storing(_) =>
    case Idle =>
  }

  lemma {:induction false} RunIsTracked(s: State, run: seq<Action>)
    requires Tracked(s) && DoAll(s, run).Some? && NonZeroCommits(s, run)
    ensures Tracked(DoAll(s, run).value)
    decreases |run|
  {
    if run != [] {
      hide Tracked, Do, NonZero;
      StepIsTracked(s, run[0]);
      RunIsTracked(Do(s, run[0]).value, run[1..]);
    }
  }

  /** Everything has stopped: no request under way, none owed, and no half store without its commit. */
  predicate AtRest(s: State) {
    && s.start == Started && s.thread == Asleep && (forall p | p in s.apps :: p == Idle)
    && !s.owed && s.adr == s.committed
  }

  /**
   Over every run with one program thread, pauses and errors included: at rest the committed address is on the screen
   exactly if the thread's last read did not fall between a half store and its commit.
   */
  lemma RestExactly(run: seq<Action>)
    requires DoAll(Init(1), run).Some? && NonZeroCommits(Init(1), run)
    ensures var s := DoAll(Init(1), run).value;
      AtRest(s) ==> (s.seen == Some(s.adr) <==> LastReadWhole(Init(1), run))
  {
    RunIsTracked(Init(1), run);
    WholeBy(Init(1), run);
    hide DoAll, NonZeroCommits, LastReadWhole, NothingRead;
    if AtRest(DoAll(Init(1), run).value) { OneIsIdle(DoAll(Init(1), run).value); }
  }

  lemma OneIsIdle(s: State)
    requires AtRest(s) && |s.apps| == 1
    ensures s.apps[0] == Idle
  {
    assert s.apps[0] in s.apps;
  }

  predicate NoHalfStores(run: seq<Action>) {
    forall i | 0 <= i < |run| :: !run[i].StoreLow?
  }

  /** Some commit has been recorded or is past its request. */
  predicate CommitDone(s: State) {
    s.recorded != 0 || (|s.apps| == 1 && match s.apps[0]
      case Waking(after) => after != Done
      case Recording => true
      case Storing(_) => true
      case _ => false)
  }

  predicate WholeOnly(s: State) {
    && |s.apps| == 1 && s.adr == s.committed
    && (s.start != Started ==> s.apps[0] == Idle && s.recorded == 0 && s.committed == 0)
    && (s.start == Started ==> s.committed != 0)
    && (match s.apps[0]
        case ComparingOld(adr, _) => adr == s.committed
        case Storing(adr) => adr == s.committed
        case Setting(Keep(adr)) => adr == s.committed
        case Waking(Keep(adr)) => adr == s.committed
        case _ => true)
    && (!s.owed && !Pending(s) && CommitDone(s) ==> s.whole)
  }

  lemma {:induction false} RunIsWhole(s: State, run: seq<Action>)
    requires WholeOnly(s) && DoAll(s, run).Some? && NonZeroCommits(s, run) && NoHalfStores(run)
    ensures WholeOnly(DoAll(s, run).value)
    decreases |run|
  {
    if run != [] {
      assert !run[0].StoreLow?;
      hide WholeOnly, Do, NonZero;
      StepIsWhole(s, run[0]);
      RunIsWhole(Do(s, run[0]).value, run[1..]);
    }
  }

  lemma StepIsWhole(s: State, a: Action)
    requires WholeOnly(s) && Do(s, a).Some? && NonZero(s, a) && !a.StoreLow?
    ensures WholeOnly(Do(s, a).value)
  {
    hide ThreadStep, AppStep;
    match a
    case Thread(error) => ThreadIsWhole(s, error);
    case App(i) => AppIsWhole(s);
    case _ =>
  }

  lemma ThreadIsWhole(s: State, error: bool)
    requires WholeOnly(s) && ThreadStep(s, error).Some?
    ensures WholeOnly(ThreadStep(s, error).value)
  {
    hide ThreadStep;
    ThreadFrame(s, error);
  }

  lemma AppIsWhole(s: State)
    requires WholeOnly(s) && AppStep(s, 0).Some?
    ensures WholeOnly(AppStep(s, 0).value)
  {
    match s.apps[0]
    case Comparing =>
    case ComparingOld(_, _) =>
    case Setting(_) =>
    case Waking(_) =>
    case Recording =>
    case Storing(_) =>
    case Idle =>
  }

  /** Without half stores the address at rest is the committed one from the first commit on. */
  lemma RestShowsCommitted(run: seq<Action>)
    requires DoAll(Init(1), run).Some? && NonZeroCommits(Init(1), run) && NoHalfStores(run)
    ensures var s := DoAll(Init(1), run).value;
      AtRest(s) && s.recorded != 0 ==> s.seen == Some(s.adr)
  {
    RunIsTracked(Init(1), run);
    RunIsWhole(Init(1), run);
    hide DoAll, NonZeroCommits, NoHalfStores;
    if AtRest(DoAll(Init(1), run).value) { OneIsIdle(DoAll(Init(1), run).value); }
  }

  // ----- runs that show the differences

  lemma {:induction false} DoAllThen(s: State, a: seq<Action>, b: seq<Action>)
    requires DoAll(s, a).Some?
    ensures DoAll(s, a + b) == DoAll(DoAll(s, a).value, b)
    decreases |a|
  {
    if a == [] {
      assert a + b == b;
    } else {
      assert (a + b)[1..] == a[1..] + b;
      DoAllThen(Do(s, a[0]).value, a[1..], b);
    }
  }

  /** A run with nothing in it but word stores, blits and what they cause. */
  predicate Fine(s0: State, run: seq<Action>) {
    DoAll(s0, run).Some? && Undisturbed(run) && NoHalfStores(run) && NonZeroCommits(s0, run)
  }

  lemma {:induction false} NonZeroThen(s0: State, run: seq<Action>, s: State, a: Action)
    requires DoAll(s0, run) == Some(s) && NonZeroCommits(s0, run) && Do(s, a).Some? && NonZero(s, a)
    ensures DoAll(s0, run + [a]) == Do(s, a) && NonZeroCommits(s0, run + [a])
    decreases |run|
  {
    hide Do, NonZero;
    if run == [] {
      assert run + [a] == [a];
    } else {
      assert (run + [a])[1..] == run[1..] + [a];
      NonZeroThen(Do(s0, run[0]).value, run[1..], s, a);
    }
  }

  lemma Then(s0: State, run: seq<Action>, s: State, a: Action, s': State)
    requires DoAll(s0, run) == Some(s) && Do(s, a) == Some(s')
    ensures DoAll(s0, run + [a]) == Some(s')
    ensures Undisturbed(run) && !a.Pause? && a != Thread(true) ==> Undisturbed(run + [a])
    ensures
      Fine(s0, run) && !a.Pause? && a != Thread(true) && !a.StoreLow? && NonZero(s, a) ==> Fine(s0, run + [a])
  {
    hide Do, NonZero;
    DoAllThen(s0, run, [a]);
    assert DoAll(s, [a]) == DoAll(s', []);
    if Fine(s0, run) && NonZero(s, a) { NonZeroThen(s0, run, s, a); }
  }

  /** The state once the program has started and the display thread sleeps, not having read anything. */
  function StartedUp(apps: seq<AppPc>): State {
    State(0, DEFAULT, 0, false, Asleep, Started, apps, false, false, None, DEFAULT, false)
  }

  const START := [Starter, Starter, Starter, Thread(false), Thread(false), Thread(false), Starter]

  lemma StartRuns(apps: nat)
    ensures DoAll(Init(apps), START) == Some(StartedUp(seq(apps, _ => Idle)))
    ensures Undisturbed(START) && NoHalfStores(START)
  {
    var s0 := Init(apps);
    var s1 := s0.(futex := 1, start := Cloning);
    var s2 := s1.(thread := InitClear, start := WaitOne);
    var s3 := s2.(start := AsleepOne);
    var s4 := s3.(futex := 0, thread := InitWake);
    var s5 := s4.(start := Defaulting, thread := Waiting);
    var s6 := s5.(thread := Asleep);
    assert DoAll(s6, START[6..]) == Some(StartedUp(seq(apps, _ => Idle)));
    assert DoAll(s5, START[5..]) == Some(StartedUp(seq(apps, _ => Idle)));
    assert DoAll(s4, START[4..]) == Some(StartedUp(seq(apps, _ => Idle)));
    assert DoAll(s3, START[3..]) == Some(StartedUp(seq(apps, _ => Idle)));
    assert DoAll(s2, START[2..]) == Some(StartedUp(seq(apps, _ => Idle)));
    assert DoAll(s1, START[1..]) == Some(StartedUp(seq(apps, _ => Idle)));
  }

  lemma StartRunsOne()
    ensures DoAll(Init(1), START) == Some(StartedUp([Idle])) && Undisturbed(START)
  {
    StartRuns(1);
    assert seq(1, _ => Idle) == [Idle];
    hide DoAll, Init, Undisturbed;
  }

  /** A program thread asks: it stores 1, and wakes the display thread if that is asleep. */
  lemma Requests(s0: State, before: seq<Action>, s: State, i: nat, after: After) returns (run: seq<Action>)
    requires DoAll(s0, before) == Some(s)
    requires i < |s.apps| && s.apps[i] == Setting(after) && s.start == Started && !s.dropped
    requires s.thread in {Asleep, Clearing(false)}
    ensures
      var next := match after case Done => Idle case Reread => Recording case Keep(adr) => Storing(adr);
      DoAll(s0, run) == Some(s.(futex := 1, owed := true, thread := Clearing(false), apps := s.apps[i := next]))
    ensures (Undisturbed(before) ==> Undisturbed(run)) && (Fine(s0, before) ==> Fine(s0, run))
  {
    hide DoAll, Undisturbed, Fine;
    run := before;
    var t := s.(futex := 1, owed := true, apps := s.apps[i := Waking(after)]);
    Then(s0, run, s, App(i), t);
    run := run + [App(i)];
    var next := match after case Done => Idle case Reread => Recording case Keep(adr) => Storing(adr);
    assert t.apps[i := next] == s.apps[i := next];
    Then(s0, run, t, App(i), t.(thread := Clearing(false), apps := t.apps[i := next]));
    run := run + [App(i)];
  }

  /** A blit while the thread is paused is lost, and ending the pause does not bring it back. */
  lemma PausedBlitIsLost() returns (run: seq<Action>)
    ensures DoAll(Init(1), run).Some?
    ensures var s := DoAll(Init(1), run).value; Lost(s) && !s.paused && s.thread == Waiting && s.apps == [Idle]
  {
    StartRunsOne();
    hide DoAll, Undisturbed, Fine, NonZero;
    run := START;
    var s0, s := Init(1), StartedUp([Idle]);
    Then(s0, run, s, Pause(true), s.(paused := true));
    run, s := run + [Pause(true)], s.(paused := true);
    Then(s0, run, s, Blit(0), s.(apps := s.apps[0 := Setting(Done)]));
    run, s := run + [Blit(0)], s.(apps := s.apps[0 := Setting(Done)]);
    run := Requests(s0, run, s, 0, Done);
    s := s.(futex := 1, owed := true, thread := Clearing(false), apps := s.apps[0 := Idle]);
    Then(s0, run, s, Thread(false), s.(futex := 0, thread := Checking(false)));
    run, s := run + [Thread(false)], s.(futex := 0, thread := Checking(false));
    Then(s0, run, s, Thread(false), s.(thread := Waiting, dropped := true));
    run, s := run + [Thread(false)], s.(thread := Waiting, dropped := true);
    Then(s0, run, s, Pause(false), s.(paused := false));
    run := run + [Pause(false)];
    assert s.apps == [Idle];
  }

  /** The program stores both halves of an address, and finds it is new. */
  lemma HalvesStored(target: Word) returns (run: seq<Action>)
    requires target != 0
    ensures Undisturbed(run)
    ensures DoAll(Init(1), run)
         == Some(State(0, target, 0, false, Asleep, Started, [Setting(Reread)], false, false, None, target, false))
  {
    StartRunsOne();
    hide DoAll, Undisturbed, Fine, NonZero;
    run := START;
    var s0, s := Init(1), StartedUp([Idle]);
    var low, high := target % 0x1_0000, target / 0x1_0000;
    var half: Word := DEFAULT / 0x1_0000 * 0x1_0000 + low;
    assert half % 0x1_0000 == low;
    Then(s0, run, s, StoreLow(0, low), s.(adr := half));
    run, s := run + [StoreLow(0, low)], s.(adr := half);
    Then(s0, run, s, CommitHigh(0, high), s.(adr := target, committed := target, apps := s.apps[0 := Comparing]));
    run, s := run + [CommitHigh(0, high)], s.(adr := target, committed := target, apps := s.apps[0 := Comparing]);
    Then(s0, run, s, App(0), s.(apps := s.apps[0 := ComparingOld(target, false)]));
    run, s := run + [App(0)], s.(apps := s.apps[0 := ComparingOld(target, false)]);
    Then(s0, run, s, App(0), s.(apps := s.apps[0 := Setting(Reread)]));
    run := run + [App(0)];
    assert s.apps[0 := Setting(Reread)] == [Setting(Reread)];
  }

  /** Then it asks and records it: a sleeping thread has been woken for it. */
  lemma FirstCommit(target: Word) returns (run: seq<Action>)
    requires target != 0
    ensures Undisturbed(run)
    ensures DoAll(Init(1), run)
         == Some(State(1, target, target, false, Clearing(false), Started, [Idle], true, false, None, target, false))
  {
    run := HalvesStored(target);
    hide DoAll, Undisturbed, Fine, NonZero;
    var s0 := Init(1);
    var s := State(0, target, 0, false, Asleep, Started, [Setting(Reread)], false, false, None, target, false);
    run := Requests(s0, run, s, 0, Reread);
    s := s.(futex := 1, owed := true, thread := Clearing(false), apps := s.apps[0 := Recording]);
    Then(s0, run, s, App(0), s.(apps := s.apps[0 := Storing(target)]));
    run, s := run + [App(0)], s.(apps := s.apps[0 := Storing(target)]);
    Then(s0, run, s, App(0), s.(recorded := target, apps := s.apps[0 := Idle]));
    run := run + [App(0)];
    assert s.apps[0 := Idle] == [Idle];
  }

  /** The thread goes once round from a clear futex to sleep, reading the address on the way. */
  lemma OnceRound(s0: State, before: seq<Action>, s: State) returns (run: seq<Action>)
    requires DoAll(s0, before) == Some(s) && s.thread == Clearing(false) && !s.paused && Undisturbed(before)
    ensures DoAll(s0, run) == Some(s.(futex := 0, thread := Asleep, seen := Some(s.adr), whole := s.adr == s.committed,
                                      owed := false, dropped := false))
    ensures Undisturbed(run) && (Fine(s0, before) ==> Fine(s0, run))
  {
    hide DoAll, Undisturbed, Fine;
    run := before;
    var t := s;
    Then(s0, run, t, Thread(false), t.(futex := 0, thread := Checking(false)));
    run, t := run + [Thread(false)], t.(futex := 0, thread := Checking(false));
    Then(s0, run, t, Thread(false), t.(thread := Reading));
    run, t := run + [Thread(false)], t.(thread := Reading);
    var u := t.(thread := Flipping, seen := Some(t.adr), whole := t.adr == t.committed, owed := false,
                dropped := false);
    Then(s0, run, t, Thread(false), u);
    run := run + [Thread(false)];
    Then(s0, run, u, Thread(false), u.(thread := Waiting));
    run, u := run + [Thread(false)], u.(thread := Waiting);
    Then(s0, run, u, Thread(false), u.(thread := Asleep));
    run := run + [Thread(false)];
  }

  /**
   The thread reads between a half store and its commit, the program then commits what it had committed before, no
   refresh is asked for, and all come to rest with the torn address on the screen.
   */
  lemma TornAddressRests(committed: Word, low: Half) returns (run: seq<Action>)
    requires committed != 0 && low != committed % 0x1_0000
    ensures Undisturbed(run) && DoAll(Init(1), run).Some?
    ensures var s := DoAll(Init(1), run).value;
      AtRest(s) && s.adr == committed && s.seen == Some(committed / 0x1_0000 * 0x1_0000 + low)
  {
    run := FirstCommit(committed);
    hide DoAll, Undisturbed;
    var s0, high, right: Half := Init(1), committed / 0x1_0000, committed % 0x1_0000;
    var torn: Word := high * 0x1_0000 + low;
    assert torn / 0x1_0000 == high && torn % 0x1_0000 == low;
    var s := State(1, committed, committed, false, Clearing(false), Started, [Idle], true, false, None, committed,
                   false);
    Then(s0, run, s, StoreLow(0, low), s.(adr := torn));
    run := OnceRound(s0, run + [StoreLow(0, low)], s.(adr := torn));
    s := State(0, torn, committed, false, Asleep, Started, [Idle], false, false, Some(torn), committed, false);
    Then(s0, run, s, StoreLow(0, right), s.(adr := committed));
    run := CommitAgain(s0, run + [StoreLow(0, right)], s.(adr := committed));
  }

  /** The program commits the address it has committed before: nothing is asked for. */
  lemma CommitAgain(s0: State, before: seq<Action>, s: State) returns (run: seq<Action>)
    requires DoAll(s0, before) == Some(s) && Undisturbed(before)
    requires s.start == Started && s.apps == [Idle] && s.adr == s.recorded == s.committed
    ensures DoAll(s0, run) == Some(s) && Undisturbed(run)
  {
    hide DoAll, Undisturbed;
    var high := s.adr / 0x1_0000;
    run := before;
    var t := s.(apps := s.apps[0 := Comparing]);
    Then(s0, run, s, CommitHigh(0, high), t);
    run := run + [CommitHigh(0, high)];
    Then(s0, run, t, App(0), t.(apps := t.apps[0 := ComparingOld(s.adr, false)]));
    run, t := run + [App(0)], t.(apps := t.apps[0 := ComparingOld(s.adr, false)]);
    Then(s0, run, t, App(0), t.(apps := t.apps[0 := Recording]));
    run, t := run + [App(0)], t.(apps := t.apps[0 := Recording]);
    Then(s0, run, t, App(0), t.(apps := t.apps[0 := Storing(s.adr)]));
    run, t := run + [App(0)], t.(apps := t.apps[0 := Storing(s.adr)]);
    assert t.apps[0 := Idle] == s.apps;
    Then(s0, run, t, App(0), s);
    run := run + [App(0)];
  }

  /** Without half stores, but with a second program thread: the first commits x, and before it asks, the other
   commits and records y. */
  lemma TwoCommits(x: Word, y: Word) returns (run: seq<Action>)
    requires x != y && x != 0 && y != 0
    ensures Fine(Init(2), run)
    ensures DoAll(Init(2), run)
         == Some(State(1, y, x, false, Clearing(false), Started, [Idle, Idle], true, false, None, y, false))
  {
    StartRunsTwo();
    hide DoAll, Undisturbed, Fine;
    run := START;
    Updated(Idle, Idle, ComparingOld(x, true));
    Updated(ComparingOld(x, true), Idle, ComparingOld(y, true));
    Updated(ComparingOld(x, true), ComparingOld(y, true), Idle);
    Updated(ComparingOld(x, true), Idle, Idle);
    var s0, s := Init(2), StartedUp([Idle, Idle]);
    var t := s.(adr := x, committed := x, apps := [ComparingOld(x, true), Idle]);
    Then(s0, run, s, CommitWord(0, x), t);
    run, s := run + [CommitWord(0, x)], t;
    t := s.(adr := y, committed := y, apps := [ComparingOld(x, true), ComparingOld(y, true)]);
    Then(s0, run, s, CommitWord(1, y), t);
    run := run + [CommitWord(1, y)];
    run := Asks(s0, run, t, 1, y);
    t := t.(futex := 1, owed := true, thread := Clearing(false), recorded := y, apps := [ComparingOld(x, true), Idle]);
    run := Asks(s0, run, t, 0, x);
  }

  lemma Updated(a: AppPc, b: AppPc, c: AppPc)
    ensures [a, b][0 := c] == [c, b] && [a, b][1 := c] == [a, c]
  {
  }

  lemma StartRunsTwo()
    ensures DoAll(Init(2), START) == Some(StartedUp([Idle, Idle])) && Fine(Init(2), START)
  {
    StartRuns(2);
    assert seq(2, _ => Idle) == [Idle, Idle];
    assert NonZeroCommits(Init(2), START) by { NothingCommitted(Init(2), START); }
    hide DoAll, Init, Undisturbed, NonZeroCommits;
  }

  lemma {:induction false} NothingCommitted(s: State, run: seq<Action>)
    requires DoAll(s, run).Some? && forall a | a in run :: !a.CommitHigh? && !a.CommitWord?
    ensures NonZeroCommits(s, run)
    decreases |run|
  {
    hide Do;
    if run != [] {
      assert run[0] in run;
      NothingCommitted(Do(s, run[0]).value, run[1..]);
    }
  }

  /** One program thread's four moves from comparing to recording, the display thread asleep or just woken. */
  lemma Asks(s0: State, before: seq<Action>, s: State, i: nat, adr: Word) returns (run: seq<Action>)
    requires DoAll(s0, before) == Some(s) && Fine(s0, before)
    requires i < |s.apps| && s.apps[i] == ComparingOld(adr, true) && adr != s.recorded
    requires s.start == Started && s.thread in {Asleep, Clearing(false)} && !s.dropped
    ensures Fine(s0, run)
    ensures DoAll(s0, run) == Some(s.(futex := 1, owed := true, thread := Clearing(false), recorded := adr,
                                      apps := s.apps[i := Idle]))
  {
    hide DoAll, Fine;
    run := before;
    var t := s.(apps := s.apps[i := Setting(Keep(adr))]);
    Then(s0, run, s, App(i), t);
    run := run + [App(i)];
    run := Requests(s0, run, t, i, Keep(adr));
    var v := t.(futex := 1, owed := true, thread := Clearing(false), apps := t.apps[i := Storing(adr)]);
    Then(s0, run, v, App(i), v.(recorded := adr, apps := v.apps[i := Idle]));
    run := run + [App(i)];
    assert v.apps[i := Idle] == s.apps[i := Idle];
  }

  /**
   With two program threads the address at rest can be another than the one read last, even without half stores,
   pauses and errors: the address recorded is the first thread's, the one on the screen the second's, and committing
   the first one again asks for nothing.
   */
  lemma SecondThreadHides(x: Word, y: Word) returns (run: seq<Action>)
    requires x != y && x != 0 && y != 0
    ensures Fine(Init(2), run)
    ensures var s := DoAll(Init(2), run).value; AtRest(s) && s.recorded == s.adr == x && s.seen == Some(y)
  {
    run := TwoCommits(x, y);
    hide DoAll, Undisturbed, Fine;
    var s0 := Init(2);
    Updated(Idle, Idle, ComparingOld(x, true));
    Updated(ComparingOld(x, true), Idle, Storing(x));
    Updated(Storing(x), Idle, Idle);
    var s := State(1, y, x, false, Clearing(false), Started, [Idle, Idle], true, false, None, y, false);
    FineIsUndisturbed(s0, run);
    run := OnceRound(s0, run, s);
    s := State(0, y, x, false, Asleep, Started, [Idle, Idle], false, false, Some(y), y, true);
    var t := s.(adr := x, committed := x, apps := [ComparingOld(x, true), Idle]);
    Then(s0, run, s, CommitWord(0, x), t);
    run := run + [CommitWord(0, x)];
    Then(s0, run, t, App(0), t.(apps := [Storing(x), Idle]));
    run, t := run + [App(0)], t.(apps := [Storing(x), Idle]);
    Then(s0, run, t, App(0), t.(apps := [Idle, Idle]));
    run := run + [App(0)];
    FineIsUndisturbed(s0, run);
  }

  lemma FineIsUndisturbed(s0: State, run: seq<Action>)
    requires Fine(s0, run)
    ensures Undisturbed(run) && DoAll(s0, run).Some?
  {
  }

  // ----- the start-up handshake

  /** Steps left until `emu_init` is through. */
  function Rank(s: State): nat {
    match s.start
    case SetOne => 6
    case Cloning => 5
    case WaitOne => 4
    case AsleepOne => if s.thread == InitClear then 3 else 2
    case Defaulting => 1
    case Started => 0
  }

  /** Whose turn it is to bring the start-up forward. */
  function Drive(s: State): Action {
    if s.start == AsleepOne then Thread(false) else Starter
  }

  /** The handshake cannot deadlock: a step towards its end is always possible, and no other step leads back. */
  lemma StartUpProgress(apps: nat, run: seq<Action>, a: Action)
    requires DoAll(Init(apps), run).Some?
    ensures var s := DoAll(Init(apps), run).value;
      && (s.start != Started ==> Do(s, Drive(s)).Some? && Rank(Do(s, Drive(s)).value) < Rank(s))
      && (Do(s, a).Some? ==> Rank(Do(s, a).value) <= Rank(s))
  {
    InitIsSafe(apps);
    RunIsSafe(Init(apps), run);
    RankNeverRises(DoAll(Init(apps), run).value, a);
    hide DoAll, Init;
  }

  lemma RankNeverRises(s: State, a: Action)
    requires Safe(s)
    ensures Do(s, a).Some? ==> Rank(Do(s, a).value) <= Rank(s)
  {
  }
}
