/** Worker supervision: any number of threads reap, restart, create and kill workers under
    one lock, with a quit flag that is read and written outside it. */
module Workers {
  import opened Wire

  type Pid = nat
  type Tid = nat

  /** Where a thread stands. Comments say which states hold the process lock. */
  datatype Pc =
    | Idle
    | Reaping                        // lock held, before waitpid
    | Waited(pid: Pid)               // lock held, waitpid has returned pid
    | Reaped(pid: Pid, tracked: bool)
    | Restarting(pid: Pid)
    | Erasing(pid: Pid)              // lock held
    | Erased(pid: Pid)
    | Retrying(pid: Pid)
    | Checking(pid: Pid)             // lock held, before the second look at the flag
    | Forking(pid: Pid)              // lock held
    | Forked(pid: Pid, child: Pid)   // lock held, the child is not registered yet
    | Spawning                       // lock held, for a create command
    | Spawned(child: Pid)            // lock held, the child is not registered yet
    | Quitting
    | Killing(todo: set<Pid>)        // lock held
  {
    predicate Holds() {
      Reaping? || Waited? || Erasing? || Checking? || Forking? || Forked? || Spawning? || Spawned? || Killing?
    }

    /** The thread owes a decision about a reaped worker. */
    predicate Pending() {
      Waited? || Reaped? || Restarting? || Erasing? || Erased? || Retrying? || Checking? || Forking? || Forked?
    }

    /** ... and the worker is still registered. */
    predicate Registered() {
      Waited? || Reaped? || Restarting? || Erasing?
    }

    predicate HasChild() {
      Forked? || Spawned?
    }
  }

  /** How a worker came to be; a raw one is forked and not registered yet. */
  datatype Origin = Raw | Command | For(lost: Pid)

  /** Running, ended, collected by the system, or returned by waitpid. */
  datatype Life = Running | Exited | Collected | Reaped

  /** What became of a reaped worker. */
  datatype Fate = NoFate | Owned(thread: Tid) | Replaced(successor: Pid) | Abandoned

  datatype Worker = Worker(origin: Origin, registered: bool, life: Life, fate: Fate, killed: bool)

  datatype Shared = Shared(threads: set<Tid>, lock: Option<Tid>, quit: bool, failed: bool, killDone: bool,
                           workers: map<Pid, Worker>)
  {
    function Unlock(): Shared { this.(lock := None) }

    function Set(p: Pid, w: Worker): Shared { this.(workers := workers[p := w]) }

    function Fork(c: Pid): Shared { Set(c, Worker(Raw, false, Running, NoFate, false)) }

    ghost function Abandon(p: Pid): Shared
      requires p in workers
    {
      Set(p, workers[p].(fate := Abandoned))
    }
  }

  datatype System = System(shared: Shared, pcs: map<Tid, Pc>)

  ghost predicate Init(s: System) {
    s.shared == Shared(s.pcs.Keys, None, false, false, false, map[]) && forall t :: t in s.pcs ==> s.pcs[t].Idle?
  }

  // ---------------------------------------------------------------- steps

  /** The workers that a thread has to do with exist. */
  predicate Known(s: Shared, pc: Pc) {
    (pc.Pending() ==> pc.pid in s.workers) && (pc.HasChild() ==> pc.child in s.workers)
  }

  ghost predicate Acquire(s: Shared, pc: Pc, r: Shared, to: Pc, t: Tid) {
    && s.lock.None? && r == s.(lock := Some(t))
    && match pc
       case Idle => to == Reaping || to == Spawning
       case Restarting(p) => to == Erasing(p)
       case Retrying(p) => to == Checking(p)
       case Quitting => to == Killing(set p | p in s.workers && s.workers[p].registered)
       case _ => false
  }

  /** childExsit: wait and look the pid up under the lock, then test the flag without it. */
  ghost predicate Reap(s: Shared, pc: Pc, r: Shared, to: Pc, t: Tid) {
    match pc
    case Reaping =>
      || (r == s.Unlock() && to == Idle)
      || (&& to.Waited? && to.pid in s.workers && s.workers[to.pid].life.Exited?
          && r == s.Set(to.pid, s.workers[to.pid].(life := Life.Reaped, fate := Owned(t))))
    case Waited(p) => p in s.workers && r == s.Unlock() && to == Pc.Reaped(p, s.workers[p].registered)
    case Reaped(p, tracked) =>
      && p in s.workers
      && if !s.quit && tracked then r == s && to == Restarting(p) else r == s.Abandon(p) && to == Idle
    case _ => false
  }

  /** restart_child_process: the old worker is erased under the lock. */
  ghost predicate Erase(s: Shared, pc: Pc, r: Shared, to: Pc)
    requires Known(s, pc)
  {
    match pc
    case Erasing(p) => r == s.Set(p, s.workers[p].(registered := false)).Unlock() && to == Erased(p)
    case Erased(p) => if s.quit then r == s.Abandon(p) && to == Idle else r == s && to == Retrying(p)
    case _ => false
  }

  /** ... then the flag is read again under the lock before a new one is forked. */
  ghost predicate Create(s: Shared, pc: Pc, r: Shared, to: Pc)
    requires Known(s, pc)
  {
    match pc
    case Checking(p) => if s.quit then r == s.Abandon(p).Unlock() && to == Idle else r == s && to == Forking(p)
    case Forking(p) =>
      || (r == s.Abandon(p).(failed := true).Unlock() && to == Idle)
      || (to.Forked? && to.pid == p && to.child !in s.workers && r == s.Fork(to.child))
    case _ => false
  }

  /** ... and the new worker is registered before the lock is released. */
  ghost predicate Register(s: Shared, pc: Pc, r: Shared, to: Pc)
    requires Known(s, pc)
  {
    match pc
    case Forked(p, c) =>
      && r == s.Set(c, s.workers[c].(registered := true, origin := For(p)))
               .Set(p, s.workers[p].(fate := Replaced(c))).Unlock()
      && to == Idle
    case _ => false
  }

  /** One round of the creation loop of cmd_create_process. */
  ghost predicate Spawn(s: Shared, pc: Pc, r: Shared, to: Pc)
    requires Known(s, pc)
  {
    match pc
    case Spawning =>
      || (r == s.Unlock() && to == Idle)
      || (to.Spawned? && to.child !in s.workers && r == s.Fork(to.child))
    case Spawned(c) => r == s.Set(c, s.workers[c].(registered := true, origin := Command)).Unlock() && to == Idle
    case _ => false
  }

  /** killallProcess. */
  ghost predicate Kill(s: Shared, pc: Pc, r: Shared, to: Pc) {
    match pc
    case Idle => r == s.(quit := true) && to == Quitting
    case Killing(todo) =>
      if todo == {} then r == s.(killDone := true).Unlock() && to == Idle
      else
        exists p ::
          p in todo && p in s.workers && r == s.Set(p, s.workers[p].(killed := true)) && to == Killing(todo - {p})
    case _ => false
  }

  ghost predicate Step(s: Shared, pc: Pc, r: Shared, to: Pc, t: Tid) {
    && Known(s, pc)
    && (|| Acquire(s, pc, r, to, t) || Reap(s, pc, r, to, t) || Erase(s, pc, r, to) || Create(s, pc, r, to)
        || Register(s, pc, r, to) || Spawn(s, pc, r, to) || Kill(s, pc, r, to))
  }

  /** A child ends; once killall ignores the signal, the system collects it. */
  ghost predicate Exit(s: Shared, r: Shared, p: Pid) {
    && p in s.workers && (s.workers[p].life.Running? || s.workers[p].life.Exited?)
    && (|| r == s.Set(p, s.workers[p].(life := Exited))
        || (s.quit && r == s.Set(p, s.workers[p].(life := Collected))))
  }

  // ---------------------------------------------------------------- what every step keeps

  /** Every worker is registered from its creation to its reaping, and a reaped one has
      one fate, which is bad only for a reason. */
  ghost predicate WorkerOk(s: Shared, w: Worker) {
    && (w.registered ==> !w.origin.Raw?)
    && (w.origin.Raw? ==> s.lock.Some? && !w.life.Reaped?)
    && (w.life.Reaped? <==> !w.fate.NoFate?)
    && (!w.registered && !w.origin.Raw? ==> w.life.Reaped?)
    && (w.fate.Owned? ==> w.fate.thread in s.threads)
    && (w.fate.Replaced? ==> !w.registered)
    && (w.fate.Abandoned? ==> s.quit || s.failed)
    && (s.killDone && w.origin.For? ==> w.killed || w.life.Reaped?)
  }

  /** A replacement and the worker it replaces name each other. */
  ghost predicate Paired(s: Shared, p: Pid)
    requires p in s.workers
  {
    var w := s.workers[p];
    && (w.origin.For? ==> w.origin.lost in s.workers && s.workers[w.origin.lost].fate == Replaced(p))
    && (w.fate.Replaced? ==> w.fate.successor in s.workers && s.workers[w.fate.successor].origin == For(p))
  }

  ghost predicate Global(s: Shared) {
    && (s.killDone ==> s.quit) && (s.lock.Some? ==> s.lock.value in s.threads)
    && forall p :: p in s.workers ==> WorkerOk(s, s.workers[p]) && Paired(s, p)
  }

  /** What thread t may rely on. */
  ghost predicate Local(s: Shared, t: Tid, pc: Pc) {
    && t in s.threads && (pc.Holds() <==> s.lock == Some(t))
    && (pc.HasChild() ==> pc.child in s.workers && s.workers[pc.child].origin.Raw?)
    && (pc.Pending() ==>
          && pc.pid in s.workers && s.workers[pc.pid].fate == Owned(t)
          && s.workers[pc.pid].registered == pc.Registered())
    && (forall p :: p in s.workers ==>
          && (s.workers[p].fate == Owned(t) ==> pc.Pending() && pc.pid == p)
          && (s.workers[p].origin.Raw? && pc.Holds() ==> pc.HasChild() && pc.child == p)
          && (s.workers[p].registered && pc.Killing? ==> s.workers[p].killed || p in pc.todo))
    && (pc.Reaped? ==> pc.tracked)
    && (pc.Quitting? || pc.Killing? ==> s.quit)
    && (pc.Forking? || pc.Forked? ==> !s.killDone)
  }

  /** The threads stay the same, and nothing is restarted after a kill. */
  ghost predicate Onward(s: Shared, r: Shared) {
    && r.threads == s.threads
    && (s.killDone ==>
          && r.killDone
          && forall p :: p in r.workers && r.workers[p].origin.For? <==> p in s.workers && s.workers[p].origin.For?)
  }

  /** A worker may change within its own bounds as long as no pairing does. */
  lemma SetKeeps(s: Shared, p: Pid, w: Worker)
    requires Global(s) && WorkerOk(s, w) && (w.origin.For? || w.fate.Replaced? ==> p in s.workers)
    requires p in s.workers ==>
      && (w.origin == s.workers[p].origin || (!w.origin.For? && !s.workers[p].origin.For?))
      && (w.fate == s.workers[p].fate || (!w.fate.Replaced? && !s.workers[p].fate.Replaced?))
    ensures Global(s.Set(p, w))
  {
    var r := s.Set(p, w);
    forall q | q in r.workers ensures WorkerOk(r, r.workers[q]) && Paired(r, q) {
      if q != p {
        assert WorkerOk(s, s.workers[q]) && Paired(s, q);
      } else if p in s.workers {
        assert Paired(s, p);
      }
    }
  }

  /** The lock is released when no worker is left unregistered. */
  lemma UnlockKeeps(s: Shared)
    requires Global(s) && forall p :: p in s.workers ==> !s.workers[p].origin.Raw?
    ensures Global(s.Unlock())
  {
    forall q | q in s.workers ensures WorkerOk(s.Unlock(), s.workers[q]) && Paired(s.Unlock(), q) {
      assert WorkerOk(s, s.workers[q]) && Paired(s, q);
    }
  }

  lemma FailKeeps(s: Shared)
    requires Global(s)
    ensures Global(s.(failed := true))
  {
    forall q | q in s.workers ensures WorkerOk(s.(failed := true), s.workers[q]) && Paired(s.(failed := true), q) {
      assert WorkerOk(s, s.workers[q]) && Paired(s, q);
    }
  }

  lemma AcquireKeeps(s: Shared, pc: Pc, r: Shared, to: Pc, t: Tid)
    requires Global(s) && Local(s, t, pc) && Acquire(s, pc, r, to, t)
    ensures Global(r) && Local(r, t, to) && Onward(s, r)
  {
  }

  lemma AcquireSpares(s: Shared, pc: Pc, r: Shared, to: Pc, t: Tid, u: Tid, other: Pc)
    requires Global(s) && Local(s, t, pc) && Acquire(s, pc, r, to, t) && t != u && Local(s, u, other)
    ensures Local(r, u, other)
  {
  }

  lemma ReapKeeps(s: Shared, pc: Pc, r: Shared, to: Pc, t: Tid)
    requires Global(s) && Local(s, t, pc) && Reap(s, pc, r, to, t)
    ensures Global(r)
  {
    if pc.Holds() && !to.Waited? {
      UnlockKeeps(s);
    } else if to.Waited? {
      SetKeeps(s, to.pid, s.workers[to.pid].(life := Life.Reaped, fate := Owned(t)));
    } else if to.Idle? {
      SetKeeps(s, pc.pid, s.workers[pc.pid].(fate := Abandoned));
    }
  }

  lemma ReapMoves(s: Shared, pc: Pc, r: Shared, to: Pc, t: Tid)
    requires Global(s) && Local(s, t, pc) && Reap(s, pc, r, to, t)
    ensures Local(r, t, to) && Onward(s, r)
  {
  }

  lemma ReapSpares(s: Shared, pc: Pc, r: Shared, to: Pc, t: Tid, u: Tid, other: Pc)
    requires Global(s) && Local(s, t, pc) && Reap(s, pc, r, to, t) && t != u && Local(s, u, other)
    ensures Local(r, u, other)
  {
  }

  lemma EraseKeeps(s: Shared, pc: Pc, r: Shared, to: Pc, t: Tid)
    requires Global(s) && Local(s, t, pc) && Erase(s, pc, r, to)
    ensures Global(r)
  {
    if pc.Erasing? {
      SetKeeps(s, pc.pid, s.workers[pc.pid].(registered := false));
      UnlockKeeps(s.Set(pc.pid, s.workers[pc.pid].(registered := false)));
    } else if to.Idle? {
      SetKeeps(s, pc.pid, s.workers[pc.pid].(fate := Abandoned));
    }
  }

  lemma EraseMoves(s: Shared, pc: Pc, r: Shared, to: Pc, t: Tid)
    requires Global(s) && Local(s, t, pc) && Erase(s, pc, r, to)
    ensures Local(r, t, to) && Onward(s, r)
  {
  }

  lemma EraseSpares(s: Shared, pc: Pc, r: Shared, to: Pc, t: Tid, u: Tid, other: Pc)
    requires Global(s) && Local(s, t, pc) && Erase(s, pc, r, to) && t != u && Local(s, u, other)
    ensures Local(r, u, other)
  {
  }

  lemma CreateKeeps(s: Shared, pc: Pc, r: Shared, to: Pc, t: Tid)
    requires Global(s) && Local(s, t, pc) && Create(s, pc, r, to)
    ensures Global(r)
  {
    if to.Forked? {
      SetKeeps(s, to.child, Worker(Raw, false, Running, NoFate, false));
    } else if to.Idle? {
      var f := s.(failed := r.failed);
      FailKeeps(s);
      SetKeeps(f, pc.pid, s.workers[pc.pid].(fate := Abandoned));
      UnlockKeeps(f.Abandon(pc.pid));
    }
  }

  lemma CreateMoves(s: Shared, pc: Pc, r: Shared, to: Pc, t: Tid)
    requires Global(s) && Local(s, t, pc) && Create(s, pc, r, to)
    ensures Local(r, t, to) && Onward(s, r)
  {
  }

  lemma CreateSpares(s: Shared, pc: Pc, r: Shared, to: Pc, t: Tid, u: Tid, other: Pc)
    requires Global(s) && Local(s, t, pc) && Create(s, pc, r, to) && t != u && Local(s, u, other)
    ensures Local(r, u, other)
  {
  }

  lemma RegisterKeeps(s: Shared, pc: Pc, r: Shared, to: Pc, t: Tid)
    requires Global(s) && Local(s, t, pc) && Register(s, pc, r, to)
    ensures Global(r)
  {
    forall q | q in r.workers ensures WorkerOk(r, r.workers[q]) && Paired(r, q) {
      assert WorkerOk(s, s.workers[q]) && Paired(s, q);
    }
  }

  lemma RegisterMoves(s: Shared, pc: Pc, r: Shared, to: Pc, t: Tid)
    requires Global(s) && Local(s, t, pc) && Register(s, pc, r, to)
    ensures Local(r, t, to) && Onward(s, r)
  {
  }

  lemma RegisterSpares(s: Shared, pc: Pc, r: Shared, to: Pc, t: Tid, u: Tid, other: Pc)
    requires Global(s) && Local(s, t, pc) && Register(s, pc, r, to) && t != u && Local(s, u, other)
    ensures Local(r, u, other)
  {
  }

  lemma SpawnKeeps(s: Shared, pc: Pc, r: Shared, to: Pc, t: Tid)
    requires Global(s) && Local(s, t, pc) && Spawn(s, pc, r, to)
    ensures Global(r)
  {
    if to.Spawned? {
      SetKeeps(s, to.child, Worker(Raw, false, Running, NoFate, false));
    } else if pc.Spawned? {
      var w := s.workers[pc.child].(registered := true, origin := Command);
      SetKeeps(s, pc.child, w);
      UnlockKeeps(s.Set(pc.child, w));
    } else {
      UnlockKeeps(s);
    }
  }

  lemma SpawnMoves(s: Shared, pc: Pc, r: Shared, to: Pc, t: Tid)
    requires Global(s) && Local(s, t, pc) && Spawn(s, pc, r, to)
    ensures Local(r, t, to) && Onward(s, r)
  {
  }

  lemma SpawnSpares(s: Shared, pc: Pc, r: Shared, to: Pc, t: Tid, u: Tid, other: Pc)
    requires Global(s) && Local(s, t, pc) && Spawn(s, pc, r, to) && t != u && Local(s, u, other)
    ensures Local(r, u, other)
  {
  }

  lemma KillKeeps(s: Shared, pc: Pc, r: Shared, to: Pc, t: Tid)
    requires Global(s) && Local(s, t, pc) && Kill(s, pc, r, to)
    ensures Global(r)
  {
    if pc.Killing? && pc.todo != {} {
      var p :| p in pc.todo && p in s.workers && r == s.Set(p, s.workers[p].(killed := true));
      SetKeeps(s, p, s.workers[p].(killed := true));
    } else {
      forall q | q in s.workers ensures WorkerOk(r, s.workers[q]) && Paired(r, q) {
        assert WorkerOk(s, s.workers[q]) && Paired(s, q);
      }
    }
  }

  lemma KillMoves(s: Shared, pc: Pc, r: Shared, to: Pc, t: Tid)
    requires Global(s) && Local(s, t, pc) && Kill(s, pc, r, to)
    ensures Local(r, t, to) && Onward(s, r)
  {
  }

  lemma KillSpares(s: Shared, pc: Pc, r: Shared, to: Pc, t: Tid, u: Tid, other: Pc)
    requires Global(s) && Local(s, t, pc) && Kill(s, pc, r, to) && t != u && Local(s, u, other)
    ensures Local(r, u, other)
  {
  }

  lemma ExitKeeps(s: Shared, r: Shared, p: Pid)
    requires Global(s) && Exit(s, r, p)
    ensures Global(r)
  {
    SetKeeps(s, p, r.workers[p]);
  }

  lemma ExitSpares(s: Shared, r: Shared, p: Pid, t: Tid, pc: Pc)
    requires Exit(s, r, p) && Local(s, t, pc)
    ensures Local(r, t, pc)
  {
  }

  // ---------------------------------------------------------------- runs

  ghost predicate ThreadStep(s: System, r: System, t: Tid, to: Pc) {
    t in s.pcs && Step(s.shared, s.pcs[t], r.shared, to, t) && r.pcs == s.pcs[t := to]
  }

  ghost predicate ExitStep(s: System, r: System, p: Pid) {
    Exit(s.shared, r.shared, p) && r.pcs == s.pcs
  }

  ghost predicate Next(s: System, r: System) {
    (exists t, to :: ThreadStep(s, r, t, to)) || (exists p :: ExitStep(s, r, p))
  }

  ghost predicate NextAt(run: seq<System>, i: nat)
    requires i + 1 < |run|
  {
    Next(run[i], run[i + 1])
  }

  ghost predicate Run(run: seq<System>) {
    run != [] && Init(run[0]) && forall i :: 0 <= i < |run| - 1 ==> NextAt(run, i)
  }

  ghost predicate Inv(s: System) {
    && Global(s.shared)
    && s.shared.threads == s.pcs.Keys
    && (forall t :: t in s.pcs ==> Local(s.shared, t, s.pcs[t]))
  }

  lemma StepKeeps(s: Shared, pc: Pc, r: Shared, to: Pc, t: Tid)
    requires Global(s) && Local(s, t, pc) && Step(s, pc, r, to, t)
    ensures Global(r) && Local(r, t, to) && Onward(s, r)
  {
    if Acquire(s, pc, r, to, t) { AcquireKeeps(s, pc, r, to, t); }
    else if Reap(s, pc, r, to, t) { ReapKeeps(s, pc, r, to, t); ReapMoves(s, pc, r, to, t); }
    else if Erase(s, pc, r, to) { EraseKeeps(s, pc, r, to, t); EraseMoves(s, pc, r, to, t); }
    else if Create(s, pc, r, to) { CreateKeeps(s, pc, r, to, t); CreateMoves(s, pc, r, to, t); }
    else if Register(s, pc, r, to) { RegisterKeeps(s, pc, r, to, t); RegisterMoves(s, pc, r, to, t); }
    else if Spawn(s, pc, r, to) { SpawnKeeps(s, pc, r, to, t); SpawnMoves(s, pc, r, to, t); }
    else { KillKeeps(s, pc, r, to, t); KillMoves(s, pc, r, to, t); }
  }

  /** A step of one thread leaves what every other thread relies on. */
  lemma StepSpares(s: Shared, pc: Pc, r: Shared, to: Pc, t: Tid, u: Tid, other: Pc)
    requires Global(s) && Local(s, t, pc) && Step(s, pc, r, to, t) && t != u && Local(s, u, other)
    ensures Local(r, u, other)
  {
    if Acquire(s, pc, r, to, t) { AcquireSpares(s, pc, r, to, t, u, other); }
    else if Reap(s, pc, r, to, t) { ReapSpares(s, pc, r, to, t, u, other); }
    else if Erase(s, pc, r, to) { EraseSpares(s, pc, r, to, t, u, other); }
    else if Create(s, pc, r, to) { CreateSpares(s, pc, r, to, t, u, other); }
    else if Register(s, pc, r, to) { RegisterSpares(s, pc, r, to, t, u, other); }
    else if Spawn(s, pc, r, to) { SpawnSpares(s, pc, r, to, t, u, other); }
    else { KillSpares(s, pc, r, to, t, u, other); }
  }

  lemma ThreadStepKeeps(s: System, r: System, t: Tid, to: Pc)
    requires Inv(s) && ThreadStep(s, r, t, to)
    ensures Inv(r)
  {
    StepKeeps(s.shared, s.pcs[t], r.shared, to, t);
    forall u | u in r.pcs ensures Local(r.shared, u, r.pcs[u]) {
      if u != t { StepSpares(s.shared, s.pcs[t], r.shared, to, t, u, s.pcs[u]); }
    }
  }

  lemma ExitStepKeeps(s: System, r: System, p: Pid)
    requires Inv(s) && ExitStep(s, r, p)
    ensures Inv(r)
  {
    ExitKeeps(s.shared, r.shared, p);
    forall u | u in r.pcs ensures Local(r.shared, u, r.pcs[u]) {
      ExitSpares(s.shared, r.shared, p, u, s.pcs[u]);
    }
  }

  lemma NextKeeps(s: System, r: System)
    requires Inv(s) && Next(s, r)
    ensures Inv(r)
  {
    if t, to :| ThreadStep(s, r, t, to) {
      ThreadStepKeeps(s, r, t, to);
    } else {
      var p :| ExitStep(s, r, p);
      ExitStepKeeps(s, r, p);
    }
  }

  lemma {:induction false} RunKeeps(run: seq<System>, k: nat)
    requires Run(run) && k < |run|
    ensures Inv(run[k])
  {
    if k > 0 {
      RunKeeps(run, k - 1);
      assert NextAt(run, k - 1);
      NextKeeps(run[k - 1], run[k]);
    }
  }

  /** In every run a worker that waitpid returns is registered, and every reaped worker is
      with the one thread that deals with it, or replaced by a worker of its own, or given
      up because of a quit or a failed creation. */
  lemma ReapedAreAccounted(run: seq<System>, k: nat)
    requires Run(run) && k < |run|
    ensures var s := run[k];
            && (forall t :: t in s.pcs && s.pcs[t].Reaped? ==> s.pcs[t].tracked)
            && forall p :: p in s.shared.workers && s.shared.workers[p].life.Reaped? ==>
                 match s.shared.workers[p].fate
                 case NoFate => false
                 case Owned(t) =>
                   && t in s.pcs && s.pcs[t].Pending() && s.pcs[t].pid == p
                   && forall u :: u in s.pcs && s.pcs[u].Pending() && s.pcs[u].pid == p ==> u == t
                 case Replaced(c) => c in s.shared.workers && s.shared.workers[c].origin == For(p)
                 case Abandoned => s.shared.quit || s.shared.failed
  {
    RunKeeps(run, k);
  }

  ghost function Restarted(s: Shared): set<Pid> {
    set p | p in s.workers && s.workers[p].origin.For?
  }

  lemma NoRestart(run: seq<System>, k: nat)
    requires Run(run) && k + 1 < |run| && run[k].shared.killDone
    ensures run[k + 1].shared.killDone && Restarted(run[k + 1].shared) == Restarted(run[k].shared)
  {
    RunKeeps(run, k);
    assert NextAt(run, k);
    var s, r := run[k], run[k + 1];
    if t, to :| ThreadStep(s, r, t, to) {
      StepKeeps(s.shared, s.pcs[t], r.shared, to, t);
    } else {
      var p :| ExitStep(s, r, p);
    }
  }

  /** Once a killall has left its critical section, nothing more is restarted ... */
  lemma {:induction false} NoRestartAfterKill(run: seq<System>, i: nat, k: nat)
    requires Run(run) && i <= k < |run| && run[i].shared.killDone
    ensures run[k].shared.killDone && Restarted(run[k].shared) == Restarted(run[i].shared)
  {
    if k > i {
      NoRestartAfterKill(run, i, k - 1);
      NoRestart(run, k - 1);
    }
  }

  /** ... and every worker ever restarted has been killed or reaped. */
  lemma RestartedAreKilled(run: seq<System>, i: nat, k: nat)
    requires Run(run) && i <= k < |run| && run[i].shared.killDone
    ensures var workers := run[k].shared.workers;
            forall p :: p in workers && workers[p].origin.For? ==> workers[p].killed || workers[p].life.Reaped?
  {
    NoRestartAfterKill(run, i, k);
    RunKeeps(run, k);
  }

  /** Two sets paired off one to one are of one size. */
  lemma {:induction false} SameSize(a: set<Pid>, b: set<Pid>, f: map<Pid, Pid>, g: map<Pid, Pid>)
    requires a <= f.Keys && b <= g.Keys
    requires forall p :: p in a ==> f[p] in b && g[f[p]] == p
    requires forall q :: q in b ==> g[q] in a && f[g[q]] == q
    ensures |a| == |b|
  {
    if a == {} {
      assert b == {};
    } else {
      var p :| p in a;
      SameSize(a - {p}, b - {f[p]}, f, g);
    }
  }

  lemma SameRest(all: set<Pid>, a: set<Pid>, b: set<Pid>, c: set<Pid>, d: set<Pid>)
    requires a + b == all == c + d && a !! b && c !! d && |b| == |d|
    ensures |a| == |c|
  {
    assert |a + b| == |a| + |b| && |c + d| == |c| + |d|;
  }

  ghost function Commanded(s: Shared): set<Pid> {
    set p | p in s.workers && s.workers[p].origin.Command?
  }

  ghost function Registered(s: Shared): set<Pid> {
    set p | p in s.workers && s.workers[p].registered
  }

  ghost function ReplacedOnes(s: Shared): set<Pid> {
    set p | p in s.workers && s.workers[p].fate.Replaced?
  }

  /** At rest every reaped worker is replaced and every other one is registered. */
  lemma AtRest(s: System, p: Pid)
    requires Inv(s) && (forall t :: t in s.pcs ==> s.pcs[t].Idle?)
    requires !s.shared.quit && !s.shared.failed && p in s.shared.workers
    ensures var w := s.shared.workers[p]; !w.origin.Raw? && w.registered == !w.fate.Replaced?
  {
    assert s.shared.lock.Some? ==> Local(s.shared, s.shared.lock.value, Idle);
    var w := s.shared.workers[p];
    assert w.fate.Owned? ==> Local(s.shared, w.fate.thread, Idle);
  }

  /** Whenever no thread is in the middle of something, nothing has failed and nobody quits,
      there are as many registered workers as commands have asked for. */
  lemma PoolIsKept(run: seq<System>, k: nat)
    requires Run(run) && k < |run| && !run[k].shared.quit && !run[k].shared.failed
    requires forall t :: t in run[k].pcs ==> run[k].pcs[t].Idle?
    ensures |Registered(run[k].shared)| == |Commanded(run[k].shared)|
  {
    RunKeeps(run, k);
    var s := run[k].shared;
    forall p | p in s.workers
      ensures !s.workers[p].origin.Raw? && s.workers[p].registered == !s.workers[p].fate.Replaced?
    {
      AtRest(run[k], p);
    }
    Balance(s);
  }

  lemma Balance(s: Shared)
    requires forall p :: p in s.workers ==> Paired(s, p)
    requires forall p :: p in s.workers ==>
               !s.workers[p].origin.Raw? && s.workers[p].registered == !s.workers[p].fate.Replaced?
    ensures |Registered(s)| == |Commanded(s)|
  {
    var f := map p | p in ReplacedOnes(s) :: s.workers[p].fate.successor;
    var g := map p | p in Restarted(s) :: s.workers[p].origin.lost;
    SameSize(ReplacedOnes(s), Restarted(s), f, g);
    SameRest(s.workers.Keys, Registered(s), ReplacedOnes(s), Commanded(s), Restarted(s));
  }

  // ---------------------------------------------------------------- what a thread can do

  ghost function Last(run: seq<System>): System
    requires run != []
  {
    run[|run| - 1]
  }

  lemma Extend(run: seq<System>, t: Tid, r: Shared, to: Pc) returns (more: seq<System>)
    requires Run(run) && t in Last(run).pcs && Step(Last(run).shared, Last(run).pcs[t], r, to, t)
    ensures Run(more) && run < more && Last(more) == System(r, Last(run).pcs[t := to])
  {
    more := run + [System(r, Last(run).pcs[t := to])];
    assert ThreadStep(Last(run), Last(more), t, to);
    forall i | 0 <= i < |more| - 1 ensures NextAt(more, i) {
      assert i < |run| - 1 ==> NextAt(run, i);
    }
  }

  lemma Lock(run: seq<System>, t: Tid, to: Pc) returns (more: seq<System>)
    requires Run(run) && t in Last(run).pcs && Known(Last(run).shared, Last(run).pcs[t])
    requires var s := Last(run).shared; Acquire(s, Last(run).pcs[t], s.(lock := Some(t)), to, t)
    ensures Run(more) && run < more
    ensures Last(more) == System(Last(run).shared.(lock := Some(t)), Last(run).pcs[t := to])
  {
    more := Extend(run, t, Last(run).shared.(lock := Some(t)), to);
  }

  /** A thread that is free can always collect a worker that has ended ... */
  lemma EndedIsReaped(run: seq<System>, t: Tid, p: Pid) returns (more: seq<System>)
    requires Run(run) && t in Last(run).pcs && Last(run).pcs[t].Idle?
    requires var s := Last(run).shared; s.lock.None? && p in s.workers && s.workers[p].life.Exited?
    ensures Run(more) && run < more
    ensures var s := Last(run).shared;
            Last(more) == System(s.Set(p, s.workers[p].(life := Life.Reaped, fate := Owned(t))).(lock := Some(t)),
                                 Last(run).pcs[t := Waited(p)])
  {
    var s := Last(run).shared;
    more := Lock(run, t, Reaping);
    var r := s.Set(p, s.workers[p].(life := Life.Reaped, fate := Owned(t))).(lock := Some(t));
    more := Extend(more, t, r, Waited(p));
  }

  /** ... and decide to restart it ... */
  lemma ReapedIsTaken(run: seq<System>, t: Tid, p: Pid) returns (more: seq<System>)
    requires Run(run) && t in Last(run).pcs && Last(run).pcs[t] == Waited(p)
    requires var s := Last(run).shared; !s.quit && p in s.workers && s.workers[p].registered
    ensures Run(more) && run < more
    ensures Last(more) == System(Last(run).shared.Unlock(), Last(run).pcs[t := Restarting(p)])
  {
    more := Extend(run, t, Last(run).shared.Unlock(), Pc.Reaped(p, true));
    more := Extend(more, t, Last(more).shared, Restarting(p));
  }

  /** ... then drop its registration ... */
  lemma TakenIsErased(run: seq<System>, t: Tid, p: Pid) returns (more: seq<System>)
    requires Run(run) && t in Last(run).pcs && Last(run).pcs[t] == Restarting(p)
    requires var s := Last(run).shared; s.lock.None? && !s.quit && p in s.workers
    ensures Run(more) && run < more
    ensures var s := Last(run).shared;
            Last(more) == System(s.Set(p, s.workers[p].(registered := false)), Last(run).pcs[t := Retrying(p)])
  {
    var s := Last(run).shared;
    var r := s.Set(p, s.workers[p].(registered := false));
    more := Lock(run, t, Erasing(p));
    more := Extend(more, t, r, Erased(p));
    more := Extend(more, t, r, Retrying(p));
  }

  /** ... look at the flag again ... */
  lemma ErasedIsChecked(run: seq<System>, t: Tid, p: Pid) returns (more: seq<System>)
    requires Run(run) && t in Last(run).pcs && Last(run).pcs[t] == Retrying(p)
    requires var s := Last(run).shared; s.lock.None? && !s.quit && p in s.workers
    ensures Run(more) && run < more
    ensures Last(more) == System(Last(run).shared.(lock := Some(t)), Last(run).pcs[t := Forking(p)])
  {
    more := Lock(run, t, Checking(p));
    more := Extend(more, t, Last(more).shared, Forking(p));
  }

  /** ... and start another in its place. */
  lemma CheckedIsReplaced(run: seq<System>, t: Tid, p: Pid, c: Pid) returns (more: seq<System>)
    requires Run(run) && t in Last(run).pcs && Last(run).pcs[t] == Forking(p)
    requires var s := Last(run).shared; p in s.workers && c !in s.workers
    ensures Run(more) && run < more
    ensures var s := Last(run).shared;
            Last(more) == System(s.Set(c, Worker(For(p), true, Running, NoFate, false))
                                  .Set(p, s.workers[p].(fate := Replaced(c))).Unlock(),
                                 Last(run).pcs[t := Idle])
  {
    var s := Last(run).shared;
    var r := s.Set(c, Worker(For(p), true, Running, NoFate, false)).Set(p, s.workers[p].(fate := Replaced(c)));
    more := Extend(run, t, s.Fork(c), Forked(p, c));
    assert s.Fork(c).Set(c, Worker(For(p), true, Running, NoFate, false))
           .Set(p, s.workers[p].(fate := Replaced(c))) == r;
    more := Extend(more, t, r.Unlock(), Idle);
  }

  lemma EndedIsErased(run: seq<System>, t: Tid, p: Pid) returns (more: seq<System>)
    requires Run(run) && t in Last(run).pcs && Last(run).pcs[t].Idle?
    requires var s := Last(run).shared; s.lock.None? && !s.quit && p in s.workers && s.workers[p].life.Exited?
    ensures Run(more) && run < more
    ensures var s := Last(run).shared;
            Last(more) == System(s.Set(p, s.workers[p].(life := Life.Reaped, registered := false, fate := Owned(t))),
                                 Last(run).pcs[t := Retrying(p)])
  {
    RunKeeps(run, |run| - 1);
    assert WorkerOk(Last(run).shared, Last(run).shared.workers[p]);
    more := EndedIsReaped(run, t, p);
    more := ReapedIsTaken(more, t, p);
    more := TakenIsErased(more, t, p);
  }

  /** Whenever a worker has ended, a thread is free, the lock is too and nobody quits, the run
      can go on until the worker is replaced, and nothing else is changed by that. */
  lemma LostCanBeReplaced(run: seq<System>, t: Tid, p: Pid, c: Pid) returns (more: seq<System>)
    requires Run(run) && t in Last(run).pcs && Last(run).pcs[t].Idle?
    requires var s := Last(run).shared;
             s.lock.None? && !s.quit && p in s.workers && s.workers[p].life.Exited? && c !in s.workers
    ensures Run(more) && run < more && Last(more).pcs == Last(run).pcs
    ensures var s := Last(run).shared;
            Last(more).shared ==
            s.Set(c, Worker(For(p), true, Running, NoFate, false))
             .Set(p, s.workers[p].(life := Life.Reaped, registered := false, fate := Replaced(c)))
  {
    more := EndedIsErased(run, t, p);
    more := ErasedIsChecked(more, t, p);
    more := CheckedIsReplaced(more, t, p, c);
    var s := Last(run).shared;
    assert Last(more).shared.workers ==
           s.workers[c := Worker(For(p), true, Running, NoFate, false)]
                    [p := s.workers[p].(life := Life.Reaped, registered := false, fate := Replaced(c))];
    assert Last(more).pcs == Last(run).pcs;
  }

  /** A create command can add one registered worker. */
  lemma CommandCanBeServed(run: seq<System>, t: Tid, c: Pid) returns (more: seq<System>)
    requires Run(run) && t in Last(run).pcs && Last(run).pcs[t].Idle?
    requires Last(run).shared.lock.None? && c !in Last(run).shared.workers
    ensures Run(more) && run < more && Last(more).pcs == Last(run).pcs
    ensures Last(more).shared == Last(run).shared.Set(c, Worker(Command, true, Running, NoFate, false))
  {
    var s := Last(run).shared;
    var held := s.(lock := Some(t));
    var r := s.Set(c, Worker(Command, true, Running, NoFate, false));
    more := Lock(run, t, Spawning);
    more := Extend(more, t, held.Fork(c), Spawned(c));
    assert held.Fork(c).Set(c, Worker(Command, true, Running, NoFate, false)).Unlock() == r;
    more := Extend(more, t, r, Idle);
    assert Last(more).pcs == Last(run).pcs;
  }

  ghost function Killed(s: Shared, todo: set<Pid>): Shared {
    s.(workers := map p | p in s.workers :: if p in todo then s.workers[p].(killed := true) else s.workers[p])
  }

  lemma {:induction false} AllCanBeKilled(run: seq<System>, t: Tid, todo: set<Pid>) returns (more: seq<System>)
    requires Run(run) && t in Last(run).pcs && Last(run).pcs[t] == Killing(todo)
    requires todo <= Last(run).shared.workers.Keys
    ensures Run(more) && run < more
    ensures Last(more) == System(Killed(Last(run).shared, todo).(killDone := true).Unlock(),
                                 Last(run).pcs[t := Idle])
    decreases todo
  {
    var s := Last(run).shared;
    if todo == {} {
      assert Killed(s, todo).workers == s.workers;
      more := Extend(run, t, s.(killDone := true).Unlock(), Idle);
    } else {
      var p :| p in todo;
      var r := s.Set(p, s.workers[p].(killed := true));
      more := Extend(run, t, r, Killing(todo - {p}));
      more := AllCanBeKilled(more, t, todo - {p});
      assert Killed(r, todo - {p}).workers == Killed(s, todo).workers;
    }
  }

  /** A killall can always run to its end, and it kills the registered workers and no other. */
  lemma KillCanEnd(run: seq<System>, t: Tid) returns (more: seq<System>)
    requires Run(run) && t in Last(run).pcs && Last(run).pcs[t].Idle? && Last(run).shared.lock.None?
    ensures Run(more) && run < more && Last(more).pcs == Last(run).pcs
    ensures Last(more).shared ==
            Killed(Last(run).shared, Registered(Last(run).shared)).(quit := true, killDone := true)
  {
    var s := Last(run).shared;
    more := Extend(run, t, s.(quit := true), Quitting);
    more := Lock(more, t, Killing(Registered(s)));
    more := AllCanBeKilled(more, t, Registered(s));
    assert Last(more).pcs == Last(run).pcs;
  }
}
