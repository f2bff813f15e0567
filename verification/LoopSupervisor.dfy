/** crates/ostrom-cli/src/loop_supervisor.rs, lines 32-651, with the worker half in
    crates/ostrom-cli/src/main.rs, lines 1450-1471. A timer reconciles the declared loops with
    one record file per loop; the workers it spawns write the same records.

    Every operation on a record is one step of a transition system, so that workers, crashes and
    policy changes may fall between any two of them. */
module LoopSupervisor {
  import opened Wrappers

  datatype Status =
    | Starting
    | Running
    | Completed
    | Failed
    | Stopped
    | Stale
    | Inconclusive
    | SkippedPreviousLive
    | AdmissionHeld
  {
    predicate RetriedEveryTick() {
      Inconclusive? || AdmissionHeld?
    }

    predicate MayBeAlive() {
      Starting? || Running? || SkippedPreviousLive?
    }
  }

  // A process identity: a pid together with its start time.
  type Pid = nat

  // The activation slots of a loop in their order in time.
  type Slot = nat

  datatype Record = Record(version: string, slot: Slot, status: Status, pid: Option<Pid>)

  // A spawned process; it is registered once its record carries its identity.
  datatype Worker = Worker(name: string, version: string, slot: Slot, registered: bool)

  datatype Launch = Launch(name: string, version: string, slot: Slot)

  datatype World = World(
    digest: string,
    declared: set<string>,
    records: map<string, Record>,
    workers: map<Pid, Worker>,
    launches: seq<Launch>)

  datatype Ceiling = Within | Exceeded | Unmeasured

  // What one look at one loop meets outside the records.
  datatype Tick = Tick(
    resolvable: bool,
    slot: Option<Slot>,
    running: bool,
    slotTooOld: bool,
    ceiling: Ceiling,
    admissionHeld: bool,
    logWritable: bool,
    spawned: Option<Pid>)

  datatype Outcome = NotDue | Unchanged | Skipped | StaleSlot | CeilingStopped | Held | Started | Fault

  // ---- One loop of a reconciliation ----

  predicate Settled(w: World, name: string, slot: Slot) {
    && name in w.records
    && w.records[name].version == w.digest
    && w.records[name].slot == slot
    && !w.records[name].status.RetriedEveryTick()
  }

  predicate PreviousLive(w: World, name: string, running: bool) {
    name in w.records && w.records[name].status.MayBeAlive() && w.records[name].pid.Some? && running
  }

  function Write(w: World, name: string, slot: Slot, status: Status, pid: Option<Pid>): World {
    w.(records := w.records[name := Record(w.digest, slot, status, pid)])
  }

  // A record is written before its log line, so a log fault leaves it written.
  function WriteAndLog(w: World, name: string, slot: Slot, status: Status, pid: Option<Pid>, tick: Tick, outcome: Outcome)
    : (World, Outcome)
  {
    (Write(w, name, slot, status, pid), if tick.logWritable then outcome else Fault)
  }

  function LaunchWorker(w: World, name: string, slot: Slot, tick: Tick): (World, Outcome) {
    var starting := Write(w, name, slot, Starting, None);
    if !tick.logWritable then (starting, Fault)
    else
      match tick.spawned
      case None => (Write(w, name, slot, Failed, None), Fault)
      case Some(pid) =>
        (starting.(workers := w.workers[pid := Worker(name, w.digest, slot, false)],
                   launches := w.launches + [Launch(name, w.digest, slot)]),
         Started)
  }

  function ReconcileLoop(w: World, name: string, tick: Tick): (World, Outcome) {
    if !tick.resolvable then (w, Fault)
    else
      match tick.slot
      case None => (w, NotDue)
      case Some(slot) =>
        if Settled(w, name, slot) then (w, Unchanged)
        else if PreviousLive(w, name, tick.running) then
          WriteAndLog(w, name, slot, SkippedPreviousLive, w.records[name].pid, tick, Skipped)
        else if tick.slotTooOld then WriteAndLog(w, name, slot, Stale, None, tick, StaleSlot)
        else if tick.ceiling == Exceeded then WriteAndLog(w, name, slot, Stopped, None, tick, CeilingStopped)
        else if tick.ceiling == Unmeasured then (w, Fault)
        else if tick.admissionHeld then WriteAndLog(w, name, slot, AdmissionHeld, None, tick, Held)
        else LaunchWorker(w, name, slot, tick)
  }

  // ---- Stopping workers of an old policy ----

  predicate Obsolete(w: World, name: string) {
    && name in w.records
    && w.records[name].status.MayBeAlive()
    && (name !in w.declared || w.records[name].version != w.digest)
  }

  // The fault is a missing identity or an unconfirmed termination.
  function StopObsolete(w: World, name: string, terminated: bool): (World, bool) {
    if !Obsolete(w, name) then (w, true)
    else if w.records[name].pid.None? || !terminated then (w, false)
    else
      (w.(records := w.records[name := w.records[name].(status := Stopped, pid := None)],
          workers := w.workers - {w.records[name].pid.value}),
       true)
  }

  // ---- The worker half ----

  // A skip record describes the skipped slot and keeps its status.
  function FinishRecord(w: World, name: string, succeeded: bool): World {
    if name !in w.records then w
    else
      var r := w.records[name].(pid := None);
      w.(records := w.records[name :=
        if r.status.SkippedPreviousLive? then r else r.(status := if succeeded then Completed else Failed)])
  }

  predicate MayRegister(w: World, worker: Worker) {
    && w.digest == worker.version
    && worker.name in w.declared
    && (worker.name in w.records ==>
          w.records[worker.name].version == worker.version && w.records[worker.name].slot == worker.slot)
  }

  // A refused worker marks the record finished and exits.
  function WorkerStarted(w: World, pid: Pid, policyLoads: bool): World
    requires pid in w.workers
  {
    var worker := w.workers[pid];
    if policyLoads && MayRegister(w, worker) then
      w.(records := w.records[worker.name := Record(worker.version, worker.slot, Running, Some(pid))],
         workers := w.workers[pid := worker.(registered := true)])
    else FinishRecord(w, worker.name, false).(workers := w.workers - {pid})
  }

  function WorkerFinished(w: World, pid: Pid, succeeded: bool): World
    requires pid in w.workers
  {
    FinishRecord(w, w.workers[pid].name, succeeded).(workers := w.workers - {pid})
  }

  // ---- Runs ----

  datatype Event =
    | StopEvent(name: string, terminated: bool)
    | ReconcileEvent(name: string, tick: Tick)
    | StartEvent(pid: Pid, policyLoads: bool)
    | FinishEvent(pid: Pid, succeeded: bool)
    | CrashEvent(pid: Pid)
    | PolicyEvent(digest: string, declared: set<string>)

  // A live process is seen to run, a new process has a new identity, and only a live
  // worker acts.
  predicate Allowed(w: World, e: Event) {
    match e
    case StopEvent(_, _) => true
    case ReconcileEvent(name, tick) =>
      && name in w.declared
      && (name in w.records && w.records[name].pid.Some? && w.records[name].pid.value in w.workers ==> tick.running)
      && (tick.spawned.Some? ==> tick.spawned.value !in w.workers)
    case StartEvent(pid, _) => pid in w.workers && !w.workers[pid].registered
    case FinishEvent(pid, _) => pid in w.workers && w.workers[pid].registered
    case CrashEvent(pid) => pid in w.workers
    case PolicyEvent(_, _) => true
  }

  function Apply(w: World, e: Event): World
    requires Allowed(w, e)
  {
    match e
    case StopEvent(name, terminated) => StopObsolete(w, name, terminated).0
    case ReconcileEvent(name, tick) => ReconcileLoop(w, name, tick).0
    case StartEvent(pid, policyLoads) => WorkerStarted(w, pid, policyLoads)
    case FinishEvent(pid, succeeded) => WorkerFinished(w, pid, succeeded)
    case CrashEvent(pid) => w.(workers := w.workers - {pid})
    case PolicyEvent(digest, declared) => w.(digest := digest, declared := declared)
  }

  // ---- What a look at one loop decides ----

  // The slot is over: its record has an outcome, and not one that is tried again.
  predicate SlotOver(w: World, name: string, slot: Slot) {
    && name in w.records && w.records[name].version == w.digest && w.records[name].slot == slot
    && w.records[name].status != Inconclusive && w.records[name].status != AdmissionHeld
  }

  // The record names a process that runs, with a status in which the worker has not ended.
  predicate WorkerRuns(w: World, name: string, tick: Tick) {
    && name in w.records && w.records[name].status in [Starting, Running, SkippedPreviousLive]
    && w.records[name].pid.Some? && tick.running
  }

  // A slot is due that is not over.
  predicate SlotDue(w: World, name: string, tick: Tick) {
    tick.resolvable && tick.slot.Some? && !SlotOver(w, name, tick.slot.value)
  }

  predicate MayLaunch(w: World, name: string, tick: Tick) {
    && SlotDue(w, name, tick)
    && !WorkerRuns(w, name, tick)
    && !tick.slotTooOld && tick.ceiling == Within && !tick.admissionHeld
  }

  /** A worker is launched exactly when a slot is due that is not over or too old, no worker of the loop runs, the
      loop is within its ceilings and admitted, and the log and the spawn succeed. */
  lemma LaunchesExactly(w: World, name: string, tick: Tick)
    ensures var (after, outcome) := ReconcileLoop(w, name, tick);
      && (outcome == Started <==> MayLaunch(w, name, tick) && tick.logWritable && tick.spawned.Some?)
      && after.launches == (if outcome == Started then w.launches + [Launch(name, w.digest, tick.slot.value)] else w.launches)
      && after.workers == (if outcome == Started then w.workers[tick.spawned.value := Worker(name, w.digest, tick.slot.value, false)]
                           else w.workers)
  {
  }

  // What is written to the record of the slot that is due.
  predicate Records(w: World, name: string, tick: Tick, status: Status, pid: Option<Pid>) {
    tick.slot.Some? && ReconcileLoop(w, name, tick).0.records == w.records[name := Record(w.digest, tick.slot.value, status, pid)]
  }

  /** Each refusal is recorded under its own status, the first that applies, and nothing else is written. */
  lemma RecordsExactly(w: World, name: string, tick: Tick)
    requires SlotDue(w, name, tick)
    ensures var runs := WorkerRuns(w, name, tick);
      && (runs ==> Records(w, name, tick, SkippedPreviousLive, w.records[name].pid))
      && (!runs && tick.slotTooOld ==> Records(w, name, tick, Stale, None))
      && (!runs && !tick.slotTooOld && tick.ceiling == Exceeded ==> Records(w, name, tick, Stopped, None))
      && (!runs && !tick.slotTooOld && tick.ceiling == Unmeasured ==> ReconcileLoop(w, name, tick) == (w, Fault))
      && (!runs && !tick.slotTooOld && tick.ceiling == Within && tick.admissionHeld ==> Records(w, name, tick, AdmissionHeld, None))
      && (MayLaunch(w, name, tick) && !(tick.logWritable && tick.spawned.None?) ==> Records(w, name, tick, Starting, None))
      && (MayLaunch(w, name, tick) && tick.logWritable && tick.spawned.None? ==> Records(w, name, tick, Failed, None))
  {
  }

  // The outcome names the refusal; a loop without a due slot, or with one that is over, is left alone.
  lemma OutcomesExactly(w: World, name: string, tick: Tick)
    ensures !SlotDue(w, name, tick) ==>
      ReconcileLoop(w, name, tick) == (w, if !tick.resolvable then Fault else if tick.slot.None? then NotDue else Unchanged)
    ensures SlotDue(w, name, tick) && !tick.logWritable ==> ReconcileLoop(w, name, tick).1 == Fault
    ensures SlotDue(w, name, tick) && tick.logWritable ==>
      var runs, outcome := WorkerRuns(w, name, tick), ReconcileLoop(w, name, tick).1;
      && (outcome == Skipped <==> runs)
      && (outcome == StaleSlot <==> !runs && tick.slotTooOld)
      && (outcome == CeilingStopped <==> !runs && !tick.slotTooOld && tick.ceiling == Exceeded)
      && (outcome == Held <==> !runs && !tick.slotTooOld && tick.ceiling == Within && tick.admissionHeld)
      && outcome != NotDue && outcome != Unchanged
  {
  }

  // An attempt held by admission is tried again at the same slot.
  lemma HeldIsTriedAgain(w: World, name: string, first: Tick, second: Tick)
    requires SlotDue(w, name, first) && !WorkerRuns(w, name, first) && !first.slotTooOld && first.ceiling == Within && first.admissionHeld
    requires second == first.(admissionHeld := false, running := false, logWritable := true) && second.spawned.Some?
    ensures ReconcileLoop(ReconcileLoop(w, name, first).0, name, second).1 == Started
  {
  }

  // A worker may be stopped for an old policy exactly when its record may be alive under another version or an
  // undeclared loop; it ends only with a confirmed identity.
  lemma StopsExactly(w: World, name: string, terminated: bool)
    ensures var (after, ok) := StopObsolete(w, name, terminated);
      var obsolete := name in w.records && w.records[name].status in [Starting, Running, SkippedPreviousLive] &&
                      (name !in w.declared || w.records[name].version != w.digest);
      && (ok <==> (obsolete ==> terminated && w.records[name].pid.Some?))
      && after.digest == w.digest && after.declared == w.declared && after.launches == w.launches
      && (!(obsolete && ok) ==> after == w)
      && (obsolete && ok ==>
            && after.workers == w.workers - {w.records[name].pid.value}
            && after.records == w.records[name := Record(w.records[name].version, w.records[name].slot, Stopped, None)])
  {
  }

  /** A worker registers exactly when the policy loads and is still its own, the loop is declared, and the record, if
      there is one, is for its slot; a refused one marks a record that is there as failed. */
  lemma RegistersExactly(w: World, pid: Pid, policyLoads: bool)
    requires pid in w.workers
    ensures var worker, after := w.workers[pid], WorkerStarted(w, pid, policyLoads); var name := worker.name;
      var matches := policyLoads && w.digest == worker.version && name in w.declared &&
        (name in w.records ==> w.records[name].version == worker.version && w.records[name].slot == worker.slot);
      && after.launches == w.launches && after.digest == w.digest && after.declared == w.declared
      && (matches ==>
            && after.records == w.records[name := Record(worker.version, worker.slot, Running, Some(pid))]
            && after.workers == w.workers[pid := Worker(name, worker.version, worker.slot, true)])
      && (!matches ==> after == WorkerFinished(w, pid, false))
  {
  }

  // A finished worker is gone and its record names nobody; the record of a skipped slot keeps its status.
  lemma FinishesExactly(w: World, pid: Pid, succeeded: bool)
    requires pid in w.workers
    ensures var name, after := w.workers[pid].name, WorkerFinished(w, pid, succeeded);
      && after.workers == w.workers - {pid} && after.launches == w.launches
      && (name !in w.records ==> after.records == w.records)
      && (name in w.records ==>
            var r := w.records[name];
            after.records == w.records[name := Record(r.version, r.slot,
              if r.status == SkippedPreviousLive then SkippedPreviousLive else if succeeded then Completed else Failed, None)])
  {
  }

  // ---- One worker for each loop ----

  // A registered worker is the one its record names, with a status that may be alive. A
  // worker that has not registered finds its record as it was written for it.
  predicate AgreesWithRecord(records: map<string, Record>, p: Pid, worker: Worker) {
    && worker.name in records
    && var r := records[worker.name];
       if worker.registered then r.pid == Some(p) && r.status.MayBeAlive()
       else r == Record(worker.version, worker.slot, Starting, None)
  }

  ghost predicate OneWorkerEach(workers: map<Pid, Worker>) {
    forall p, q :: p in workers && q in workers && workers[p].name == workers[q].name ==> p == q
  }

  /** Each loop has at most one live worker, and its record agrees with it. */
  ghost predicate Consistent(w: World) {
    && (forall p :: p in w.workers ==> AgreesWithRecord(w.records, p, w.workers[p]))
    && OneWorkerEach(w.workers)
  }

  // A spawned worker of the loop has not yet written its identity.
  ghost predicate InPidWindow(w: World, name: string) {
    exists p :: p in w.workers && w.workers[p].name == name && !w.workers[p].registered
  }

  // The reconciliation writes the record of this loop.
  predicate WritesRecord(w: World, name: string, tick: Tick) {
    && tick.resolvable && tick.slot.Some? && !Settled(w, name, tick.slot.value)
    && (PreviousLive(w, name, tick.running) || tick.slotTooOld || tick.ceiling != Unmeasured)
  }

  lemma StopKeepsConsistency(w: World, name: string, terminated: bool)
    requires Consistent(w)
    ensures Consistent(StopObsolete(w, name, terminated).0)
  {
    var after := StopObsolete(w, name, terminated).0;
    forall p | p in after.workers
      ensures AgreesWithRecord(after.records, p, after.workers[p])
    {
      assert AgreesWithRecord(w.records, p, w.workers[p]);
    }
  }

  lemma NoWorkerUnlessSeen(w: World, name: string, tick: Tick, p: Pid)
    requires Consistent(w) && Allowed(w, ReconcileEvent(name, tick)) && !InPidWindow(w, name)
    requires p in w.workers && w.workers[p].name == name
    ensures PreviousLive(w, name, tick.running) && w.records[name].pid == Some(p)
  {
    assert AgreesWithRecord(w.records, p, w.workers[p]);
  }

  // What a look at one loop can have done: nothing, or a skip that keeps the identity of the live
  // worker, or a new record without one, possibly with a new worker for it.
  ghost predicate Effect(w: World, name: string, tick: Tick, after: World) {
    after == w ||
    (&& WritesRecord(w, name, tick)
     && name in after.records && (forall m :: m != name ==> SameRecord(w, after, m))
     && if PreviousLive(w, name, tick.running) then
          after.workers == w.workers && after.records[name].pid == w.records[name].pid && after.records[name].status.MayBeAlive()
        else
          after.workers == w.workers ||
          (&& tick.spawned.Some?
           && after.records[name] == Record(w.digest, tick.slot.value, Starting, None)
           && after.workers == w.workers[tick.spawned.value := Worker(name, w.digest, tick.slot.value, false)]))
  }

  predicate SameRecord(w: World, after: World, name: string) {
    (name in after.records <==> name in w.records) && (name in w.records ==> after.records[name] == w.records[name])
  }

  lemma ReconcileHasEffect(w: World, name: string, tick: Tick)
    ensures Effect(w, name, tick, ReconcileLoop(w, name, tick).0)
  {
  }

  lemma EffectKeepsConsistency(w: World, name: string, tick: Tick, after: World)
    requires Consistent(w) && Allowed(w, ReconcileEvent(name, tick)) && Effect(w, name, tick, after)
    requires !(WritesRecord(w, name, tick) && InPidWindow(w, name))
    ensures Consistent(after)
  {
    if after != w {
      forall p | p in after.workers
        ensures AgreesWithRecord(after.records, p, after.workers[p])
        ensures after.workers[p].name == name && p in w.workers ==> tick.spawned != Some(p) && PreviousLive(w, name, tick.running)
      {
        if p in w.workers {
          assert AgreesWithRecord(w.records, p, w.workers[p]);
          assert w.workers[p].name != name ==> SameRecord(w, after, w.workers[p].name);
          if w.workers[p].name == name {
            NoWorkerUnlessSeen(w, name, tick, p);
          }
        }
      }
    }
  }

  lemma OverwriteBreaksConsistency(w: World, name: string, tick: Tick)
    requires Consistent(w) && Allowed(w, ReconcileEvent(name, tick))
    requires WritesRecord(w, name, tick) && InPidWindow(w, name)
    ensures !Consistent(ReconcileLoop(w, name, tick).0)
  {
    var after := ReconcileLoop(w, name, tick).0;
    var p :| p in w.workers && w.workers[p].name == name && !w.workers[p].registered;
    assert AgreesWithRecord(w.records, p, w.workers[p]);
    assert p in after.workers && after.workers[p] == w.workers[p];
    assert !AgreesWithRecord(after.records, p, after.workers[p]);
  }

  lemma StartKeepsConsistency(w: World, pid: Pid, policyLoads: bool)
    requires Consistent(w) && Allowed(w, StartEvent(pid, policyLoads))
    ensures Consistent(WorkerStarted(w, pid, policyLoads))
  {
    var after := WorkerStarted(w, pid, policyLoads);
    forall p | p in after.workers
      ensures AgreesWithRecord(after.records, p, after.workers[p])
    {
      assert AgreesWithRecord(w.records, p, w.workers[p]);
    }
  }

  lemma FinishKeepsConsistency(w: World, pid: Pid, succeeded: bool)
    requires Consistent(w) && pid in w.workers
    ensures Consistent(WorkerFinished(w, pid, succeeded))
  {
    var after := WorkerFinished(w, pid, succeeded);
    forall p | p in after.workers
      ensures AgreesWithRecord(after.records, p, after.workers[p])
    {
      assert AgreesWithRecord(w.records, p, w.workers[p]);
    }
  }

  // A reconciliation writes the record of a loop while its worker is in the pid window.
  ghost predicate OverwritesPending(w: World, e: Event) {
    e.ReconcileEvent? && WritesRecord(w, e.name, e.tick) && InPidWindow(w, e.name)
  }

  /** One step keeps the invariant unless it is a reconciliation that overwrites the record of a loop
      whose worker has not registered, and then it always breaks it. */
  lemma StepKeepsConsistencyExactly(w: World, e: Event)
    requires Consistent(w) && Allowed(w, e)
    ensures Consistent(Apply(w, e)) <==> !OverwritesPending(w, e)
  {
    match e
    case StopEvent(name, terminated) => StopKeepsConsistency(w, name, terminated);
    case ReconcileEvent(name, tick) =>
      if OverwritesPending(w, e) {
        OverwriteBreaksConsistency(w, name, tick);
      } else {
        ReconcileHasEffect(w, name, tick);
        EffectKeepsConsistency(w, name, tick, Apply(w, e));
      }
    case StartEvent(pid, policyLoads) => StartKeepsConsistency(w, pid, policyLoads);
    case FinishEvent(pid, succeeded) => FinishKeepsConsistency(w, pid, succeeded);
    case CrashEvent(pid) =>
      var after := Apply(w, e);
      assert forall p :: p in after.workers ==> p in w.workers && after.workers[p] == w.workers[p];
    case PolicyEvent(_, _) =>
  }

  ghost predicate ValidRun(w: World, events: seq<Event>)
    decreases |events|
  {
    events == [] || (Allowed(w, events[0]) && ValidRun(Apply(w, events[0]), events[1..]))
  }

  ghost function RunOf(w: World, events: seq<Event>): World
    requires ValidRun(w, events)
    decreases |events|
  {
    if events == [] then w else RunOf(Apply(w, events[0]), events[1..])
  }

  lemma {:induction false} RunSplit(w: World, first: seq<Event>, rest: seq<Event>)
    ensures ValidRun(w, first + rest) <==> ValidRun(w, first) && ValidRun(RunOf(w, first), rest)
    ensures ValidRun(w, first + rest) ==> RunOf(w, first + rest) == RunOf(RunOf(w, first), rest)
    decreases |first|
  {
    if first == [] {
      assert first + rest == rest;
    } else {
      assert (first + rest)[0] == first[0] && (first + rest)[1..] == first[1..] + rest;
      if Allowed(w, first[0]) {
        RunSplit(Apply(w, first[0]), first[1..], rest);
      }
    }
  }

  lemma RunAppend(w: World, events: seq<Event>, e: Event)
    requires ValidRun(w, events) && Allowed(RunOf(w, events), e)
    ensures ValidRun(w, events + [e]) && RunOf(w, events + [e]) == Apply(RunOf(w, events), e)
  {
    RunSplit(w, events, [e]);
  }

  /** A spawned worker registers or exits before its loop's record is written again. */
  ghost predicate Handshake(w: World, events: seq<Event>)
    requires ValidRun(w, events)
    decreases |events|
  {
    events == [] || (!OverwritesPending(w, events[0]) && Handshake(Apply(w, events[0]), events[1..]))
  }

  lemma {:induction false} HandshakeAppend(w: World, events: seq<Event>, e: Event)
    requires ValidRun(w, events) && Handshake(w, events)
    requires Allowed(RunOf(w, events), e) && !OverwritesPending(RunOf(w, events), e)
    ensures ValidRun(w, events + [e]) && Handshake(w, events + [e])
    ensures RunOf(w, events + [e]) == Apply(RunOf(w, events), e)
    decreases |events|
  {
    RunAppend(w, events, e);
    if events != [] {
      assert (events + [e])[0] == events[0] && (events + [e])[1..] == events[1..] + [e];
      HandshakeAppend(Apply(w, events[0]), events[1..], e);
    } else {
      assert [e][1..] == [];
    }
  }

  ghost predicate ConsistentThroughout(w: World, events: seq<Event>)
    requires ValidRun(w, events)
    decreases |events|
  {
    Consistent(w) && (events == [] || ConsistentThroughout(Apply(w, events[0]), events[1..]))
  }

  /** In every run the handshake is exactly what keeps the records and the live workers in
      agreement. */
  lemma {:induction false} RunConsistentExactly(w: World, events: seq<Event>)
    requires Consistent(w) && ValidRun(w, events)
    ensures ConsistentThroughout(w, events) <==> Handshake(w, events)
    decreases |events|
  {
    if events != [] {
      StepKeepsConsistencyExactly(w, events[0]);
      if !OverwritesPending(w, events[0]) {
        RunConsistentExactly(Apply(w, events[0]), events[1..]);
      }
    }
  }

  /** In every run with the handshake each loop has at most one live registered worker, and the
      loop's record carries its identity with a status that may be alive. */
  lemma {:induction false} SingleWorker(w: World, events: seq<Event>, p: Pid)
    requires Consistent(w) && ValidRun(w, events) && Handshake(w, events)
    requires p in RunOf(w, events).workers && RunOf(w, events).workers[p].registered
    ensures var after := RunOf(w, events); var name := after.workers[p].name;
      && name in after.records && after.records[name].pid == Some(p) && after.records[name].status.MayBeAlive()
      && (forall q :: q in after.workers && after.workers[q].name == name ==> q == p)
    decreases |events|
  {
    if events == [] {
      assert AgreesWithRecord(w.records, p, w.workers[p]);
    } else {
      StepKeepsConsistencyExactly(w, events[0]);
      SingleWorker(Apply(w, events[0]), events[1..], p);
    }
  }

  // The event launches just this, and every condition on a launch is met.
  ghost predicate Justifies(w: World, e: Event, l: Launch) {
    e.ReconcileEvent? && MayLaunch(w, e.name, e.tick) && e.tick.logWritable && e.tick.spawned.Some?
    && l == Launch(e.name, w.digest, e.tick.slot.value)
  }

  ghost predicate JustifiedIn(w: World, events: seq<Event>, l: Launch)
    requires ValidRun(w, events)
    decreases |events|
  {
    events != [] && (Justifies(w, events[0], l) || JustifiedIn(Apply(w, events[0]), events[1..], l))
  }

  /** In every run nothing is launched except by a reconciliation that found the loop due, not running, not too
      late, within its ceilings and admitted. */
  lemma {:induction false} EveryLaunchIsJustified(w: World, events: seq<Event>, l: Launch)
    requires ValidRun(w, events) && l in RunOf(w, events).launches && l !in w.launches
    ensures JustifiedIn(w, events, l)
    decreases |events|
  {
    if events != [] {
      StepLaunches(w, events[0]);
      if !Justifies(w, events[0], l) {
        EveryLaunchIsJustified(Apply(w, events[0]), events[1..], l);
      }
    }
  }

  lemma StepLaunches(w: World, e: Event)
    requires Allowed(w, e)
    ensures forall l :: l in Apply(w, e).launches && l !in w.launches ==> Justifies(w, e, l)
  {
    if e.ReconcileEvent? {
      LaunchesExactly(w, e.name, e.tick);
    }
  }

  // ---- The promise itself ----

  predicate NamedByRecord(w: World, p: Pid)
    requires p in w.workers
  {
    var name := w.workers[p].name;
    name in w.records && w.records[name].pid == Some(p) && w.records[name].status.MayBeAlive()
  }

  ghost predicate OtherRegistered(w: World, p: Pid, q: Pid)
    requires p in w.workers
  {
    q in w.workers && q != p && w.workers[q].registered && w.workers[q].name == w.workers[p].name
  }

  /** At most one registered worker of each loop is live, and the loop's record carries its
      identity with a status that may be alive. Nothing is said of workers that have not registered. */
  ghost predicate Single(w: World) {
    && (forall p :: p in w.workers && w.workers[p].registered ==> NamedByRecord(w, p))
    && forall p, q :: p in w.workers && w.workers[p].registered ==> !OtherRegistered(w, p, q)
  }

  // A worker starts while another registered worker of its loop is live.
  ghost predicate LateStart(w: World, e: Event) {
    e.StartEvent? && e.pid in w.workers && exists q :: OtherRegistered(w, e.pid, q)
  }

  lemma LateStartBreaksSingle(w: World, pid: Pid, policyLoads: bool, q: Pid)
    requires Single(w) && Allowed(w, StartEvent(pid, policyLoads)) && OtherRegistered(w, pid, q)
    ensures !Single(WorkerStarted(w, pid, policyLoads))
  {
    var after := WorkerStarted(w, pid, policyLoads);
    assert NamedByRecord(w, q);
    assert q in after.workers && after.workers[q] == w.workers[q];
    assert !NamedByRecord(after, q);
  }

  lemma EffectKeepsSingle(w: World, name: string, tick: Tick, after: World)
    requires Single(w) && Allowed(w, ReconcileEvent(name, tick)) && Effect(w, name, tick, after)
    ensures Single(after)
  {
    forall p | p in after.workers && after.workers[p].registered
      ensures p in w.workers && w.workers[p] == after.workers[p] && NamedByRecord(after, p)
    {
      assert NamedByRecord(w, p);
      assert after != w && w.workers[p].name != name ==> SameRecord(w, after, w.workers[p].name);
    }
    forall p, q | p in after.workers && after.workers[p].registered
      ensures !OtherRegistered(after, p, q)
    {
      assert !OtherRegistered(w, p, q);
    }
  }

  // Steps that only remove workers, or clear the record of the one they remove.
  lemma RemovalKeepsSingle(w: World, e: Event)
    requires Single(w) && Allowed(w, e)
    requires e.StopEvent? || e.FinishEvent? || e.CrashEvent? || e.PolicyEvent?
    ensures Single(Apply(w, e))
  {
    var after := Apply(w, e);
    forall p | p in after.workers && after.workers[p].registered
      ensures p in w.workers && w.workers[p] == after.workers[p] && NamedByRecord(after, p)
    {
      assert NamedByRecord(w, p);
    }
  }

  lemma StartKeepsSingle(w: World, pid: Pid, policyLoads: bool)
    requires Single(w) && Allowed(w, StartEvent(pid, policyLoads)) && !LateStart(w, StartEvent(pid, policyLoads))
    ensures Single(WorkerStarted(w, pid, policyLoads))
  {
    var after := WorkerStarted(w, pid, policyLoads);
    forall p | p in after.workers && after.workers[p].registered
      ensures NamedByRecord(after, p)
      ensures p == pid || after.workers[p].name != w.workers[pid].name
    {
      if p != pid {
        assert NamedByRecord(w, p) && !OtherRegistered(w, pid, p);
      }
    }
  }

  /** One step keeps the promise unless it is a late start, and a late start always breaks it: either
      the late worker registers beside the other, or it is refused and clears the other's record. */
  lemma StepKeepsSingleExactly(w: World, e: Event)
    requires Single(w) && Allowed(w, e)
    ensures Single(Apply(w, e)) <==> !LateStart(w, e)
  {
    match e
    case ReconcileEvent(name, tick) =>
      ReconcileHasEffect(w, name, tick);
      EffectKeepsSingle(w, name, tick, Apply(w, e));
    case StartEvent(pid, policyLoads) =>
      if LateStart(w, e) {
        var q :| OtherRegistered(w, pid, q);
        LateStartBreaksSingle(w, pid, policyLoads, q);
      } else {
        StartKeepsSingle(w, pid, policyLoads);
      }
    case _ => RemovalKeepsSingle(w, e);
  }

  ghost predicate NoLateStart(w: World, events: seq<Event>)
    requires ValidRun(w, events)
    decreases |events|
  {
    events == [] || (!LateStart(w, events[0]) && NoLateStart(Apply(w, events[0]), events[1..]))
  }

  ghost predicate SingleThroughout(w: World, events: seq<Event>)
    requires ValidRun(w, events)
    decreases |events|
  {
    Single(w) && (events == [] || SingleThroughout(Apply(w, events[0]), events[1..]))
  }

  /** In every run the promise holds at every instant exactly when no worker starts beside
      another registered worker of its loop. */
  lemma {:induction false} RunSingleExactly(w: World, events: seq<Event>)
    requires Single(w) && ValidRun(w, events)
    ensures SingleThroughout(w, events) <==> NoLateStart(w, events)
    decreases |events|
  {
    if events != [] {
      StepKeepsSingleExactly(w, events[0]);
      if !LateStart(w, events[0]) {
        RunSingleExactly(Apply(w, events[0]), events[1..]);
      } else {
        assert !Single(Apply(w, events[0]));
      }
    }
  }

  lemma ConsistentIsSingle(w: World)
    requires Consistent(w)
    ensures Single(w) && forall e :: Allowed(w, e) ==> !LateStart(w, e)
  {
    forall p | p in w.workers && w.workers[p].registered
      ensures NamedByRecord(w, p)
    {
      assert AgreesWithRecord(w.records, p, w.workers[p]);
    }
  }

  /** The handshake is enough for the promise. */
  lemma {:induction false} HandshakeSuffices(w: World, events: seq<Event>)
    requires Consistent(w) && ValidRun(w, events) && Handshake(w, events)
    ensures SingleThroughout(w, events)
    decreases |events|
  {
    ConsistentIsSingle(w);
    if events != [] {
      StepKeepsConsistencyExactly(w, events[0]);
      HandshakeSuffices(Apply(w, events[0]), events[1..]);
    }
  }

  function DueTick(slot: Slot, spawned: Pid): Tick {
    Tick(true, Some(slot), false, false, Within, false, true, Some(spawned))
  }

  function Idle(digest: string, name: string): World {
    World(digest, {name}, map[], map[], [])
  }

  // Two slots come due before the first worker registers.
  lemma TwoLaunchesInPidWindow(digest: string, name: string) returns (events: seq<Event>)
    ensures ValidRun(Idle(digest, name), events)
    ensures RunOf(Idle(digest, name), events) ==
      World(digest, {name}, map[name := Record(digest, 2, Starting, None)],
            map[1 := Worker(name, digest, 1, false), 2 := Worker(name, digest, 2, false)],
            [Launch(name, digest, 1), Launch(name, digest, 2)])
  {
    var w := Idle(digest, name);
    RunAppend(w, [], ReconcileEvent(name, DueTick(1, 1)));
    events := [] + [ReconcileEvent(name, DueTick(1, 1))];
    RunAppend(w, events, ReconcileEvent(name, DueTick(2, 2)));
    events := events + [ReconcileEvent(name, DueTick(2, 2))];
  }

  // The second worker registers; the first is refused and marks the record finished.
  lemma RefusedWorkerFinishesTheOther(digest: string, name: string) returns (events: seq<Event>)
    ensures ValidRun(Idle(digest, name), events)
    ensures var after := RunOf(Idle(digest, name), events);
      && after.digest == digest && after.declared == {name}
      && after.records == map[name := Record(digest, 2, Failed, None)]
      && after.workers == map[2 := Worker(name, digest, 2, true)]
  {
    var w := Idle(digest, name);
    events := TwoLaunchesInPidWindow(digest, name);
    RunAppend(w, events, StartEvent(2, true));
    events := events + [StartEvent(2, true)];
    RunAppend(w, events, StartEvent(1, true));
    events := events + [StartEvent(1, true)];
  }

  /** Without the handshake two workers of one loop can run at once: the third slot starts a
      worker beside the one whose record was marked finished. */
  lemma PidWindowAllowsTwoWorkers(digest: string, name: string) returns (events: seq<Event>)
    ensures ValidRun(Idle(digest, name), events)
    ensures var after := RunOf(Idle(digest, name), events);
      after.workers == map[2 := Worker(name, digest, 2, true), 3 := Worker(name, digest, 3, true)]
  {
    var w := Idle(digest, name);
    events := RefusedWorkerFinishesTheOther(digest, name);
    RunAppend(w, events, ReconcileEvent(name, DueTick(3, 3)));
    events := events + [ReconcileEvent(name, DueTick(3, 3))];
    RunAppend(w, events, StartEvent(3, true));
    events := events + [StartEvent(3, true)];
  }

  // A slot that comes due too late overwrites the record of a worker that is then refused.
  lemma HandshakeIsNotNecessary(digest: string, name: string) returns (events: seq<Event>)
    ensures ValidRun(Idle(digest, name), events) && !Handshake(Idle(digest, name), events)
    ensures SingleThroughout(Idle(digest, name), events)
  {
    var w := Idle(digest, name);
    var launch := ReconcileEvent(name, DueTick(1, 1));
    var late := ReconcileEvent(name, DueTick(2, 2).(slotTooOld := true));
    var start := StartEvent(1, true);
    var w1 := Apply(w, launch);
    assert w1 == World(digest, {name}, map[name := Record(digest, 1, Starting, None)],
                       map[1 := Worker(name, digest, 1, false)], [Launch(name, digest, 1)]);
    var w2 := Apply(w1, late);
    assert w2 == w1.(records := map[name := Record(digest, 2, Stale, None)]);
    assert InPidWindow(w1, name) by {
      assert 1 in w1.workers;
    }
    var w3 := Apply(w2, start);
    assert w3.workers == map[];
    events := [launch, late, start];
    assert events[1..] == [late, start] && events[1..][1..] == [start] && [start][1..] == [];
    assert ValidRun(w2, [start]) && ValidRun(w1, [late, start]);
    assert SingleThroughout(w3, []) && SingleThroughout(w2, [start]) && SingleThroughout(w1, [late, start]);
    assert !Handshake(w1, [late, start]);
  }

  // ---- One launch for each slot ----

  // The policy stays and no slot comes due that lies before the one on record.
  predicate Advancing(w: World, e: Event) {
    && !e.PolicyEvent?
    && (e.ReconcileEvent? && e.tick.slot.Some? && e.name in w.records && w.records[e.name].version == w.digest ==>
          w.records[e.name].slot <= e.tick.slot.value)
  }

  // The loop is beyond this slot, or at it with an outcome that is not retried.
  predicate Passed(w: World, name: string, slot: Slot) {
    && name in w.records && w.records[name].version == w.digest
    && (slot < w.records[name].slot || (slot == w.records[name].slot && !w.records[name].status.RetriedEveryTick()))
  }

  lemma PassedStays(w: World, e: Event, name: string, slot: Slot)
    requires Allowed(w, e) && Advancing(w, e) && Passed(w, name, slot)
    ensures Passed(Apply(w, e), name, slot)
    ensures Apply(w, e).launches == w.launches || exists l ::
      (Apply(w, e).launches == w.launches + [l] && (l.name != name || l.slot != slot))
  {
    if e.ReconcileEvent? && Apply(w, e).launches != w.launches {
      var l := Launch(e.name, w.digest, e.tick.slot.value);
      assert Apply(w, e).launches == w.launches + [l];
    }
  }

  lemma LaunchPasses(w: World, e: Event)
    requires Allowed(w, e) && Apply(w, e).launches != w.launches
    ensures e.ReconcileEvent? && e.tick.slot.Some?
    ensures Apply(w, e).launches == w.launches + [Launch(e.name, w.digest, e.tick.slot.value)]
    ensures Passed(Apply(w, e), e.name, e.tick.slot.value) && Apply(w, e).digest == w.digest
    ensures !Passed(w, e.name, e.tick.slot.value) || e.tick.slot.value < w.records[e.name].slot
  {
  }

  ghost predicate AdvancingRun(w: World, events: seq<Event>)
    requires ValidRun(w, events)
    decreases |events|
  {
    events == [] || (Advancing(w, events[0]) && AdvancingRun(Apply(w, events[0]), events[1..]))
  }

  /** A slot once settled, whether launched, skipped, stale or stopped, is never launched later. */
  lemma {:induction false} PassedIsNeverLaunched(w: World, events: seq<Event>, name: string, slot: Slot)
    requires ValidRun(w, events) && AdvancingRun(w, events) && Passed(w, name, slot)
    ensures var after := RunOf(w, events);
      && Passed(after, name, slot) && w.launches <= after.launches
      && forall i :: |w.launches| <= i < |after.launches| ==> after.launches[i].name != name || after.launches[i].slot != slot
    decreases |events|
  {
    if events != [] {
      PassedStays(w, events[0], name, slot);
      PassedIsNeverLaunched(Apply(w, events[0]), events[1..], name, slot);
    }
  }

  ghost predicate LaunchedOnce(w: World) {
    && (forall i, j :: 0 <= i < j < |w.launches| ==> w.launches[i] != w.launches[j])
    && (forall l :: l in w.launches ==> l.version == w.digest && Passed(w, l.name, l.slot))
  }

  lemma StepLaunchesOnce(w: World, e: Event)
    requires Allowed(w, e) && Advancing(w, e) && LaunchedOnce(w)
    ensures LaunchedOnce(Apply(w, e))
  {
    var after := Apply(w, e);
    forall l | l in w.launches
      ensures l.version == after.digest && Passed(after, l.name, l.slot)
    {
      PassedStays(w, e, l.name, l.slot);
    }
    if after.launches != w.launches {
      LaunchPasses(w, e);
      var launched := Launch(e.name, w.digest, e.tick.slot.value);
      forall l | l in w.launches
        ensures l != launched
      {
        PassedStays(w, e, l.name, l.slot);
      }
    }
  }

  /** While the policy stays and slots advance, no slot of a loop is launched twice, whatever the
      workers do and with or without the handshake. */
  lemma {:induction false} EachSlotLaunchedOnce(w: World, events: seq<Event>)
    requires ValidRun(w, events) && AdvancingRun(w, events) && LaunchedOnce(w)
    ensures LaunchedOnce(RunOf(w, events))
    decreases |events|
  {
    if events != [] {
      StepLaunchesOnce(w, events[0]);
      EachSlotLaunchedOnce(Apply(w, events[0]), events[1..]);
    }
  }
}
