/** The supervisor as the program runs it: an object whose record files are rewritten in place by
    reconciliations and workers. Each method is one or more steps of LoopSupervisor. */
module Reconciler {
  import opened Wrappers
  import opened LoopSupervisor

  // The counters a reconciliation reports.
  datatype Summary = Summary(
    started: nat,
    stopped: nat,
    settled: nat,
    notDue: nat,
    stale: nat,
    skipped: nat,
    admissionHeld: nat)
  {
    function Total(): nat {
      started + stopped + settled + notDue + stale + skipped + admissionHeld
    }

    function Counting(outcome: Outcome): Summary {
      match outcome
      case NotDue => this.(notDue := notDue + 1)
      case Unchanged => this.(settled := settled + 1)
      case Skipped => this.(skipped := skipped + 1)
      case StaleSlot => this.(stale := stale + 1)
      case CeilingStopped => this.(stopped := stopped + 1)
      case Held => this.(admissionHeld := admissionHeld + 1)
      case Started => this.(started := started + 1)
      case Fault => this
    }
  }

  const NOTHING := Summary(0, 0, 0, 0, 0, 0, 0)

  // ---- The two passes of a reconciliation ----

  // Stops what is obsolete, up to the first fault, and counts it.
  function StopEach(w: World, entries: seq<string>, terminated: set<string>): (World, bool, nat)
    decreases |entries|
  {
    if entries == [] then (w, true, 0)
    else
      var (next, ok) := StopObsolete(w, entries[0], entries[0] in terminated);
      if !ok then (next, false, 0)
      else
        var (last, allOk, stopped) := StopEach(next, entries[1..], terminated);
        (last, allOk, stopped + if Obsolete(w, entries[0]) then 1 else 0)
  }

  // Takes each loop in turn, up to the first fault, and counts the outcomes.
  function ReconcileEach(w: World, names: seq<string>, ticks: map<string, Tick>, summary: Summary): (World, bool, Summary)
    requires forall n :: n in names ==> n in ticks
    decreases |names|
  {
    if names == [] then (w, true, summary)
    else
      var (next, outcome) := ReconcileLoop(w, names[0], ticks[names[0]]);
      if outcome == Fault then (next, false, summary)
      else ReconcileEach(next, names[1..], ticks, summary.Counting(outcome))
  }

  class Supervisor {
    var digest: string
    var declared: set<string>
    var records: map<string, Record>
    ghost var workers: map<Pid, Worker>
    ghost var launches: seq<Launch>

    ghost function Now(): World
      reads this
    {
      World(digest, declared, records, workers, launches)
    }

    constructor (digest: string, declared: set<string>)
      ensures Now() == World(digest, declared, map[], map[], [])
    {
      this.digest, this.declared, records := digest, declared, map[];
      workers, launches := map[], [];
    }

    method StopOne(name: string, terminated: bool) returns (ok: bool, stopped: bool)
      modifies this
      ensures (Now(), ok) == StopObsolete(old(Now()), name, terminated)
      ensures stopped <==> ok && Obsolete(old(Now()), name)
    {
      if name !in records {
        return true, false;
      }
      var state := records[name];
      if state.status.MayBeAlive() && (name !in declared || state.version != digest) {
        if state.pid.None? {
          return false, false;
        }
        if !terminated {
          return false, false;
        }
        workers := workers - {state.pid.value};
        state := state.(status := Stopped, pid := None);
        records := records[name := state];
        return true, true;
      }
      return true, false;
    }

    method ReconcileOne(name: string, tick: Tick) returns (outcome: Outcome)
      modifies this
      ensures (Now(), outcome) == ReconcileLoop(old(Now()), name, tick)
    {
      if !tick.resolvable {
        return Fault;
      }
      if tick.slot.None? {
        return NotDue;
      }
      var slot := tick.slot.value;
      if name in records && records[name].version == digest && records[name].slot == slot &&
         !records[name].status.RetriedEveryTick() {
        return Unchanged;
      }
      if name in records && records[name].status.MayBeAlive() && records[name].pid.Some? && tick.running {
        records := records[name := Record(digest, slot, SkippedPreviousLive, records[name].pid)];
        return if tick.logWritable then Skipped else Fault;
      }
      if tick.slotTooOld {
        records := records[name := Record(digest, slot, Stale, None)];
        return if tick.logWritable then StaleSlot else Fault;
      }
      if tick.ceiling == Exceeded {
        records := records[name := Record(digest, slot, Stopped, None)];
        return if tick.logWritable then CeilingStopped else Fault;
      }
      if tick.ceiling == Unmeasured {
        return Fault;
      }
      if tick.admissionHeld {
        records := records[name := Record(digest, slot, AdmissionHeld, None)];
        return if tick.logWritable then Held else Fault;
      }
      outcome := Launch(name, slot, tick);
    }

    method Launch(name: string, slot: Slot, tick: Tick) returns (outcome: Outcome)
      modifies this
      ensures (Now(), outcome) == LaunchWorker(old(Now()), name, slot, tick)
    {
      var state := Record(digest, slot, Starting, None);
      records := records[name := state];
      if !tick.logWritable {
        return Fault;
      }
      if tick.spawned.None? {
        records := records[name := state.(status := Failed)];
        assert records == old(records)[name := Record(digest, slot, Failed, None)];
        return Fault;
      }
      workers := workers[tick.spawned.value := Worker(name, digest, slot, false)];
      launches := launches + [LoopSupervisor.Launch(name, digest, slot)];
      outcome := Started;
    }

    method StopAll(entries: seq<string>, terminated: set<string>) returns (ok: bool, stopped: nat)
      modifies this
      ensures var (w, allOk, count) := StopEach(old(Now()), entries, terminated);
        Now() == w && ok == allOk && (ok ==> stopped == count)
    {
      stopped := 0;
      ghost var w0 := Now();
      for k := 0 to |entries|
        invariant StopEach(w0, entries, terminated).0 == StopEach(Now(), entries[k..], terminated).0
        invariant StopEach(w0, entries, terminated).1 == StopEach(Now(), entries[k..], terminated).1
        invariant StopEach(w0, entries, terminated).1 ==>
          StopEach(w0, entries, terminated).2 == stopped + StopEach(Now(), entries[k..], terminated).2
      {
        assert entries[k..][1..] == entries[k + 1..];
        var stoppedOne;
        ok, stoppedOne := StopOne(entries[k], entries[k] in terminated);
        if !ok {
          return;
        }
        if stoppedOne {
          stopped := stopped + 1;
        }
      }
      ok := true;
    }

    /** One reconciliation: first the obsolete workers, then the declared loops. */
    method Reconcile(entries: seq<string>, terminated: set<string>, names: seq<string>, ticks: map<string, Tick>)
      returns (ok: bool, summary: Summary)
      requires forall n :: n in names ==> n in ticks
      modifies this
      ensures var (w, stopsOk, stopped) := StopEach(old(Now()), entries, terminated);
        if !stopsOk then !ok && Now() == w
        else
          var (last, allOk, counted) := ReconcileEach(w, names, ticks, NOTHING.(stopped := stopped));
          Now() == last && ok == allOk && (ok ==> summary == counted)
      ensures AddsPermitted(old(Now()), names, ticks, Now())
      ensures ok ==> summary.started == |Now().launches| - |old(Now()).launches|
    {
      summary := NOTHING;
      StopsKeepLaunches(Now(), entries, terminated);
      var stopped;
      ok, stopped := StopAll(entries, terminated);
      if !ok {
        return;
      }
      summary := summary.(stopped := stopped);
      ghost var w1, counted := Now(), summary;
      PassLaunchesPermitted(w1, names, ticks, counted);
      for k := 0 to |names|
        invariant ReconcileEach(w1, names, ticks, counted) == ReconcileEach(Now(), names[k..], ticks, summary)
      {
        assert names[k..][1..] == names[k + 1..];
        var outcome := ReconcileOne(names[k], ticks[names[k]]);
        if outcome == Fault {
          return false, summary;
        }
        summary := summary.Counting(outcome);
      }
      ok := true;
    }

    // The worker half of the protocol, on behalf of a live worker.
    method WorkerStart(pid: Pid, worker: Worker, policyLoads: bool) returns (accepted: bool)
      requires pid in workers && workers[pid] == worker
      modifies this
      ensures Now() == WorkerStarted(old(Now()), pid, policyLoads)
      ensures accepted <==> policyLoads && MayRegister(old(Now()), worker)
    {
      if !policyLoads || digest != worker.version || worker.name !in declared {
        Finish(pid, worker, false);
        return false;
      }
      var state := if worker.name in records then records[worker.name] else Record(worker.version, worker.slot, Starting, None);
      if state.version != worker.version || state.slot != worker.slot {
        Finish(pid, worker, false);
        return false;
      }
      records := records[worker.name := state.(status := Running, pid := Some(pid))];
      workers := workers[pid := worker.(registered := true)];
      accepted := true;
    }

    method Finish(pid: Pid, worker: Worker, succeeded: bool)
      requires pid in workers && workers[pid] == worker
      modifies this
      ensures Now() == WorkerFinished(old(Now()), pid, succeeded)
    {
      if worker.name in records {
        var state := records[worker.name].(pid := None);
        if state.status != SkippedPreviousLive {
          state := state.(status := if succeeded then Completed else Failed);
        }
        records := records[worker.name := state];
      }
      workers := workers - {pid};
    }
  }

  // ---- A reconciliation is a run ----

  // Processes spawned by a tick are new: no worker and no record has their identity.
  ghost predicate FreshSpawns(w: World, names: seq<string>, ticks: map<string, Tick>) {
    && (forall n :: n in names && n in ticks && ticks[n].spawned.Some? ==>
          ticks[n].spawned.value !in w.workers && forall m :: m in w.records ==> w.records[m].pid != ticks[n].spawned)
    && (forall n, m :: n in names && m in names && n != m && n in ticks && m in ticks && ticks[n].spawned.Some? ==>
          ticks[n].spawned != ticks[m].spawned)
  }

  // Live processes are reported as running.
  ghost predicate Honest(w: World, names: seq<string>, ticks: map<string, Tick>) {
    forall n :: n in names ==>
      && n in ticks && n in w.declared
      && (n in w.records && w.records[n].pid.Some? && w.records[n].pid.value in w.workers ==> ticks[n].running)
  }

  lemma {:induction false} StopEachIsARun(w: World, entries: seq<string>, terminated: set<string>) returns (events: seq<Event>)
    ensures ValidRun(w, events) && RunOf(w, events) == StopEach(w, entries, terminated).0
    ensures forall e :: e in events ==> e.StopEvent?
    decreases |entries|
  {
    events := [];
    if entries != [] {
      var stop := StopEvent(entries[0], entries[0] in terminated);
      var next := Apply(w, stop);
      var rest := [];
      if StopObsolete(w, entries[0], entries[0] in terminated).1 {
        rest := StopEachIsARun(next, entries[1..], terminated);
      }
      events := [stop] + rest;
      assert events[1..] == rest;
    }
  }

  // What a look at one loop leaves alone.
  lemma StepEffects(w: World, name: string, tick: Tick)
    ensures var next := ReconcileLoop(w, name, tick).0;
      && next.declared == w.declared
      && (forall m :: m in next.records && m != name ==> m in w.records && next.records[m] == w.records[m])
      && (name in next.records && next.records[name].pid.Some? ==>
            name in w.records && next.records[name].pid == w.records[name].pid)
  {
  }

  lemma StepWorkers(w: World, name: string, tick: Tick)
    ensures forall p :: p in ReconcileLoop(w, name, tick).0.workers ==> p in w.workers || tick.spawned == Some(p)
  {
  }

  lemma StepStaysHonest(w: World, names: seq<string>, ticks: map<string, Tick>)
    requires names != [] && Distinct(names) && Honest(w, names, ticks) && FreshSpawns(w, names, ticks)
    ensures names[0] in ticks && Honest(ReconcileLoop(w, names[0], ticks[names[0]]).0, names[1..], ticks)
  {
    assert names[0] in names;
    StepEffects(w, names[0], ticks[names[0]]);
    StepWorkers(w, names[0], ticks[names[0]]);
  }

  lemma StepStaysFresh(w: World, names: seq<string>, ticks: map<string, Tick>)
    requires names != [] && Distinct(names) && names[0] in ticks && FreshSpawns(w, names, ticks)
    ensures FreshSpawns(ReconcileLoop(w, names[0], ticks[names[0]]).0, names[1..], ticks)
  {
    assert names[0] in names;
    StepEffects(w, names[0], ticks[names[0]]);
    StepWorkers(w, names[0], ticks[names[0]]);
  }

  /** Each pass over the loops is a run of the transition system, so everything proved of runs
      holds of any sequence of reconciliations and worker steps. */
  lemma {:induction false} ReconcileEachIsARun(w: World, names: seq<string>, ticks: map<string, Tick>, summary: Summary)
    returns (events: seq<Event>)
    requires Distinct(names) && Honest(w, names, ticks) && FreshSpawns(w, names, ticks)
    ensures ValidRun(w, events) && RunOf(w, events) == ReconcileEach(w, names, ticks, summary).0
    ensures forall e :: e in events ==> e.ReconcileEvent?
    decreases |names|
  {
    events := [];
    if names != [] {
      assert names[0] in names;
      var step := ReconcileEvent(names[0], ticks[names[0]]);
      var (next, outcome) := ReconcileLoop(w, names[0], ticks[names[0]]);
      assert Allowed(w, step);
      StepStaysHonest(w, names, ticks);
      StepStaysFresh(w, names, ticks);
      var rest := [];
      if outcome != Fault {
        rest := ReconcileEachIsARun(next, names[1..], ticks, summary.Counting(outcome));
      }
      events := [step] + rest;
      assert events[1..] == rest;
    }
  }

  // ---- What the counters count ----

  lemma {:induction false} EveryLoopIsCounted(w: World, names: seq<string>, ticks: map<string, Tick>, summary: Summary)
    requires forall n :: n in names ==> n in ticks
    ensures var (_, ok, counted) := ReconcileEach(w, names, ticks, summary);
      ok ==> counted.Total() == summary.Total() + |names|
    decreases |names|
  {
    if names != [] {
      assert names[0] in names;
      var (next, outcome) := ReconcileLoop(w, names[0], ticks[names[0]]);
      if outcome != Fault {
        EveryLoopIsCounted(next, names[1..], ticks, summary.Counting(outcome));
      }
    }
  }

  // What happened to each loop in turn, up to the first fault.
  ghost function OutcomesOf(w: World, names: seq<string>, ticks: map<string, Tick>): seq<Outcome>
    requires forall n :: n in names ==> n in ticks
    decreases |names|
  {
    if names == [] then []
    else
      var (next, outcome) := ReconcileLoop(w, names[0], ticks[names[0]]);
      if outcome == Fault then [Fault] else [outcome] + OutcomesOf(next, names[1..], ticks)
  }

  function CounterOf(s: Summary, outcome: Outcome): nat {
    match outcome
    case NotDue => s.notDue
    case Unchanged => s.settled
    case Skipped => s.skipped
    case StaleSlot => s.stale
    case CeilingStopped => s.stopped
    case Held => s.admissionHeld
    case Started => s.started
    case Fault => 0
  }

  lemma {:induction false} CounterCounts(w: World, names: seq<string>, ticks: map<string, Tick>, summary: Summary, o: Outcome)
    requires forall n :: n in names ==> n in ticks
    requires o != Fault
    ensures var (_, ok, counted) := ReconcileEach(w, names, ticks, summary);
      ok ==> CounterOf(counted, o) == CounterOf(summary, o) + multiset(OutcomesOf(w, names, ticks))[o]
    decreases |names|
  {
    if names != [] {
      assert names[0] in names;
      var (next, outcome) := ReconcileLoop(w, names[0], ticks[names[0]]);
      if outcome != Fault {
        CounterCounts(next, names[1..], ticks, summary.Counting(outcome), o);
      }
    }
  }

  /** Each counter counts the loops with its outcome. */
  lemma CountersCountOutcomes(w: World, names: seq<string>, ticks: map<string, Tick>)
    requires forall n :: n in names ==> n in ticks
    ensures var (_, ok, counted) := ReconcileEach(w, names, ticks, NOTHING);
      var outcomes := multiset(OutcomesOf(w, names, ticks));
      ok ==> counted == Summary(outcomes[Started], outcomes[CeilingStopped], outcomes[Unchanged], outcomes[NotDue],
                                outcomes[StaleSlot], outcomes[Skipped], outcomes[Held])
  {
    forall o | o != Fault
      ensures var (_, ok, counted) := ReconcileEach(w, names, ticks, NOTHING);
        ok ==> CounterOf(counted, o) == multiset(OutcomesOf(w, names, ticks))[o]
    {
      CounterCounts(w, names, ticks, NOTHING, o);
    }
  }

  // The launch is one the tick of its loop permits.
  predicate Permitted(w: World, names: seq<string>, ticks: map<string, Tick>, l: LoopSupervisor.Launch) {
    && l.name in names && l.name in ticks && l.version == w.digest
    && var tick := ticks[l.name];
       && tick.resolvable && tick.slot == Some(l.slot) && !tick.slotTooOld
       && tick.ceiling == Within && !tick.admissionHeld && tick.logWritable && tick.spawned.Some?
  }

  // Only permitted launches are added.
  ghost predicate AddsPermitted(w: World, names: seq<string>, ticks: map<string, Tick>, after: World) {
    w.launches <= after.launches && forall l :: l in after.launches[|w.launches|..] ==> Permitted(w, names, ticks, l)
  }

  /** A pass over the loops launches only loops within their ceilings, admitted and in time, and reports as many
      starts as there are launches. */
  lemma {:induction false} PassLaunchesPermitted(w: World, names: seq<string>, ticks: map<string, Tick>, summary: Summary)
    requires forall n :: n in names ==> n in ticks
    ensures var (after, ok, counted) := ReconcileEach(w, names, ticks, summary);
      && AddsPermitted(w, names, ticks, after)
      && (ok ==> counted.started - summary.started == |after.launches| - |w.launches|)
    decreases |names|
  {
    if names != [] {
      assert names[0] in names;
      var (next, outcome) := ReconcileLoop(w, names[0], ticks[names[0]]);
      LaunchesExactly(w, names[0], ticks[names[0]]);
      SameDigest(w, names[0], ticks[names[0]]);
      if outcome != Fault {
        PassLaunchesPermitted(next, names[1..], ticks, summary.Counting(outcome));
        FirstThenRest(w, next, names, ticks, ReconcileEach(w, names, ticks, summary).0);
      }
    }
  }

  lemma SameDigest(w: World, name: string, tick: Tick)
    ensures ReconcileLoop(w, name, tick).0.digest == w.digest
  {
  }

  lemma FirstThenRest(w: World, next: World, names: seq<string>, ticks: map<string, Tick>, after: World)
    requires names != [] && next.digest == w.digest
    requires AddsPermitted(w, [names[0]], ticks, next) && AddsPermitted(next, names[1..], ticks, after)
    ensures AddsPermitted(w, names, ticks, after)
  {
    forall l | l in after.launches[|w.launches|..]
      ensures Permitted(w, names, ticks, l)
    {
      assert after.launches[|w.launches|..] == next.launches[|w.launches|..] + after.launches[|next.launches|..];
      assert l in next.launches[|w.launches|..] ==> Permitted(w, [names[0]], ticks, l);
      assert l in after.launches[|next.launches|..] ==> Permitted(next, names[1..], ticks, l);
    }
  }

  lemma {:induction false} StopsKeepLaunches(w: World, entries: seq<string>, terminated: set<string>)
    ensures StopEach(w, entries, terminated).0.launches == w.launches && StopEach(w, entries, terminated).0.digest == w.digest
    decreases |entries|
  {
    if entries != [] {
      StopsKeepLaunches(StopObsolete(w, entries[0], entries[0] in terminated).0, entries[1..], terminated);
    }
  }

  function ObsoleteAmong(w: World, entries: seq<string>): set<string> {
    set n | n in entries && Obsolete(w, n)
  }

  lemma ObsoleteSplits(w: World, next: World, entries: seq<string>)
    requires entries != [] && entries[0] !in entries[1..]
    requires forall n :: n != entries[0] ==> (Obsolete(next, n) <==> Obsolete(w, n))
    ensures |ObsoleteAmong(w, entries)| == |ObsoleteAmong(next, entries[1..])| + if Obsolete(w, entries[0]) then 1 else 0
  {
    var rest := ObsoleteAmong(next, entries[1..]);
    assert entries == [entries[0]] + entries[1..];
    assert ObsoleteAmong(w, entries) == rest + if Obsolete(w, entries[0]) then {entries[0]} else {};
  }

  lemma StopLeavesOthers(w: World, entry: string, terminated: bool)
    ensures forall n :: n != entry ==> (Obsolete(StopObsolete(w, entry, terminated).0, n) <==> Obsolete(w, n))
  {
  }

  // A successful stop pass counts the obsolete records among its entries.
  lemma {:induction false} StoppedAreCounted(w: World, entries: seq<string>, terminated: set<string>)
    requires Distinct(entries)
    ensures var (_, ok, stopped) := StopEach(w, entries, terminated);
      ok ==> stopped == |ObsoleteAmong(w, entries)|
    decreases |entries|
  {
    if entries != [] {
      var next := StopObsolete(w, entries[0], entries[0] in terminated).0;
      StopLeavesOthers(w, entries[0], entries[0] in terminated);
      ObsoleteSplits(w, next, entries);
      StoppedAreCounted(next, entries[1..], terminated);
    }
  }

  // ---- When the stop pass succeeds ----

  predicate Stoppable(w: World, name: string, terminated: set<string>) {
    Obsolete(w, name) ==> w.records[name].pid.Some? && name in terminated
  }

  lemma StopKeepsStoppable(w: World, entry: string, terminated: set<string>, name: string)
    requires Stoppable(w, entry, terminated)
    ensures var next := StopObsolete(w, entry, entry in terminated).0;
      && !Obsolete(next, entry)
      && (Stoppable(next, name, terminated) <==> Stoppable(w, name, terminated))
  {
  }

  /** The stop pass gets through exactly when every obsolete record names a process whose termination is
      confirmed. Otherwise the reconciliation fails before it looks at a declared loop. */
  lemma {:induction false} StopPassSucceedsExactly(w: World, entries: seq<string>, terminated: set<string>)
    ensures StopEach(w, entries, terminated).1 <==> forall n :: n in entries ==> Stoppable(w, n, terminated)
    decreases |entries|
  {
    if entries != [] {
      assert entries == [entries[0]] + entries[1..] && entries[0] in entries;
      if Stoppable(w, entries[0], terminated) {
        var next := StopObsolete(w, entries[0], entries[0] in terminated).0;
        forall n | n in entries
          ensures Stoppable(next, n, terminated) <==> Stoppable(w, n, terminated)
        {
          StopKeepsStoppable(w, entries[0], terminated, n);
        }
        StopPassSucceedsExactly(next, entries[1..], terminated);
      }
    }
  }

  // ---- A record nobody can stop ----

  // The record may be alive, belongs to another policy, and names no process.
  predicate Wedged(w: World, name: string) {
    Obsolete(w, name) && w.records[name].pid.None?
  }

  lemma StopKeepsWedged(w: World, entry: string, terminated: bool, name: string)
    requires Wedged(w, name)
    ensures Wedged(StopObsolete(w, entry, terminated).0, name)
    ensures entry == name ==> !StopObsolete(w, entry, terminated).1
  {
  }

  /** One wedged record stops every reconciliation before it launches anything, and stays
      wedged. */
  lemma {:induction false} WedgedRecordStopsReconciliation(w: World, entries: seq<string>, terminated: set<string>, name: string)
    requires Wedged(w, name) && name in entries
    ensures var (after, ok, _) := StopEach(w, entries, terminated);
      !ok && Wedged(after, name) && after.launches == w.launches
    decreases |entries|
  {
    StopKeepsWedged(w, entries[0], entries[0] in terminated, name);
    var (next, ok) := StopObsolete(w, entries[0], entries[0] in terminated);
    if ok {
      assert name in entries[1..];
      WedgedRecordStopsReconciliation(next, entries[1..], terminated, name);
    }
  }

  // A worker runs into the next slot, which is recorded as skipped under its identity.
  lemma SkipBehindWorker(digest: string, name: string) returns (events: seq<Event>)
    ensures ValidRun(Idle(digest, name), events) && Handshake(Idle(digest, name), events)
    ensures var after := RunOf(Idle(digest, name), events);
      && after.records == map[name := Record(digest, 2, SkippedPreviousLive, Some(1))]
      && after.workers == map[1 := Worker(name, digest, 1, true)]
      && after.digest == digest && after.declared == {name}
  {
    var w := Idle(digest, name);
    HandshakeAppend(w, [], ReconcileEvent(name, DueTick(1, 1)));
    events := [] + [ReconcileEvent(name, DueTick(1, 1))];
    HandshakeAppend(w, events, StartEvent(1, true));
    events := events + [StartEvent(1, true)];
    var late := ReconcileEvent(name, DueTick(2, 2).(running := true));
    HandshakeAppend(w, events, late);
    events := events + [late];
  }

  /** A record can become wedged in a run with the handshake: the worker a skip record waited on
      finishes, which clears the identity and keeps the status, and then the policy changes. */
  lemma RecordsCanBecomeWedged(digest: string, next: string, name: string) returns (events: seq<Event>)
    requires digest != next
    ensures ValidRun(Idle(digest, name), events) && Handshake(Idle(digest, name), events)
    ensures Wedged(RunOf(Idle(digest, name), events), name)
  {
    var w := Idle(digest, name);
    events := SkipBehindWorker(digest, name);
    HandshakeAppend(w, events, FinishEvent(1, true));
    events := events + [FinishEvent(1, true)];
    HandshakeAppend(w, events, PolicyEvent(next, {name}));
    events := events + [PolicyEvent(next, {name})];
  }
}
