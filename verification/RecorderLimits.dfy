/** When a recording must not fail: on a disk that works, a worker returns an error if and only if the next
    record of its content does not fit a line or the session. */
module RecorderLimits {
  import opened RecordingContent
  import opened RecorderSteps
  import opened RecorderRuns

  predicate Works(io: Io) {
    io.flush && io.sync && io.open && io.write && io.flushAfter
  }

  /** Every flush, sync, open and write of a history succeeds. */
  predicate DiskWorks(actions: seq<Action>) {
    forall k :: 0 <= k < |actions| ==> WorksFor(actions[k])
  }

  predicate WorksFor(a: Action) {
    match a
    case Turn(_, io) => Works(io)
    case Handle(io) => Works(io)
    case _ => true
  }

  /** The bytes of the lines of some records. */
  function Total(c: Config, rs: seq<Record>): nat {
    if rs == [] then 0 else Total(c, rs[..|rs| - 1]) + c.json(rs[|rs| - 1]) + 1
  }

  /** Each of the records fits a line of 1 MiB, and together they fit the session. */
  predicate AllFit(c: Config, rs: seq<Record>) {
    (forall r :: r in rs ==> c.json(r) + 1 <= 1048576) && Total(c, rs) <= c.limit
  }

  /** Why a record cannot follow what is written. */
  predicate Refused(c: Config, out: seq<Record>, r: Record, e: Error) {
    || (e == LineTooLong && c.json(r) + 1 > 1048576)
    || (e == CapacityReached && c.json(r) + 1 <= 1048576 && Total(c, out) + c.json(r) + 1 > c.limit)
  }

  /** The worker stopped at the next record of the content, which does not fit. */
  ghost predicate StoppedAt(s: State, e: Error) {
    && AllFit(s.config, Out(s.worker))
    && exists r :: Out(s.worker) + [r] <= Content(s.config.trigger, s.log) && Refused(s.config, Out(s.worker), r, e)
  }

  /** What a disk that works leaves in every phase. */
  ghost predicate Healthy(s: State) {
    match s.worker.phase
    case Absent => true
    case Running => AllFit(s.config, Out(s.worker))
    case Returned(None) => AllFit(s.config, Out(s.worker))
    case Returned(Some(e)) => StoppedAt(s, e)
    case Finished =>
      && (s.status.error == None ==> AllFit(s.config, Out(s.worker)))
      && (s.summary.Some? && s.status.error.Some? ==> StoppedAt(s, s.status.error.value))
  }

  // ---- bytes ----

  lemma {:induction false} TotalConcat(c: Config, a: seq<Record>, b: seq<Record>)
    ensures Total(c, a + b) == Total(c, a) + Total(c, b)
  {
    if b == [] {
      assert a + b == a;
    } else {
      assert (a + b)[..|a + b| - 1] == a + b[..|b| - 1];
      TotalConcat(c, a, b[..|b| - 1]);
    }
  }

  lemma {:induction false} LinesTotal(c: Config, rs: seq<Record>)
    ensures LineBytes(c.json, rs) == Total(c, rs)
  {
    if rs != [] {
      LinesTotal(c, rs[..|rs| - 1]);
    }
  }

  /** The count of bytes written is what the lines of the volumes take. */
  lemma {:induction false} VolumesTotal(c: Config, volumes: seq<seq<Record>>)
    ensures SumBytes(c.json, volumes) == Total(c, Flatten(volumes))
  {
    if volumes != [] {
      var front, last := volumes[..|volumes| - 1], volumes[|volumes| - 1];
      VolumesTotal(c, front);
      LinesTotal(c, last);
      TotalConcat(c, Flatten(front), last);
    }
  }

  lemma WorkerTotal(s: State)
    requires Sized(s.config, s.worker)
    ensures s.worker.total == Total(s.config, Out(s.worker))
  {
    hide Flatten, SumBytes, FitsPart, LineBytes;
    VolumesTotal(s.config, s.worker.volumes);
  }

  lemma FitSnoc(c: Config, rs: seq<Record>, r: Record)
    requires AllFit(c, rs) && c.json(r) + 1 <= 1048576 && Total(c, rs) + c.json(r) + 1 <= c.limit
    ensures AllFit(c, rs + [r])
  {
    assert (rs + [r])[..|rs|] == rs;
  }

  /** A content whose next record is refused does not fit. */
  lemma RefusedNotFit(c: Config, out: seq<Record>, r: Record, e: Error, all: seq<Record>)
    requires out + [r] <= all && Refused(c, out, r, e)
    ensures !AllFit(c, all)
  {
    var rest := all[|out| + 1..];
    assert all == out + [r] + rest;
    TotalConcat(c, out + [r], rest);
    TotalConcat(c, out, [r]);
    assert [r][..0] == [];
    assert Total(c, [r]) == c.json(r) + 1;
    assert all[|out|] == r && r in all;
  }

  // ---- the content so far begins the content of the log ----

  lemma StillWaiting(t: Trigger, a: seq<Record>, b: seq<Record>)
    requires !Fired(t, a)
    ensures Filter(Contexts, a) <= Content(Some(t), a + b)
  {
    hide Filter, Window, Hit;
    var log := a + b;
    var first := First(t, log, 0);
    NotBefore(t, a, b);
    FilterConcat(Contexts, a, b);
    if first < |log| {
      assert log[..first] == a + b[..first - |a|];
      FilterConcat(Contexts, a, b[..first - |a|]);
    }
  }

  lemma NotBefore(t: Trigger, a: seq<Record>, b: seq<Record>)
    requires !Fired(t, a)
    ensures First(t, a + b, 0) >= |a|
  {
    assert forall j :: 0 <= j < |a| ==> (a + b)[j] == a[j];
  }

  /** What is written, with a record in hand that is to be written, begins the content. */
  lemma HandIsNext(s: State, r: Record)
    requires Inv(s) && s.worker.phase == Running && s.worker.hand == Some(r)
    requires s.config.trigger.Some? && s.worker.end == None ==> IsContext(r)
    requires s.worker.end.Some? ==> r.elapsed <= s.worker.end.value
    ensures Out(s.worker) + [r] <= Content(s.config.trigger, s.log)
  {
    hide Filter, Window, First, Flatten, Weight, Content, Fault, Out;
    var taken := Taken(s);
    LogSplit(s);
    NextOf(s.config.trigger, s.worker, taken, r, s.queue);
  }

  lemma NextOf(trigger: Option<Trigger>, w: Worker, taken: seq<Record>, r: Record, queue: seq<Record>)
    requires Shape(trigger, w, taken) && w.hand == Some(r)
    requires trigger.Some? && w.end == None ==> IsContext(r)
    requires w.end.Some? ==> r.elapsed <= w.end.value
    ensures Out(w) + [r] <= Content(trigger, taken + queue)
  {
    hide Filter, Window, First, Weight, Out, Fault;
    if trigger.Some? {
      var t := trigger.value;
      hide Content;
      if w.end == None {
        var done := taken[..|taken| - 1];
        assert taken == done + [r];
        FilterSnoc(Contexts, done, r);
        FirstSnoc(t, done, r, 0);
        StillWaiting(t, taken, queue);
      } else {
        FilterOne(UpTo(w.end.value), r);
        ContentAfter(t, taken, queue);
        assert Out(w) + [r] + w.ring + Filter(UpTo(End(t, taken)), queue)
            == Out(w) + [r] + (w.ring + Filter(UpTo(End(t, taken)), queue));
      }
    }
  }

  // ---- every step of a history on a disk that works ----

  /** Writing: either the line is written, or the record is refused for one of the two reasons. */
  lemma WroteFits(s: State, r: Record, io: Io)
    requires Works(io) && s.worker.phase == Running && AllFit(s.config, Out(s.worker))
    requires s.worker.total == Total(s.config, Out(s.worker))
    ensures var n := Wrote(s, r, io); var c := s.config;
            && n.config == c && n.log == s.log
            && if c.json(r) + 1 <= 1048576 && Total(c, Out(s.worker)) + c.json(r) + 1 <= c.limit then
                 n.worker.phase == Running && Out(n.worker) == Out(s.worker) + [r]
               else
                 && Out(n.worker) == Out(s.worker) && n.worker.phase.Returned? && n.worker.phase.result.Some?
                 && Refused(c, Out(s.worker), r, n.worker.phase.result.value)
  {
    hide Flatten, AddLast, AllFit, Total;
    FlattenAdd(s.worker.volumes, r);
    FlattenAdd(s.worker.volumes + [[]], r);
    FlattenNew(s.worker.volumes);
  }

  lemma HandledHealthy(s: State, r: Record, io: Io)
    requires Inv(s) && Sized(s.config, s.worker) && Healthy(s) && Works(io)
    requires s.worker.phase == Running && s.worker.hand == Some(r)
    ensures Healthy(Handled(s, r, io))
  {
    hide Inv, Sized, Flatten, Wrote, AllFit, Total, Refused, Window, Weight, Fault, Content;
    var e := s.(worker := s.worker.(hand := None));
    assert Out(e.worker) == Out(s.worker);
    if s.config.trigger.Some? && s.worker.end.None? && !IsContext(r) {
      assert Out(Handled(s, r, io).worker) == Out(s.worker);
    } else if s.worker.end.Some? && r.elapsed > s.worker.end.value {
      assert Out(Handled(s, r, io).worker) == Out(s.worker);
    } else {
      WorkerTotal(s);
      HandIsNext(s, r);
      WroteFits(e, r, io);
      if Wrote(e, r, io).worker.phase == Running {
        FitSnoc(s.config, Out(s.worker), r);
      }
    }
  }

  lemma TurnedHealthy(s: State, due: bool, io: Io)
    requires Healthy(s) && Works(io) && s.worker.phase == Running
    ensures Healthy(Turned(s, due, io))
  {
    hide AllFit, Flatten, Filter;
    assert Out(Turned(s, due, io).worker) == Out(s.worker);
  }

  lemma EmittedHealthy(s: State, record: Record)
    requires Inv(s) && Healthy(s)
    ensures Healthy(Emitted(s, record))
  {
    hide AllFit, Flatten, Content, Channel, Complete, Counted, Refused;
    var n := Emitted(s, record);
    assert n.worker == s.worker && n.config.json == s.config.json && n.config.limit == s.config.limit;
  }

  lemma EndedHealthy(s: State, saved: bool)
    requires Inv(s) && Healthy(s) && s.worker.phase.Returned?
    ensures Healthy(Ended(s, s.worker.phase.result, saved))
  {
    hide AllFit, Flatten, Content, Channel, Complete, Counted, Refused;
    var n := Ended(s, s.worker.phase.result, saved);
    assert Out(n.worker) == Out(s.worker);
  }

  lemma StartedHealthy(s: State, c: Config)
    ensures Healthy(Started(s, c))
  {
    NothingFits(c);
  }

  lemma NothingFits(c: Config)
    ensures AllFit(c, Flatten([[]])) && Flatten([[]]) == []
  {
    var one: seq<seq<Record>> := [[]];
    assert one[..0] == [];
  }

  lemma HealthyNext(s: State, a: Action)
    requires Inv(s) && Sized(s.config, s.worker) && Healthy(s) && WorksFor(a)
    ensures Healthy(Next(s, a))
  {
    hide Inv, Sized, Healthy, Started, Emitted, Turned, Handled, Ended;
    if Enabled(s, a) {
      match a
      case Start(c) => StartedHealthy(s, c);
      case Emit(r) => EmittedHealthy(s, r);
      case Turn(due, io) => TurnedHealthy(s, due, io);
      case Handle(io) => HandledHealthy(s, s.worker.hand.value, io);
      case Finish(saved) => EndedHealthy(s, saved);
      case Close => ClosedHealthy(s);
    }
  }

  lemma ClosedHealthy(s: State)
    requires Healthy(s)
    ensures Healthy(s.(sender := false))
  {
    hide AllFit, Flatten, Content, Refused;
  }

  lemma {:induction false} RunHealthy(config: Config, actions: seq<Action>)
    requires DiskWorks(actions)
    ensures Healthy(After(config, actions))
  {
    hide Inv, Sized, Healthy, Next, Works;
    if actions == [] {
      InitialHealthy(config);
    } else {
      var front, a := actions[..|actions| - 1], actions[|actions| - 1];
      RunHealthy(config, front);
      RunInv(config, front);
      VolumesBounded(config, front);
      HealthyNext(After(config, front), a);
    }
  }

  lemma InitialHealthy(config: Config)
    ensures Healthy(Initial(config))
  {}

  // ---- what that means ----

  /** A worker that has returned had an error if and only if the content of its log does not fit. */
  lemma ReturnedIff(s: State)
    requires Inv(s) && Healthy(s) && s.worker.phase.Returned?
    ensures s.worker.phase.result.Some? <==> !AllFit(s.config, Content(s.config.trigger, s.log))
  {
    hide AllFit, Flatten, Content, Channel, Counted, Refused;
    if s.worker.phase.result.Some? {
      StoppedNotFit(s, s.worker.phase.result.value);
    }
  }

  lemma StoppedNotFit(s: State, e: Error)
    requires StoppedAt(s, e)
    ensures !AllFit(s.config, Content(s.config.trigger, s.log))
  {
    hide AllFit, Content, Refused, Out;
    var r :| Out(s.worker) + [r] <= Content(s.config.trigger, s.log) && Refused(s.config, Out(s.worker), r, e);
    RefusedNotFit(s.config, Out(s.worker), r, e, Content(s.config.trigger, s.log));
  }

  /** The same for a run that is over and whose summary was saved. */
  lemma FinishedIff(s: State)
    requires Inv(s) && Healthy(s) && s.worker.phase == Finished && s.summary.Some?
    ensures s.status.error.Some? <==> !AllFit(s.config, Content(s.config.trigger, s.log))
    ensures s.status.error == None ==> Complete(s)
  {
    hide AllFit, Flatten, Content, Channel, Counted, Refused;
    if s.status.error.Some? {
      StoppedNotFit(s, s.status.error.value);
    }
  }

  /** Over all histories on a disk that works: a worker that runs has written only what fits, and one that
      has returned had an error if and only if some record of the content of its log is longer than 1 MiB
      or the content is larger than the session may be; then it stopped at the first such record. */
  lemma ErrorIff(config: Config, actions: seq<Action>)
    requires DiskWorks(actions)
    ensures var s := After(config, actions); var content := Content(s.config.trigger, s.log);
            && (s.worker.phase == Running ==> AllFit(s.config, Out(s.worker)))
            && (s.worker.phase.Returned? ==> (s.worker.phase.result.Some? <==> !AllFit(s.config, content)))
            && (s.worker.phase.Returned? && s.worker.phase.result.Some? ==> StoppedAt(s, s.worker.phase.result.value))
            && (s.worker.phase == Finished && s.summary.Some? ==>
                  (s.status.error.Some? <==> !AllFit(s.config, content)))
  {
    hide Inv, After, AllFit, StoppedAt, Out, Content;
    RunHealthy(config, actions);
    RunInv(config, actions);
    var s := After(config, actions);
    if s.worker.phase.Returned? {
      ReturnedIff(s);
    } else if s.worker.phase == Finished && s.summary.Some? {
      FinishedIff(s);
    }
  }

  lemma WorkerStepHealthy(s: State, due: bool, io: Io)
    requires Inv(s) && Sized(s.config, s.worker) && Healthy(s) && Works(io)
    ensures Healthy(WorkerStep(s, due, io))
  {
    hide Inv, Sized, Healthy, Turned, Handled;
    if s.worker.phase == Running {
      if s.worker.hand == None {
        TurnedHealthy(s, due, io);
      } else {
        HandledHealthy(s, s.worker.hand.value, io);
      }
    }
  }

  lemma WorkerStepSized(s: State, due: bool, io: Io)
    requires Sized(s.config, s.worker)
    ensures var n := WorkerStep(s, due, io); n.config == s.config && Sized(n.config, n.worker)
  {
    hide Sized, Turned, Handled;
    if s.worker.phase == Running {
      if s.worker.hand == None {
        SizedTurned(s, due, io);
      } else {
        SizedHandled(s, s.worker.hand.value, io);
      }
    }
  }

  /** The worker does not touch the log. */
  lemma WorkerStepLog(s: State, due: bool, io: Io)
    ensures WorkerStep(s, due, io).log == s.log
  {
    hide Turned, Handled;
    TurnedLog(s, due, io);
    if s.worker.hand.Some? {
      HandledLog(s, s.worker.hand.value, io);
    }
  }

  lemma TurnedLog(s: State, due: bool, io: Io)
    ensures Turned(s, due, io).log == s.log
  {
    hide Filter;
  }

  lemma HandledLog(s: State, r: Record, io: Io)
    ensures Handled(s, r, io).log == s.log
  {
    hide Window, Weight, Fault, Wrote;
    WroteLog(s.(worker := s.worker.(hand := None)), r, io);
  }

  lemma WroteLog(s: State, r: Record, io: Io)
    ensures Wrote(s, r, io).log == s.log
  {
    hide AddLast;
  }

  // ---- what is accepted ----

  /** In every history, a record offered to an active run whose worker runs is accepted unless 4096 records
      are waiting, and then it is counted as dropped. */
  lemma AcceptedUnlessFull(config: Config, actions: seq<Action>, record: Record)
    requires var s := After(config, actions);
             s.sender && s.status.active && s.worker.phase == Running && s.clock <= record.elapsed
    ensures var s := After(config, actions); var n := Next(s, Emit(record));
            var r := record.(sequence := s.status.accepted + s.status.dropped + 1);
            && |s.queue| <= 4096
            && (|s.queue| < 4096 ==> n.log == s.log + [r] && n.status.dropped == s.status.dropped)
            && (|s.queue| == 4096 ==> n.log == s.log && n.status.dropped == s.status.dropped + 1)
  {
    RunInv(config, actions);
    hide After, Stage;
  }

  lemma {:induction false} WorkForHealthy(s: State, due: nat -> bool, io: nat -> Io, n: nat)
    requires Inv(s) && Sized(s.config, s.worker) && Healthy(s) && s.worker.phase == Running && !s.sender
    requires forall k: nat :: Works(io(k))
    ensures var e := WorkFor(s, due, io, n);
            Healthy(e) && Sized(e.config, e.worker) && e.config == s.config && e.log == s.log
  {
    hide Inv, Sized, Healthy, WorkerStep, Works;
    if n > 0 {
      WorkForHealthy(s, due, io, n - 1);
      WorkForKeeps(s, due, io, n - 1);
      var e := WorkFor(s, due, io, n - 1);
      WorkerStepHealthy(e, due(n - 1), io(n - 1));
      WorkerStepSized(e, due(n - 1), io(n - 1));
      WorkerStepLog(e, due(n - 1), io(n - 1));
    }
  }

  /** A worker whose run is out of its slot, after any history on a disk that works: it ends, without an
      error and with all of its content if that content fits, and with an error if it does not. */
  lemma WorkerEndsIff(config: Config, actions: seq<Action>, due: nat -> bool, io: nat -> Io, n: nat)
    requires DiskWorks(actions) && forall k: nat :: Works(io(k))
    requires var s := After(config, actions); s.worker.phase == Running && !s.sender && n > Work(s)
    ensures var s := After(config, actions); var e := WorkFor(s, due, io, n);
            && e.worker.phase.Returned? && (e.worker.phase.result == None ==> Complete(e))
            && (e.worker.phase.result == None <==> AllFit(s.config, Content(s.config.trigger, s.log)))
  {
    hide Inv, Sized, Healthy, After, WorkFor, Work, AllFit, Content, Complete;
    WorkerEnds(config, actions, due, io, n);
    RunInv(config, actions);
    VolumesBounded(config, actions);
    RunHealthy(config, actions);
    WorkForHealthy(After(config, actions), due, io, n);
    ReturnedIff(WorkFor(After(config, actions), due, io, n));
  }

  /** A joined worker on a disk that works. */
  lemma JoinedHealthy(s: State, fate: Fate, n: nat)
    requires Inv(s) && Sized(s.config, s.worker) && Healthy(s) && !s.sender && s.worker.phase != Absent
    requires forall k: nat :: Works(fate.io(k))
    requires JoinedAfter(s, fate, n).worker.phase == Finished
    ensures Healthy(JoinedAfter(s, fate, n))
  {
    hide Inv, Sized, Healthy, Ended, Works, WorkerStep;
    if s.worker.phase == Running {
      WorkForHealthy(s, fate.due, fate.io, n);
      WorkForKeeps(s, fate.due, fate.io, n);
    } else {
      NotRunning(s, fate.due, fate.io, n);
    }
    var e := WorkFor(s, fate.due, fate.io, n);
    if e.worker.phase.Returned? {
      EndedHealthy(e, fate.saved);
    }
  }

  lemma {:induction false} NotRunning(s: State, due: nat -> bool, io: nat -> Io, n: nat)
    requires s.worker.phase != Running
    ensures WorkFor(s, due, io, n) == s
  {
    if n > 0 {
      NotRunning(s, due, io, n - 1);
      OverStays(s, due(n - 1), io(n - 1));
    }
  }

  // ---- volumes are not closed early, and lines do not wait long ----

  /** The first record of a volume did not fit the one before. */
  predicate Full(c: Config, before: seq<Record>, v: seq<Record>) {
    v != [] ==> Total(c, before) + c.json(v[0]) + 1 > c.partLimit
  }

  ghost predicate Tidy(s: State) {
    var v := s.worker.volumes;
    && (forall i, j :: 0 <= i < j < |v| && j == i + 1 ==> Full(s.config, v[i], v[j]))
    && (s.worker.phase == Running ==> s.worker.pending < 100 && (|v| > 1 ==> v[|v| - 1] != []))
  }

  lemma TidyAdd(c: Config, v: seq<seq<Record>>, r: Record)
    requires v != [] && forall i, j :: 0 <= i < j < |v| && j == i + 1 ==> Full(c, v[i], v[j])
    requires |v| > 1 && v[|v| - 1] == [] ==> Total(c, v[|v| - 2]) + c.json(r) + 1 > c.partLimit
    ensures var n := AddLast(v, r);
            && (forall i, j :: 0 <= i < j < |n| && j == i + 1 ==> Full(c, n[i], n[j]))
            && |n| == |v| && n[|n| - 1] != []
  {
    hide Total;
    var n, last := AddLast(v, r), |v| - 1;
    assert n[last] == v[last] + [r] && forall k :: 0 <= k < last ==> n[k] == v[k];
    forall i, j | 0 <= i < j < |n| && j == i + 1 ensures Full(c, n[i], n[j]) {
      assert Full(c, v[i], v[j]);
      assert j == last ==> i == |v| - 2 && n[j][0] == if v[last] == [] then r else v[last][0];
    }
  }

  /** The state with one more, still empty volume. */
  lemma TidyRotated(c: Config, v: seq<seq<Record>>)
    requires forall i, j :: 0 <= i < j < |v| && j == i + 1 ==> Full(c, v[i], v[j])
    ensures forall i, j :: 0 <= i < j < |v + [[]]| && j == i + 1 ==> Full(c, (v + [[]])[i], (v + [[]])[j])
  {
    hide Total;
    var n := v + [[]];
    forall i, j | 0 <= i < j < |n| && j == i + 1 ensures Full(c, n[i], n[j]) {
      if j < |v| {
        assert Full(c, v[i], v[j]);
      }
    }
  }

  lemma TidyAppended(s: State, r: Record, size: nat, io: Io)
    requires Tidy(s) && s.worker.phase == Running && s.worker.volumes != []
    requires var v := s.worker.volumes;
             |v| > 1 && v[|v| - 1] == [] ==> Total(s.config, v[|v| - 2]) + s.config.json(r) + 1 > s.config.partLimit
    ensures Tidy(Appended(s, r, size, io))
  {
    hide Full, Total, AddLast;
    TidyAdd(s.config, s.worker.volumes, r);
  }

  lemma FailedTidy(s: State, error: Error)
    requires Tidy(s)
    ensures Tidy(Failed(s, error)) && Tidy(Failed(Flushed(s), error))
  {
    hide Full;
  }

  /** A rotation for a record that does not fit any more, and the record behind it. */
  lemma TidyTurned(s: State, r: Record, size: nat, io: Io)
    requires Tidy(s) && Sized(s.config, s.worker) && s.worker.phase == Running && size == s.config.json(r) + 1
    requires s.worker.partBytes + size > s.config.partLimit
    ensures Tidy(Appended(Rotated(s), r, size, io))
  {
    hide Full, Total, Appended, SumBytes, FitsPart;
    var v := s.worker.volumes;
    LinesTotal(s.config, v[|v| - 1]);
    TidyRotated(s.config, v);
    var n := Rotated(s).worker.volumes;
    assert n == v + [[]] && n[|v|] == [] && n[|v| - 1] == v[|v| - 1];
    RotatedAppend(Rotated(s), r, size, io);
  }

  /** A record for the volume in hand: that is the first one, or it holds records. */
  lemma TidyKept(s: State, r: Record, size: nat, io: Io)
    requires Tidy(s) && Sized(s.config, s.worker) && s.worker.phase == Running
    ensures Tidy(Appended(s, r, size, io))
  {
    hide Full, Total, Appended, SumBytes, FitsPart;
    TidyAppended(s, r, size, io);
  }

  lemma TidyWrote(s: State, r: Record, io: Io)
    requires Tidy(s) && Sized(s.config, s.worker) && s.worker.phase == Running
    ensures Tidy(Wrote(s, r, io))
  {
    hide Tidy, Sized, Appended, Rotated, Failed, Flushed;
    var size := s.config.json(r) + 1;
    FailedTidy(s, LineTooLong);
    FailedTidy(s, IoFailed);
    FailedTidy(s, CapacityReached);
    if s.worker.partBytes > 0 && s.worker.partBytes + size > s.config.partLimit {
      TidyTurned(s, r, size, io);
    } else {
      TidyKept(s, r, size, io);
    }
  }

  /** Behind a rotation, before the record is written. */
  lemma RotatedAppend(f: State, r: Record, size: nat, io: Io)
    requires var v := f.worker.volumes;
             && |v| > 1 && v[|v| - 1] == [] && f.worker.pending < 100 && f.worker.phase == Running
             && Total(f.config, v[|v| - 2]) + f.config.json(r) + 1 > f.config.partLimit
             && forall i, j :: 0 <= i < j < |v| && j == i + 1 ==> Full(f.config, v[i], v[j])
    ensures Tidy(Appended(f, r, size, io))
  {
    hide Full, Total, AddLast;
    TidyAdd(f.config, f.worker.volumes, r);
  }

  lemma TidySame(s: State, n: State)
    requires Tidy(s) && n.config == s.config && n.worker.volumes == s.worker.volumes
    requires n.worker.phase == Running ==> s.worker.phase == Running && n.worker.pending <= s.worker.pending
    ensures Tidy(n)
  {
    hide Full;
  }

  lemma TidyHandled(s: State, r: Record, io: Io)
    requires Tidy(s) && Sized(s.config, s.worker) && s.worker.phase == Running
    ensures Tidy(Handled(s, r, io))
  {
    hide Tidy, Sized, Wrote, Window, Weight, Fault;
    var e := s.(worker := s.worker.(hand := None));
    TidySame(s, e);
    SizedSame(s.config, s.worker, e.worker);
    if s.config.trigger.Some? && s.worker.end.None? && !IsContext(r) {
      TidySame(s, Handled(s, r, io));
    } else if s.worker.end.Some? && r.elapsed > s.worker.end.value {
      TidySame(s, Handled(s, r, io));
    } else {
      TidyWrote(e, r, io);
    }
  }

  lemma TidyTurn(s: State, due: bool, io: Io)
    requires Tidy(s) && s.worker.phase == Running
    ensures Tidy(Turned(s, due, io))
  {
    hide Tidy, Filter;
    TidySame(s, Turned(s, due, io));
  }

  lemma TidyNext(s: State, a: Action)
    requires Tidy(s) && Sized(s.config, s.worker)
    ensures Tidy(Next(s, a))
  {
    hide Tidy, Sized, Turned, Handled, Emitted, Ended, Started;
    if Enabled(s, a) {
      match a
      case Start(c) => TidyFresh(s, c);
      case Emit(r) => TidyEmitted(s, r);
      case Turn(due, io) => TidyTurn(s, due, io);
      case Handle(io) => TidyHandled(s, s.worker.hand.value, io);
      case Finish(saved) => TidyEnded(s, saved);
      case Close => TidySame(s, s.(sender := false));
    }
  }

  lemma TidyFresh(s: State, c: Config)
    ensures Tidy(Started(s, c)) && Tidy(Initial(c))
  {}

  lemma TidyEmitted(s: State, record: Record)
    requires Tidy(s)
    ensures Tidy(Emitted(s, record))
  {
    hide Tidy;
    TidySame(s, Emitted(s, record));
  }

  lemma TidyEnded(s: State, saved: bool)
    requires Tidy(s) && s.worker.phase.Returned?
    ensures Tidy(Ended(s, s.worker.phase.result, saved))
  {
    hide Tidy;
    TidySame(s, Ended(s, s.worker.phase.result, saved));
  }

  /** Over all histories: a volume is only closed when the next record does not fit it, and while the worker
      runs fewer than 100 lines wait to be made durable. */
  lemma {:induction false} RunTidy(config: Config, actions: seq<Action>)
    ensures Tidy(After(config, actions))
  {
    hide Tidy, Sized, Next;
    if actions == [] {
      TidyFresh(Initial(config), config);
    } else {
      RunTidy(config, actions[..|actions| - 1]);
      VolumesBounded(config, actions[..|actions| - 1]);
      TidyNext(After(config, actions[..|actions| - 1]), actions[|actions| - 1]);
    }
  }
}
