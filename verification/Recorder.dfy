/** The recorder itself (src/recording.rs): the status behind its lock, the bounded queue, and the
    worker with its ring and volumes, updated in place. Each method is one atomic step of RecorderSteps. */
module Recorder {
  import opened RecordingContent
  import opened RecorderSteps
  import opened RecorderRuns
  import opened RecorderLimits

  datatype StartResult = Refused | NotCreated | Begun

  class Recorder {
    var config: Config
    var status: Status
    var sender: bool
    var queue: seq<Record>
    var phase: Phase
    var total: nat
    var partBytes: nat
    var pending: nat
    var ring: seq<Record>
    var ringBytes: nat
    var end: Option<nat>
    var draining: bool
    var finishing: bool
    var hand: Option<Record>
    var volumes: seq<seq<Record>>
    var summary: Option<Status>
    ghost var log: seq<Record>
    ghost var clock: nat

    ghost function Local(): Worker
      reads this
    {
      Worker(phase, total, partBytes, pending, ring, ringBytes, end, draining, finishing, hand, volumes)
    }

    ghost function View(): State
      reads this
    {
      State(config, status, sender, queue, Local(), summary, log, clock)
    }

    /** What every step keeps. */
    ghost predicate Sound()
      reads this
    {
      Inv(View()) && Sized(config, Local())
    }

    /** What holds between the calls of the commands: a run out of its slot has been joined. */
    ghost predicate Valid()
      reads this
    {
      Sound() && (sender || phase == Absent || phase == Finished)
    }

    constructor (c: Config)
      ensures Valid() && View() == Initial(c) && Healthy(View())
    {
      config, status, sender, queue, phase := c, NO_STATUS, false, [], Absent;
      total, partBytes, pending, ring, ringBytes := 0, 0, 0, [], 0;
      end, draining, finishing, hand, volumes, summary := None, false, false, None, [[]], None;
      log, clock := [], 0;
      new;
      InitialInv(c);
      SizedFresh(c, Local());
    }

    /** start_run: refused while the last run is active; else its sender goes and its worker is joined.
        Then, unless the folder, session.json or the first volume cannot be created, a run begins. */
    method StartRun(c: Config, created: bool, fate: Fate) returns (r: StartResult, ghost n: nat)
      requires Valid()
      modifies this
      ensures Valid()
      ensures r == Refused <==> old(sender && status.active)
      ensures r == Refused ==> View() == old(View())
      ensures r != Refused ==> r == if created then Begun else NotCreated
      ensures r != Refused ==>
                var joined := if old(sender) then JoinedAfter(Next(old(View()), Close), fate, n) else old(View());
                View() == if created then Next(joined, Start(c)) else joined
      ensures r == Begun ==> View() == Started(old(View()), c) && Healthy(View())
    {
      hide Inv, Sized, Started, JoinedAfter, Healthy;
      n := 0;
      if sender {
        if status.active {
          return Refused, n;
        }
        n := Stop(fate);
      }
      if !created {
        return NotCreated, n;
      }
      NextKeeps(View(), Start(c));
      SizedNext(View(), Start(c));
      StartedIs(View(), old(View()), c);
      StartedHealthy(old(View()), c);
      Begin(c);
      return Begun, n;
    }

    method Begin(c: Config)
      modifies this
      ensures View() == Started(old(View()), c)
    {
      BeginWorker();
      BeginStatus(c);
      log, clock := [], 0;
    }

    method BeginStatus(c: Config)
      modifies `config, `status, `sender, `queue, `summary
      ensures config == c && status == NO_STATUS.(active := true, armed := c.trigger.Some?)
      ensures sender && queue == [] && summary == None
    {
      config, sender, queue, summary := c, true, [], None;
      status := NO_STATUS.(active := true, armed := c.trigger.Some?);
    }

    /** The locals of a new worker. */
    method BeginWorker()
      modifies `phase, `total, `partBytes, `pending, `ring, `ringBytes, `end, `draining, `finishing, `hand, `volumes
      ensures Local() == NO_WORKER.(phase := Running)
    {
      phase, hand, volumes := Running, None, [[]];
      total, partBytes, pending := 0, 0, 0;
      ring, ringBytes := [], 0;
      end, draining, finishing := None, false, false;
    }

    /** stop: the sender goes, and the worker is waited for until it has finished. Without an error
        the volumes then hold exactly the content of the log, and nothing is unwritten. On a disk that
        works there is an error if and only if that content does not fit. */
    method Stop(fate: Fate) returns (ghost n: nat)
      requires Valid()
      modifies this
      ensures Valid() && !sender && (phase == Absent || phase == Finished)
      ensures !old(sender) ==> View() == old(View())
      ensures old(sender) ==> phase == Finished && View() == JoinedAfter(Next(old(View()), Close), fate, n)
      ensures old(sender) && status.error == None ==> Complete(View()) && status.unwritten == 0
      ensures old(Healthy(View())) && (forall k: nat :: Works(fate.io(k))) ==> Healthy(View())
      ensures old(sender && Healthy(View())) && (forall k: nat :: Works(fate.io(k))) && summary.Some? ==>
                (status.error == None <==> AllFit(config, Content(config.trigger, log)))
    {
      hide Inv, Sized, JoinedAfter, Complete, Healthy, AllFit, Content, Works;
      n := 0;
      if sender {
        NotAbsent(View());
        NextKeeps(View(), Close);
        SizedNext(View(), Close);
        if Healthy(View()) {
          ClosedHealthy(View());
        }
        sender := false;
        n := Join(fate);
        if Healthy(View()) && summary.Some? {
          FinishedIff(View());
        }
        if status.error == None {
          FinishedWell(View());
        }
      }
    }

    /** Waiting for the worker: without producers its steps are bounded, so it ends. */
    method Join(fate: Fate) returns (ghost n: nat)
      requires Sound() && !sender && phase != Absent
      modifies this
      ensures Sound() && !sender && phase == Finished
      ensures View() == JoinedAfter(old(View()), fate, n)
      ensures old(Healthy(View())) && (forall k: nat :: Works(fate.io(k))) ==> Healthy(View())
    {
      hide Inv, Sized, Work, Turned, Handled, Ended, Healthy, Works;
      n := 0;
      var i := 0;
      while phase == Running
        invariant Sound() && !sender && phase != Absent && i == n
        invariant View() == WorkFor(old(View()), fate.due, fate.io, n)
        decreases if phase == Running then Work(View()) + 1 else 0
      {
        WorkerStepKeeps(View(), fate.due(i), fate.io(i));
        if hand == None {
          TakeTurn(fate.due(i), fate.io(i));
        } else {
          HandleRecord(fate.io(i));
        }
        i, n := i + 1, n + 1;
      }
      if phase != Finished {
        FinishRecording(fate.saved);
      }
      if old(Healthy(View())) && forall k: nat :: Works(fate.io(k)) {
        JoinedHealthy(old(View()), fate, n);
      }
    }

    /** emit_at: never waits. */
    method EmitAt(record: Record)
      requires Valid() && clock <= record.elapsed
      modifies this
      ensures Valid() && View() == Next(old(View()), Emit(record))
      ensures old(Healthy(View())) ==> Healthy(View())
    {
      hide Inv, Sized, Healthy;
      if Healthy(View()) {
        HealthyNext(View(), Emit(record));
      }
      NextKeeps(View(), Emit(record));
      SizedNext(View(), Emit(record));
      if !sender || !status.active {
        return;
      }
      var r := record.(sequence := status.accepted + status.dropped + 1);
      if phase != Running {
        status := status.(dropped := status.dropped + 1, active := false,
        error := if status.error.Some? then status.error else Some(WorkerStopped));
      } else if |queue| >= QUEUE_LIMIT {
        status := status.(dropped := status.dropped + 1);
      } else {
        status := status.(accepted := status.accepted + 1);
        queue := queue + [r];
        log, clock := log + [r], r.elapsed;
      }
    }

    method Flush()
      modifies this
      ensures View() == Flushed(old(View()))
    {
      status := status.(written := status.written + pending);
      pending := 0;
    }

    method Fail(error: Error)
      modifies this
      ensures View() == Failed(old(View()), error)
    {
      phase := Returned(Some(error));
    }

    /** After the loop. */
    method Leave(io: Io)
      modifies this
      ensures View() == Left(old(View()), io)
    {
      status := status.(discarded := status.discarded + |ring|);
      if !io.flush {
        Fail(IoFailed);
        return;
      }
      Flush();
      phase := Returned(if io.sync then None else Some(IoFailed));
    }

    /** The deadline: what is still queued is kept up to the end time, in order, and the rest counted. */
    method DrainQueue()
      requires end.Some?
      modifies this
      ensures View() == Due(old(View()))
    {
      hide Filter;
      Sift();
      finishing, draining := true, true;
    }

    /** try_iter: the queue, record by record, into the ring or away. */
    method Sift()
      requires end.Some?
      modifies `status, `queue, `ring
      ensures queue == [] && ring == old(ring) + Filter(UpTo(end.value), old(queue))
      ensures |Filter(UpTo(end.value), old(queue))| <= |old(queue)|
      ensures status == old(status).(active := false,
                                     discarded := old(status).discarded
                                                  + (|old(queue)| - |Filter(UpTo(end.value), old(queue))|))
    {
      hide Filter;
      status := status.(active := false);
      ghost var kind, all := UpTo(end.value), queue;
      ghost var i := 0;
      FilterNone(kind, all[..0]);
      while queue != []
        invariant i <= |all| && queue == all[i..] && |Filter(kind, all[..i])| <= i
        invariant ring == old(ring) + Filter(kind, all[..i])
        invariant status == old(status).(active := false,
                                         discarded := old(status).discarded + (i - |Filter(kind, all[..i])|))
        decreases |queue|
      {
        var r := queue[0];
        FilterSnoc(kind, all[..i], r);
        assert all[..i + 1] == all[..i] + [r];
        queue := queue[1..];
        if r.elapsed <= end.value {
          ring := ring + [r];
        } else {
          status := status.(discarded := status.discarded + 1);
        }
        i := i + 1;
      }
      assert all[..i] == all;
    }

    method Receive(io: Io)
      modifies this
      ensures View() == Received(old(View()), io)
    {
      if queue != [] {
        hand := Some(queue[0]);
        queue := queue[1..];
      } else if !sender {
        Leave(io);
      } else if !io.flush {
        Fail(IoFailed);
      } else {
        Flush();
      }
    }

    /** The head of the loop, until a record is in hand or the turn is over. */
    method TakeTurn(due: bool, io: Io)
      requires Sound() && phase == Running && hand == None
      modifies this
      ensures Sound() && sender == old(sender) && (old(Valid()) ==> Valid())
      ensures View() == Next(old(View()), Turn(due, io))
      ensures old(Healthy(View())) && Works(io) ==> Healthy(View())
    {
      hide Inv, Sized, Left, Due, Received, Healthy, Works;
      if Healthy(View()) && Works(io) {
        HealthyNext(View(), Turn(due, io));
      }
      NextKeeps(View(), Turn(due, io));
      WorkerSender(View(), Turn(due, io));
      SizedNext(View(), Turn(due, io));
      if finishing && ring == [] {
        Leave(io);
      } else if end.Some? && due && !draining && !finishing {
        DrainQueue();
      } else if draining && ring != [] {
        hand := Some(ring[0]);
        ring := ring[1..];
      } else {
        draining := false;
        Receive(io);
      }
    }

    /** Evict what is too old or does not fit beside the record. */
    method Evict(t: Trigger, r: Record)
      requires ringBytes == Weight(ring, 0)
      modifies `status, `ring, `ringBytes
      ensures ring + [r] == Window(t.preSeconds, old(ring) + [r])
      ensures ringBytes + Cost(r) == Weight(ring + [r], 0)
      ensures |ring| <= |old(ring)|
      ensures status == old(status).(discarded := old(status).discarded + (|old(ring)| - |ring|))
    {
      hide Weight, Cost;
      ghost var all := ring + [r];
      ghost var k := 0;
      var size := Cost(r);
      WeightSnoc(ring, r, 0);
      while ring != [] && (Since(r, ring[0]) > t.preSeconds * 1_000_000 || ringBytes + size > RING_LIMIT)
        invariant k < |all| && ring == all[k..|all| - 1] && ringBytes + size == Weight(all, k)
        invariant forall j :: 0 <= j < k ==> !Fits(t.preSeconds, all, j)
        invariant status == old(status).(discarded := old(status).discarded + k)
        decreases |ring|
      {
        var oldest := ring[0];
        WeightStep(all, k);
        WeightStep(all, |all| - 1);
        WeightDrops(all, k + 1, |all| - 1);
        ring := ring[1..];
        ringBytes := SatSub(ringBytes, Cost(oldest));
        status := status.(discarded := status.discarded + 1);
        k := k + 1;
      }
      hide Fits;
      StartIs(t.preSeconds, all, k);
      WeightSuffix(all, k, 0);
      LastOne(all, k);
    }

    method Keep(t: Trigger, r: Record)
      requires ringBytes == Weight(ring, 0)
      modifies `hand, `status, `ring, `ringBytes
      ensures hand == None && ring == Window(t.preSeconds, old(ring) + [r]) && ringBytes == Weight(ring, 0)
      ensures |ring| <= |old(ring)| + 1
      ensures status == old(status).(discarded := old(status).discarded + (|old(ring)| + 1 - |ring|))
    {
      hide Window, Weight, Cost;
      hand := None;
      Evict(t, r);
      ringBytes := ringBytes + Cost(r);
      ring := ring + [r];
    }

    /** Before the trigger: make room, keep the record, and see whether it fires. */
    method RingRecord(t: Trigger, r: Record)
      requires ringBytes == Weight(ring, 0)
      modifies this
      ensures View() == Ringed(old(View()), t, r)
    {
      hide Fault, Window, Weight, Cost;
      Keep(t, r);
      if Fault(t, r) {
        Fire(t, r);
      }
    }

    method Fire(t: Trigger, r: Record)
      modifies `end, `draining, `status
      ensures end == Some(Deadline(t, r)) && draining
      ensures status == old(status).(armed := false, triggeredAt := Some(r.stamp))
    {
      end := Some(Deadline(t, r));
      draining := true;
      status := status.(armed := false, triggeredAt := Some(r.stamp));
    }

    method AddLine(r: Record, size: nat)
      modifies `volumes, `total, `partBytes, `pending, `status
      ensures volumes == AddLast(old(volumes), r) && total == old(total) + size && partBytes == old(partBytes) + size
      ensures pending == old(pending) + 1 && status == old(status).(bytes := total)
    {
      volumes := AddLast(volumes, r);
      total := total + size;
      partBytes := partBytes + size;
      pending := pending + 1;
      status := status.(bytes := total);
    }

    method Append(r: Record, size: nat, io: Io)
      modifies this
      ensures View() == Appended(old(View()), r, size, io)
    {
      hide AddLast, Flushed, Failed;
      if !io.write {
        Fail(IoFailed);
        return;
      }
      AddLine(r, size);
      if io.slow || pending >= 100 {
        if io.flushAfter {
          Flush();
        } else {
          Fail(IoFailed);
        }
      }
    }

    /** A record becomes a line: it must fit a line, the session and, unless it is the first, its volume. */
    method Write(r: Record, io: Io)
      modifies this
      ensures View() == Wrote(old(View()), r, io)
    {
      hide Appended;
      var size := config.json(r) + 1;
      if size > LINE_LIMIT {
        Fail(LineTooLong);
        return;
      }
      if total + size > config.limit {
        if io.flush {
          Flush();
        }
        Fail(if io.flush && io.sync then CapacityReached else IoFailed);
        return;
      }
      if partBytes > 0 && partBytes + size > config.partLimit {
        if !io.flush {
          Fail(IoFailed);
          return;
        }
        Flush();
        if !io.sync || !io.open {
          Fail(IoFailed);
          return;
        }
        partBytes := 0;
        volumes := volumes + [[]];
      }
      Append(r, size, io);
    }

    /** The rest of the turn, with a record in hand. */
    method HandleRecord(io: Io)
      requires Sound() && phase == Running && hand.Some?
      modifies this
      ensures Sound() && sender == old(sender) && (old(Valid()) ==> Valid())
      ensures View() == Next(old(View()), Handle(io))
      ensures old(Healthy(View())) && Works(io) ==> Healthy(View())
    {
      hide Inv, Sized, Ringed, Wrote, Healthy, Works;
      if Healthy(View()) && Works(io) {
        HealthyNext(View(), Handle(io));
      }
      NextKeeps(View(), Handle(io));
      WorkerSender(View(), Handle(io));
      SizedNext(View(), Handle(io));
      var r := hand.value;
      if config.trigger.Some? && end.None? && !IsContext(r) {
        RingWeight(View());
        RingRecord(config.trigger.value, r);
        return;
      }
      hand := None;
      if end.Some? && r.elapsed > end.value {
        status := status.(discarded := status.discarded + 1);
      } else {
        Write(r, io);
      }
    }

    /** finish_recording. */
    method FinishRecording(saved: bool)
      requires Sound() && phase.Returned?
      modifies this
      ensures Sound() && sender == old(sender) && (old(Valid()) ==> Valid())
      ensures View() == Next(old(View()), Finish(saved)) && phase == Finished
      ensures old(Healthy(View())) ==> Healthy(View())
    {
      hide Inv, Sized, Healthy;
      if Healthy(View()) {
        HealthyNext(View(), Finish(saved));
      }
      NextKeeps(View(), Finish(saved));
      WorkerSender(View(), Finish(saved));
      SizedNext(View(), Finish(saved));
      status := status.(active := false, armed := false);
      if phase.result.Some? {
        status := status.(error := phase.result);
      }
      status := status.(unwritten := SatSub(status.accepted, status.written + status.discarded));
      summary := None;
      if saved {
        summary := Some(status);
      } else {
        status := status.(error := Some(SummaryLost));
      }
      phase := Finished;
    }
  }

  /** What ring_bytes holds while the ring still evicts. */
  lemma RingWeight(s: State)
    requires Inv(s) && s.worker.phase == Running && s.config.trigger.Some? && s.worker.end == None
    ensures s.worker.ringBytes == Weight(s.worker.ring, 0)
  {
    hide Channel, Counted, Content, Window, Filter, First;
  }

  lemma StartedIs(s: State, t: State, c: Config)
    requires !s.sender && (s.worker.phase == Absent || s.worker.phase == Finished)
    ensures Next(s, Start(c)) == Started(s, c) == Started(t, c) && Started(t, c).sender
  {}
}
