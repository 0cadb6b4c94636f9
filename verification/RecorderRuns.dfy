/** What every history of the recorder keeps: no accepted record is ever unaccounted for, and a worker
    that ends well leaves exactly the content its log calls for. */
module RecorderRuns {
  import opened RecordingContent
  import opened RecorderSteps

  function Flatten(volumes: seq<seq<Record>>): seq<Record> {
    if volumes == [] then [] else Flatten(volumes[..|volumes| - 1]) + volumes[|volumes| - 1]
  }

  /** Everything written, over all volumes. */
  function Out(w: Worker): seq<Record> {
    Flatten(w.volumes)
  }

  function Hand(w: Worker): seq<Record> {
    if w.hand.Some? then [w.hand.value] else []
  }

  /** The records the worker has taken from the queue. */
  function Taken(s: State): seq<Record>
    requires |s.queue| <= |s.log|
  {
    s.log[..|s.log| - |s.queue|]
  }

  // ---- the parts of the invariant ----

  /** Sequence numbers increase, and skip at most as many as were dropped. */
  predicate Numbered(log: seq<Record>, dropped: nat) {
    && (forall i :: 0 <= i < |log| ==> i + 1 <= log[i].sequence <= i + 1 + dropped)
    && (forall i, j :: 0 <= i < j < |log| ==> log[i].sequence < log[j].sequence)
  }

  predicate Channel(s: State) {
    && |s.queue| <= |s.log| && Joined(s.log, s.queue) && s.status.accepted == |s.log|
    && Offered(s.log, s.clock, s.status.dropped)
  }

  /** The queue is the end of the log, and holds no more than it can. */
  predicate Joined(log: seq<Record>, queue: seq<Record>)
    requires |queue| <= |log|
  {
    |queue| <= QUEUE_LIMIT && log == log[..|log| - |queue|] + queue
  }

  predicate Offered(log: seq<Record>, clock: nat, dropped: nat) {
    Sorted(log) && (log != [] ==> log[|log| - 1].elapsed <= clock) && Numbered(log, dropped)
  }

  /** Nothing is unaccounted for. */
  predicate Counted(s: State) {
    var w, u := s.worker, s.status;
    && u.accepted == |s.queue| + |w.ring| + |Hand(w)| + w.pending + u.written + u.discarded
    && |Out(w)| == u.written + w.pending
  }

  predicate Plain(w: Worker, taken: seq<Record>) {
    w.ring == [] && !w.draining && !w.finishing && w.end == None && Out(w) + Hand(w) == taken
  }

  /** Before the trigger: context records are written, the others go through the ring. */
  predicate Waiting(t: Trigger, w: Worker, taken: seq<Record>) {
    && !w.draining && !w.finishing && w.end == None && |Hand(w)| <= |taken|
    && var done := taken[..|taken| - |Hand(w)|];
    && taken == done + Hand(w)
    && !Fired(t, done)
    && Out(w) == Filter(Contexts, done)
    && w.ring == Window(t.preSeconds, Filter(Others, done))
    && w.ringBytes == Weight(w.ring, 0)
  }

  predicate AllUpTo(end: nat, rs: seq<Record>) {
    forall r :: r in rs ==> Takes(UpTo(end), r)
  }

  /** From the trigger on: written, in hand and in the ring make up the content of what was taken. */
  predicate Triggered(t: Trigger, w: Worker, taken: seq<Record>) {
    && Fired(t, taken) && w.end == Some(End(t, taken))
    && Out(w) + Filter(UpTo(w.end.value), Hand(w)) + w.ring == Content(Some(t), taken)
    && AllUpTo(w.end.value, w.ring)
    && (w.ring == [] || w.draining) && (w.finishing ==> w.draining)
  }

  predicate Shape(trigger: Option<Trigger>, w: Worker, taken: seq<Record>) {
    match trigger
    case None => Plain(w, taken)
    case Some(t) => if w.end == None then Waiting(t, w, taken) else Triggered(t, w, taken)
  }

  /** A worker that ended well: the volumes hold the content of the log, all of it durable. */
  predicate Complete(s: State) {
    && Out(s.worker) == Content(s.config.trigger, s.log)
    && s.status.written == |Out(s.worker)|
    && s.status.accepted == s.status.written + s.status.discarded
  }

  predicate Busy(s: State)
    requires |s.queue| <= |s.log|
  {
    && Counted(s) && Shape(s.config.trigger, s.worker, Taken(s))
    && (s.worker.finishing ==> !s.status.active && s.queue == [])
    && s.status.error == None
  }

  predicate Over(s: State) {
    && !s.status.active
    && s.status.accepted == s.status.written + s.status.discarded + s.status.unwritten
    && (s.summary.Some? ==> s.summary.value == s.status)
    && (s.status.error == None ==> s.summary.Some? && s.status.unwritten == 0 && Complete(s))
  }

  predicate Stage(s: State)
    requires |s.queue| <= |s.log|
  {
    match s.worker.phase
    case Absent => !s.sender
    case Running => Busy(s)
    case Returned(None) => Complete(s) && s.status.error == None && !(s.status.active && s.sender)
    case Returned(_) => s.status.written + s.status.discarded <= s.status.accepted
    case Finished => Over(s)
  }

  predicate Inv(s: State) {
    Channel(s) && Stage(s) && (s.worker.phase != Finished ==> s.summary == None)
  }

  // ---- written records ----

  lemma FlattenAdd(volumes: seq<seq<Record>>, r: Record)
    ensures Flatten(AddLast(volumes, r)) == Flatten(volumes) + [r]
  {
    if volumes == [] {
      assert Flatten([[r]]) == Flatten([[r]][..0]) + [r];
    } else {
      var n := |volumes| - 1;
      var v := volumes[..n] + [volumes[n] + [r]];
      assert v[..|v| - 1] == volumes[..n];
    }
  }

  lemma FlattenNew(volumes: seq<seq<Record>>)
    ensures Flatten(volumes + [[]]) == Flatten(volumes)
  {
    assert (volumes + [[]])[..|volumes|] == volumes;
  }

  lemma {:induction false} FilterSorted(kind: Kind, rs: seq<Record>)
    requires Sorted(rs)
    ensures Sorted(Filter(kind, rs))
  {
    if rs != [] {
      FilterSorted(kind, rs[..|rs| - 1]);
      FilterTakes(kind, rs[..|rs| - 1]);
      EarlierThanLast(rs);
      SortedOneMore(Filter(kind, rs[..|rs| - 1]), One(kind, rs[|rs| - 1]), rs[|rs| - 1]);
    }
  }

  lemma EarlierThanLast(rs: seq<Record>)
    requires Sorted(rs) && rs != []
    ensures forall x :: x in rs[..|rs| - 1] ==> x.elapsed <= rs[|rs| - 1].elapsed
  {}

  lemma SortedOneMore(rs: seq<Record>, more: seq<Record>, last: Record)
    requires Sorted(rs) && (more == [] || more == [last])
    requires forall x :: x in rs ==> x.elapsed <= last.elapsed
    ensures Sorted(rs + more)
  {
    assert forall i :: 0 <= i < |rs| ==> rs[i] in rs;
  }

  lemma FilterOne(kind: Kind, r: Record)
    ensures Filter(kind, [r]) == One(kind, r)
  {
    assert [r][..0] == [];
  }

  // ---- the shape, step by step ----

  lemma ShapeReceives(trigger: Option<Trigger>, w: Worker, taken: seq<Record>, r: Record)
    requires Shape(trigger, w, taken) && w.hand == None && !w.finishing && !(w.draining && w.ring != [])
    ensures Shape(trigger, w.(draining := false, hand := Some(r)), taken + [r])
  {
    hide Filter, Flatten, Window, First, Content;
    var n := w.(draining := false, hand := Some(r));
    if trigger == None {
      assert Out(w) == taken;
    } else {
      var t := trigger.value;
      if w.end == None {
        assert taken[..|taken|] == taken;
        assert (taken + [r])[..|taken|] == taken;
      } else {
        ContentAfter(t, taken, [r]);
        FilterNone(UpTo(w.end.value), Hand(w));
        assert Out(w) + [] + w.ring == Out(w);
      }
    }
  }

  lemma ShapePops(trigger: Option<Trigger>, w: Worker, taken: seq<Record>)
    requires Shape(trigger, w, taken) && w.hand == None && w.draining && w.ring != []
    ensures Shape(trigger, w.(hand := Some(w.ring[0]), ring := w.ring[1..]), taken)
  {
    hide Filter, Flatten, Window, First, Content;
    var r := w.ring[0];
    FilterNone(UpTo(w.end.value), Hand(w));
    FilterOne(UpTo(w.end.value), r);
    assert r in w.ring;
    assert Out(w) + [] + w.ring == Out(w) + [r] + w.ring[1..];
  }

  lemma ShapeDue(trigger: Option<Trigger>, w: Worker, taken: seq<Record>, queue: seq<Record>)
    requires Shape(trigger, w, taken) && w.hand == None && w.end.Some? && !w.draining
    ensures var kept := Filter(UpTo(w.end.value), queue);
            Shape(trigger, w.(ring := w.ring + kept, finishing := true, draining := true), taken + queue)
  {
    hide Filter, Flatten, Window, First, Content;
    var kept := Filter(UpTo(w.end.value), queue);
    ContentAfter(trigger.value, taken, queue);
    FilterTakes(UpTo(w.end.value), queue);
    assert Out(w) + Filter(UpTo(w.end.value), Hand(w)) + w.ring + kept
        == Out(w) + Filter(UpTo(w.end.value), Hand(w)) + (w.ring + kept);
  }

  lemma ShapeRings(t: Trigger, w: Worker, taken: seq<Record>, r: Record)
    requires Waiting(t, w, taken) && w.hand == Some(r) && Sorted(taken) && !IsContext(r)
    ensures var kept := Window(t.preSeconds, w.ring + [r]);
            var n := w.(ring := kept, ringBytes := Weight(kept, 0), hand := None);
            if Fault(t, r) then Triggered(t, n.(end := Some(Deadline(t, r)), draining := true), taken)
            else Waiting(t, n, taken)
  {
    hide Filter, Flatten, Window, First, Content, Fault, Weight;
    var done := taken[..|taken| - 1];
    FilterSnoc(Contexts, done, r);
    FilterSnoc(Others, done, r);
    FilterSorted(Others, taken);
    WindowSnoc(t.preSeconds, Filter(Others, done), r);
    FirstSnoc(t, done, r, 0);
    if Fault(t, r) {
      ContentFires(t, done, r);
      var ring, e := Window(t.preSeconds, w.ring + [r]), Deadline(t, r);
      FilterNone(UpTo(e), []);
      assert Out(w) + [] + ring == Out(w) + ring;
      RingUpTo(t, done, r);
    } else {
      assert taken[..|taken|] == taken;
    }
  }

  /** At the trigger the ring holds nothing newer than the record that fired. */
  lemma RingUpTo(t: Trigger, done: seq<Record>, r: Record)
    requires Sorted(done + [r])
    ensures AllUpTo(Deadline(t, r), Window(t.preSeconds, Filter(Others, done + [r])))
  {
    var all := done + [r];
    FilterTakes(Others, all);
    forall x | x in all ensures x.elapsed <= r.elapsed {
      var i :| 0 <= i < |all| && all[i] == x;
      assert all[i].elapsed <= all[|done|].elapsed;
    }
  }

  lemma ShapeWrites(trigger: Option<Trigger>, w: Worker, taken: seq<Record>, r: Record, n: Worker)
    requires Shape(trigger, w, taken) && w.hand == Some(r)
    requires trigger.Some? && w.end == None ==> IsContext(r)
    requires w.end.Some? ==> r.elapsed <= w.end.value
    requires n.end == w.end && n.draining == w.draining && n.finishing == w.finishing && n.ring == w.ring
    requires n.ringBytes == w.ringBytes && n.hand == None && Out(n) == Out(w) + [r]
    ensures Shape(trigger, n, taken)
  {
    hide Filter, Flatten, Window, First, Content, Fault, Weight, Out;
    if trigger.Some? {
      var t := trigger.value;
      if w.end == None {
        var done := taken[..|taken| - 1];
        FilterSnoc(Contexts, done, r);
        FilterSnoc(Others, done, r);
        FirstSnoc(t, done, r, 0);
        assert taken[..|taken|] == taken;
        assert Filter(Others, done) + [] == Filter(Others, done);
      } else {
        FilterOne(UpTo(w.end.value), r);
        FilterNone(UpTo(w.end.value), Hand(n));
        assert Out(w) + [r] + [] + w.ring == Out(w) + [r] + w.ring;
      }
    }
  }

  lemma ShapeDiscards(trigger: Option<Trigger>, w: Worker, taken: seq<Record>, r: Record)
    requires Shape(trigger, w, taken) && w.hand == Some(r) && w.end.Some? && r.elapsed > w.end.value
    ensures Shape(trigger, w.(hand := None), taken)
  {
    hide Filter, Flatten, Window, First, Content;
    FilterOne(UpTo(w.end.value), r);
    FilterNone(UpTo(w.end.value), []);
  }

  /** A worker that leaves with an empty queue, or at its deadline, has the whole content. */
  lemma ShapeLeaves(trigger: Option<Trigger>, w: Worker, log: seq<Record>)
    requires Shape(trigger, w, log) && w.hand == None && (w.draining ==> w.ring == [])
    ensures Out(w) == Content(trigger, log)
    ensures trigger.Some? && w.end.Some? ==> w.ring == []
  {
    hide Filter, Flatten, Window, Weight, Hit;
    if trigger.Some? && w.end.Some? {
      FilterNone(UpTo(w.end.value), Hand(w));
    } else {
      assert log[..|log|] == log;
    }
  }

  // ---- every step keeps the invariant ----

  lemma NumberedSnoc(log: seq<Record>, dropped: nat, r: Record)
    requires Numbered(log, dropped) && r.sequence == |log| + dropped + 1
    ensures Numbered(log + [r], dropped)
  {}

  lemma EmitChannel(s: State, record: Record)
    requires Channel(s) && s.clock <= record.elapsed
    ensures Channel(Emitted(s, record))
    ensures |Emitted(s, record).queue| <= |Emitted(s, record).log| && Taken(Emitted(s, record)) == Taken(s)
  {
    hide Offered, Joined;
    var u := s.status;
    var r := record.(sequence := u.accepted + u.dropped + 1);
    OfferedSnoc(s.log, s.clock, u.dropped, r);
    if |s.queue| < QUEUE_LIMIT {
      QueueSnoc(s.log, s.queue, r);
    }
  }

  lemma OfferedSnoc(log: seq<Record>, clock: nat, dropped: nat, r: Record)
    requires Offered(log, clock, dropped) && r.sequence == |log| + dropped + 1 && clock <= r.elapsed
    ensures Offered(log + [r], r.elapsed, dropped) && Offered(log, clock, dropped + 1)
  {
    hide Sorted, Numbered;
    NumberedSnoc(log, dropped, r);
    NumberedDrops(log, dropped);
    SortedSnoc(log, clock, r);
  }

  lemma QueueSnoc(log: seq<Record>, queue: seq<Record>, r: Record)
    requires |queue| <= |log| && Joined(log, queue) && |queue| < QUEUE_LIMIT
    ensures var n := log + [r]; var q := queue + [r];
            n[..|n| - |q|] == log[..|log| - |queue|] && Joined(n, q)
  {
    var n, q, taken := log + [r], queue + [r], log[..|log| - |queue|];
    assert n[..|n| - |q|] == taken;
    assert n == taken + queue + [r] == taken + q;
  }

  lemma NumberedDrops(log: seq<Record>, dropped: nat)
    requires Numbered(log, dropped)
    ensures Numbered(log, dropped + 1)
  {}

  lemma SortedSnoc(log: seq<Record>, clock: nat, r: Record)
    requires Sorted(log) && (log != [] ==> log[|log| - 1].elapsed <= clock) && clock <= r.elapsed
    ensures Sorted(log + [r])
  {}

  lemma EmitKeeps(s: State, record: Record)
    requires Inv(s) && s.clock <= record.elapsed
    ensures Inv(Emitted(s, record))
  {
    hide Channel, Shape, Flatten, Content, Taken;
    EmitChannel(s, record);
  }

  /** The worker's own steps change neither the log nor what was offered. */
  lemma WorkerChannel(s: State, n: State)
    requires Channel(s) && n.log == s.log && n.clock == s.clock && n.status.accepted == s.status.accepted
    requires n.status.dropped == s.status.dropped
    requires n.queue == s.queue || (n.queue == [] && s.queue != []) || (s.queue != [] && n.queue == s.queue[1..])
    ensures Channel(n) && |n.queue| <= |n.log| && |s.queue| <= |s.log|
    ensures n.queue == s.queue ==> Taken(n) == Taken(s)
    ensures n.queue == [] ==> Taken(n) == s.log
    ensures s.queue != [] && n.queue == s.queue[1..] ==> Taken(n) == Taken(s) + [s.queue[0]]
  {
    hide Offered, Joined;
    if s.queue != [] {
      QueueHead(s.log, s.queue);
    }
    QueueNone(s.log);
  }

  lemma QueueHead(log: seq<Record>, queue: seq<Record>)
    requires 0 < |queue| <= |log| && Joined(log, queue)
    ensures var q := queue[1..];
            log[..|log| - |q|] == log[..|log| - |queue|] + [queue[0]] && Joined(log, q)
  {
    assert queue == [queue[0]] + queue[1..];
  }

  lemma QueueNone(log: seq<Record>)
    ensures log[..|log|] == log && Joined(log, [])
  {}

  lemma FailedKeeps(s: State, n: State, error: Error)
    requires Channel(s) && Channel(n) && s.summary == None && n.summary == None
    requires n.worker.phase == Returned(Some(error))
    requires n.status.written + n.status.discarded <= n.status.accepted
    ensures Inv(n)
  {}

  lemma FlushedKeeps(s: State)
    requires Inv(s) && s.worker.phase == Running
    ensures Inv(Flushed(s))
  {
    hide Flatten, Content, Waiting, Triggered;
    WorkerChannel(s, Flushed(s));
    assert Out(Flushed(s).worker) == Out(s.worker);
    ShapePending(s.config.trigger, s.worker, Taken(s), 0);
  }

  lemma ShapePending(trigger: Option<Trigger>, w: Worker, taken: seq<Record>, pending: nat)
    requires Shape(trigger, w, taken)
    ensures Shape(trigger, w.(pending := pending), taken)
  {
    hide Flatten, Content, Filter, Window, Weight, First;
  }

  lemma LeftKeeps(s: State, io: Io)
    requires Inv(s) && s.worker.phase == Running && s.worker.hand == None
    requires s.queue == [] && !(s.status.active && s.sender) && (s.worker.draining ==> s.worker.ring == [])
    ensures Inv(Left(s, io))
  {
    hide Flatten, Content, Shape, Channel, Taken;
    var n := Left(s, io);
    WorkerChannel(s, n);
    ShapeLeaves(s.config.trigger, s.worker, s.log);
    assert Out(n.worker) == Out(s.worker);
  }

  lemma ReceivedKeeps(s: State, io: Io)
    requires Inv(s) && s.worker.phase == Running && s.worker.hand == None && !s.worker.draining
    ensures Inv(Received(s, io))
  {
    hide Flatten, Content, Shape, Channel, Taken;
    var n := Received(s, io);
    if s.queue != [] {
      WorkerChannel(s, n);
      NotFinishing(s);
      ShapeReceives(s.config.trigger, s.worker, Taken(s), s.queue[0]);
      assert n.worker == s.worker.(draining := false, hand := Some(s.queue[0]));
      assert Out(n.worker) == Out(s.worker);
    } else if !s.sender {
      LeftKeeps(s, io);
    } else if !io.flush {
      WorkerChannel(s, n);
      FailedKeeps(s, n, IoFailed);
    } else {
      FlushedKeeps(s);
    }
  }

  lemma NotFinishing(s: State)
    requires Inv(s) && s.worker.phase == Running && !s.worker.draining
    ensures !s.worker.finishing
  {
    hide Flatten, Content, Channel, Window, Filter, First;
  }

  lemma DueKeeps(s: State)
    requires Inv(s) && s.worker.phase == Running && s.worker.hand == None && s.worker.end.Some?
    requires !s.worker.draining
    ensures Inv(Due(s))
  {
    hide Flatten, Content, Shape, Channel, Taken, Filter;
    var n := Due(s);
    WorkerChannel(s, n);
    ShapeDue(s.config.trigger, s.worker, Taken(s), s.queue);
    LogSplit(s);
    FilterTakes(UpTo(s.worker.end.value), s.queue);
    assert Out(n.worker) == Out(s.worker);
  }

  lemma LogSplit(s: State)
    requires Channel(s)
    ensures s.log == Taken(s) + s.queue && |s.queue| <= |s.log|
  {}

  lemma PopKeeps(s: State)
    requires Inv(s) && s.worker.phase == Running && s.worker.hand == None && s.worker.draining && s.worker.ring != []
    ensures Inv(s.(worker := s.worker.(hand := Some(s.worker.ring[0]), ring := s.worker.ring[1..])))
  {
    hide Flatten, Content, Shape, Channel, Taken;
    var n := s.(worker := s.worker.(hand := Some(s.worker.ring[0]), ring := s.worker.ring[1..]));
    WorkerChannel(s, n);
    ShapePops(s.config.trigger, s.worker, Taken(s));
    assert Out(n.worker) == Out(s.worker);
  }

  lemma DrainedKeeps(s: State)
    requires Inv(s) && s.worker.phase == Running && s.worker.hand == None && !s.worker.finishing
    requires !(s.worker.draining && s.worker.ring != [])
    ensures Inv(s.(worker := s.worker.(draining := false)))
  {
    hide Flatten, Content, Channel, Taken, Window, Filter, First;
    var n := s.(worker := s.worker.(draining := false));
    WorkerChannel(s, n);
    assert Out(n.worker) == Out(s.worker);
  }

  lemma TurnKeeps(s: State, due: bool, io: Io)
    requires Inv(s) && s.worker.phase == Running && s.worker.hand == None
    ensures Inv(Turned(s, due, io))
  {
    hide Inv, Left, Due, Received;
    var w := s.worker;
    if w.finishing && w.ring == [] {
      FinishingQueue(s);
      LeftKeeps(s, io);
    } else if w.end.Some? && due && !w.draining && !w.finishing {
      DueKeeps(s);
    } else if w.draining && w.ring != [] {
      PopKeeps(s);
    } else {
      DrainedFinishing(s);
      DrainedKeeps(s);
      ReceivedKeeps(s.(worker := w.(draining := false)), io);
    }
  }

  lemma FinishingQueue(s: State)
    requires Inv(s) && s.worker.phase == Running && s.worker.finishing
    ensures s.queue == [] && !s.status.active
  {
    hide Shape, Channel, Counted;
  }

  lemma DrainedFinishing(s: State)
    requires Inv(s) && s.worker.phase == Running
    ensures s.worker.finishing ==> s.worker.draining
  {
    hide Channel, Counted, Content, Window, Filter, First;
  }

  // ---- the record in hand ----

  lemma RingedKeeps(s: State, t: Trigger, r: Record)
    requires Inv(s) && s.worker.phase == Running && s.worker.hand == Some(r)
    requires s.config.trigger == Some(t) && s.worker.end == None && !IsContext(r)
    ensures Inv(Ringed(s, t, r))
  {
    hide Flatten, Content, Fault, Window, Weight, Filter, First, Sorted, Triggered, Waiting, Channel, Taken;
    var n := Ringed(s, t, r);
    WorkerChannel(s, n);
    TakenSorted(s);
    ShapeRings(t, s.worker, Taken(s), r);
    WindowSize(t.preSeconds, s.worker.ring + [r]);
    assert Out(n.worker) == Out(s.worker);
  }

  lemma WindowSize(pre: nat, rs: seq<Record>)
    ensures |Window(pre, rs)| <= |rs|
  {}

  lemma TakenSorted(s: State)
    requires Channel(s)
    ensures Sorted(Taken(s))
  {}

  lemma DiscardedKeeps(s: State, r: Record)
    requires Inv(s) && s.worker.phase == Running && s.worker.hand == Some(r)
    requires s.worker.end.Some? && r.elapsed > s.worker.end.value
    ensures Inv(Discarded(s.(worker := s.worker.(hand := None)), 1))
  {
    hide Flatten, Content, Shape, Channel, Taken;
    var n := Discarded(s.(worker := s.worker.(hand := None)), 1);
    WorkerChannel(s, n);
    ShapeDiscards(s.config.trigger, s.worker, Taken(s), r);
    assert Out(n.worker) == Out(s.worker);
  }

  /** A state with the record out of hand, ready to be written: what Counted says but for it. */
  ghost predicate Writing(s: State, r: Record, o: State) {
    && Inv(o) && o.worker.phase == Running && o.worker.hand == Some(r)
    && (o.config.trigger.Some? && o.worker.end == None ==> IsContext(r))
    && (o.worker.end.Some? ==> r.elapsed <= o.worker.end.value)
    && s.worker.phase == Running && s.worker.hand == None && s.summary == None && s.status.error == None
    && s.config == o.config && s.queue == o.queue && s.log == o.log && s.clock == o.clock && s.sender == o.sender
    && s.status.accepted == o.status.accepted && s.status.dropped == o.status.dropped
    && s.status.active == o.status.active && s.status.discarded == o.status.discarded
    && s.status.written + s.worker.pending == o.status.written + o.worker.pending
    && s.worker.end == o.worker.end && s.worker.draining == o.worker.draining
    && s.worker.finishing == o.worker.finishing && s.worker.ring == o.worker.ring
    && s.worker.ringBytes == o.worker.ringBytes && Out(s.worker) == Out(o.worker)
  }

  lemma AppendedKeeps(s: State, r: Record, size: nat, io: Io, o: State)
    requires Writing(s, r, o)
    ensures Inv(Appended(s, r, size, io))
  {
    hide Flatten, Content, Shape, Channel, Taken, AddLast;
    var n := Appended(s, r, size, io);
    WorkerChannel(o, n);
    FlattenAdd(s.worker.volumes, r);
    if !io.write || ((io.slow || s.worker.pending + 1 >= 100) && !io.flushAfter) {
      FailedKeeps(o, n, IoFailed);
    } else {
      ShapeWrites(o.config.trigger, o.worker, Taken(o), r, n.worker);
    }
  }

  lemma WriteFails(s: State, r: Record, error: Error, o: State)
    requires Writing(s, r, o)
    ensures Inv(Failed(s, error)) && Inv(Failed(Flushed(s), error))
  {
    hide Flatten, Content, Shape, Taken;
    WorkerChannel(o, Failed(s, error));
    FailedKeeps(o, Failed(s, error), error);
    WorkerChannel(o, Failed(Flushed(s), error));
    FailedKeeps(o, Failed(Flushed(s), error), error);
  }

  lemma RotatedWriting(s: State, r: Record, o: State)
    requires Writing(s, r, o)
    ensures Writing(Rotated(s), r, o)
  {
    hide Flatten, Inv;
    FlattenNew(s.worker.volumes);
  }

  lemma WroteKeeps(s: State, r: Record, io: Io)
    requires Inv(s) && s.worker.phase == Running && s.worker.hand == Some(r)
    requires s.config.trigger.Some? && s.worker.end == None ==> IsContext(r)
    requires s.worker.end.Some? ==> r.elapsed <= s.worker.end.value
    ensures Inv(Wrote(s.(worker := s.worker.(hand := None)), r, io))
  {
    hide Inv, Appended, Rotated, Flatten;
    var e := s.(worker := s.worker.(hand := None));
    OutOfHand(s, r);
    RotatedWriting(e, r, s);
    var size := s.config.json(r) + 1;
    AppendedKeeps(e, r, size, io, s);
    AppendedKeeps(Rotated(e), r, size, io, s);
    WriteFails(e, r, LineTooLong, s);
    WriteFails(e, r, IoFailed, s);
    WriteFails(e, r, CapacityReached, s);
  }

  lemma OutOfHand(s: State, r: Record)
    requires Inv(s) && s.worker.phase == Running && s.worker.hand == Some(r)
    requires s.config.trigger.Some? && s.worker.end == None ==> IsContext(r)
    requires s.worker.end.Some? ==> r.elapsed <= s.worker.end.value
    ensures Writing(s.(worker := s.worker.(hand := None)), r, s)
  {
    hide Channel, Counted, Shape;
  }

  lemma HandleKeeps(s: State, r: Record, io: Io)
    requires Inv(s) && s.worker.phase == Running && s.worker.hand == Some(r)
    ensures Inv(Handled(s, r, io))
  {
    hide Inv, Ringed, Wrote, Discarded;
    if s.config.trigger.Some? && s.worker.end.None? && !IsContext(r) {
      RingedKeeps(s, s.config.trigger.value, r);
    } else if s.worker.end.Some? && r.elapsed > s.worker.end.value {
      DiscardedKeeps(s, r);
    } else {
      WroteKeeps(s, r, io);
    }
  }

  // ---- start, finish, stop ----

  lemma StartKeeps(s: State, config: Config)
    ensures Inv(Started(s, config))
  {
    hide Window, Filter;
    var n := Started(s, config);
    assert Out(n.worker) == Flatten([[]][..0]) + [];
    if config.trigger.Some? {
      FilterNone(Contexts, []);
      FilterNone(Others, []);
      WindowNone(config.trigger.value.preSeconds, Filter(Others, []));
    }
  }

  lemma WindowNone(pre: nat, rs: seq<Record>)
    requires rs == []
    ensures Window(pre, rs) == [] && Weight([], 0) == 0
  {}

  lemma SameOut(w: Worker, v: Worker)
    requires v.volumes == w.volumes
    ensures Out(v) == Out(w)
  {}

  lemma FinishKeeps(s: State, saved: bool)
    requires Inv(s) && s.worker.phase.Returned?
    ensures Inv(Ended(s, s.worker.phase.result, saved))
  {
    hide Flatten, Content, Channel, Taken, Shape, Out;
    var n := Ended(s, s.worker.phase.result, saved);
    WorkerChannel(s, n);
    SameOut(s.worker, n.worker);
  }

  lemma CloseKeeps(s: State)
    requires Inv(s)
    ensures Inv(s.(sender := false))
  {
    hide Flatten, Content, Shape, Channel, Taken;
    WorkerChannel(s, s.(sender := false));
  }

  lemma NextKeeps(s: State, a: Action)
    requires Inv(s)
    ensures Inv(Next(s, a))
  {
    hide Inv, Started, Emitted, Turned, Handled, Ended;
    if Enabled(s, a) {
      match a
      case Start(config) => StartKeeps(s, config);
      case Emit(r) => EmitKeeps(s, r);
      case Turn(due, io) => TurnKeeps(s, due, io);
      case Handle(io) => HandleKeeps(s, s.worker.hand.value, io);
      case Finish(saved) => FinishKeeps(s, saved);
      case Close => CloseKeeps(s);
    }
  }

  // ---- what a reader of the summary is told ----

  datatype Warning = Silence | Unconfirmed | Inconsistent | Gaps(dropped: nat, unwritten: nat, error: Option<Error>)

  function SessionWarning(summary: Option<Status>): Warning {
    match summary
    case None => Unconfirmed
    case Some(u) =>
      if u.active || u.written > SatSub(u.accepted, u.discarded)
         || u.unwritten != SatSub(u.accepted, u.written + u.discarded) then Inconsistent
      else if u.error.Some? || u.dropped > 0 || u.unwritten > 0 then Gaps(u.dropped, u.unwritten, u.error)
      else Silence
  }

  /** count_warning: the readable records against the summary. */
  predicate CountWarning(summary: Option<Status>, count: nat) {
    summary.Some? && !summary.value.active && summary.value.written != count
  }

  // ---- the theorems: any history ----

  lemma {:induction false} RunInv(config: Config, actions: seq<Action>)
    ensures Inv(After(config, actions))
  {
    hide Inv, Next;
    if actions == [] {
      InitialInv(config);
    } else {
      RunInv(config, actions[..|actions| - 1]);
      NextKeeps(After(config, actions[..|actions| - 1]), actions[|actions| - 1]);
    }
  }

  lemma InitialInv(config: Config)
    ensures Inv(Initial(config))
  {}

  /** While a worker runs, every accepted record is queued, in the ring, in hand, pending, written or
      discarded, and exactly one of these; written and pending are what is in the volumes. */
  lemma Conservation(config: Config, actions: seq<Action>)
    requires After(config, actions).worker.phase == Running
    ensures var s := After(config, actions);
            && s.status.accepted == |s.queue| + |s.worker.ring| + |Hand(s.worker)| + s.worker.pending
                                    + s.status.written + s.status.discarded
            && |Out(s.worker)| == s.status.written + s.worker.pending
  {
    RunInv(config, actions);
    hide Channel, Shape, Taken, After;
  }

  /** Before the trigger the ring is the longest suffix, of the other records dealt with, that lies
      within the pre-trigger time of the newest and fits the ring; the newest is always there. */
  lemma RingIsLongestSuffix(config: Config, actions: seq<Action>)
    requires var s := After(config, actions);
             s.worker.phase == Running && s.config.trigger.Some? && s.worker.end == None
    ensures var s := After(config, actions); var w := s.worker;
            && |s.queue| + |Hand(w)| <= |s.log|
            && var rs := Filter(Others, s.log[..|s.log| - |s.queue| - |Hand(w)|]);
            && |w.ring| <= |rs| && var k := |rs| - |w.ring|;
            && w.ring == rs[k..]
            && (rs != [] ==> k < |rs| && (Recent(s.config.trigger.value.preSeconds, rs, k) || k == |rs| - 1))
            && forall j :: 0 <= j < k ==> !Recent(s.config.trigger.value.preSeconds, rs, j)
  {
    var s := After(config, actions);
    RunInv(config, actions);
    hide After, Filter, Content, First, Flatten, Weight, Window, Recent, Sorted, Offered, Triggered;
    var t := s.config.trigger.value;
    TakenSorted(s);
    assert Waiting(t, s.worker, Taken(s));
    DoneIs(s);
    WaitingRing(t, s.worker, Taken(s));
  }

  lemma DoneIs(s: State)
    requires |s.queue| + |Hand(s.worker)| <= |s.log|
    ensures s.log[..|s.log| - |s.queue| - |Hand(s.worker)|] == Taken(s)[..|Taken(s)| - |Hand(s.worker)|]
  {}

  lemma WaitingRing(t: Trigger, w: Worker, taken: seq<Record>)
    requires Waiting(t, w, taken) && Sorted(taken)
    ensures var rs := Filter(Others, taken[..|taken| - |Hand(w)|]); |w.ring| <= |rs|
    ensures var rs := Filter(Others, taken[..|taken| - |Hand(w)|]); var k := |rs| - |w.ring|;
            && w.ring == rs[k..]
            && (rs != [] ==> k < |rs| && (Recent(t.preSeconds, rs, k) || k == |rs| - 1))
            && forall j :: 0 <= j < k ==> !Recent(t.preSeconds, rs, j)
  {
    hide Filter, First, Flatten, Weight, Recent;
    var done := taken[..|taken| - |Hand(w)|];
    FilterSorted(Others, done);
    if Filter(Others, done) != [] {
      hide Window;
      WindowIsLongest(t.preSeconds, Filter(Others, done));
    }
  }

  /** A worker that ends well leaves nothing unwritten: the volumes hold exactly the content its log
      calls for, and everything else was counted as discarded. */
  lemma SuccessIsComplete(config: Config, actions: seq<Action>)
    requires After(config, actions).worker.phase == Returned(None)
    ensures var s := After(config, actions);
            && Out(s.worker) == Content(s.config.trigger, s.log)
            && s.status.written == |Out(s.worker)| && s.status.discarded == |s.log| - |Out(s.worker)|
            && var n := Ended(s, None, true);
            && n.status.unwritten == 0 && (SessionWarning(n.summary) == Silence <==> n.status.dropped == 0)
  {
    RunInv(config, actions);
    hide After, Flatten, Content;
  }

  /** No summary ever fails the consistency check, and the warning is silent exactly when there was no
      error, nothing was dropped and nothing was left unwritten. */
  lemma SummaryConsistent(config: Config, actions: seq<Action>)
    requires After(config, actions).summary.Some?
    ensures var s := After(config, actions); var u := s.summary.value; var warning := SessionWarning(s.summary);
            && u == s.status && warning != Inconsistent
            && (warning == Silence <==> u.error == None && u.dropped == 0 && u.unwritten == 0)
            && (u.error == None ==> u.unwritten == 0)
  {
    RunInv(config, actions);
    hide After, Flatten, Content;
  }

  /** A silent summary can be believed: every record offered to the session was accepted, numbered
      1, 2, 3 and so on, and the volumes hold exactly what the log calls for, as many as counted. */
  lemma SilenceMeansComplete(config: Config, actions: seq<Action>)
    requires SessionWarning(After(config, actions).summary) == Silence
    ensures var s := After(config, actions);
            && Out(s.worker) == Content(s.config.trigger, s.log)
            && !CountWarning(s.summary, |Out(s.worker)|)
            && (forall i :: 0 <= i < |s.log| ==> s.log[i].sequence == i + 1)
  {
    RunInv(config, actions);
    hide After, Flatten, Content;
  }

  /** The records of a triggered session, without the context records: the window up to the firing
      record, then every later one up to the deadline, in the order they were accepted. */
  lemma TriggeredContent(t: Trigger, log: seq<Record>, first: nat)
    requires Sorted(log) && first < |log| && Hit(t, log[first]) && forall j :: 0 <= j < first ==> !Hit(t, log[j])
    ensures Filter(Others, Content(Some(t), log)) ==
            Window(t.preSeconds, Filter(Others, log[..first + 1]))
            + Filter(UpTo(log[first].elapsed + t.postSeconds * 1_000_000), Filter(Others, log[first + 1..]))
  {
    hide Window, Hit, First, Filter;
    var before, rest, end := Filter(Contexts, log[..first]), log[first + 1..], Deadline(t, log[first]);
    var window := Window(t.preSeconds, Filter(Others, log[..first + 1]));
    FirstIs(t, log, first, 0);
    FilterConcat(Others, before + window, Filter(UpTo(end), rest));
    FilterConcat(Others, before, window);
    FilterTakes(Contexts, log[..first]);
    FilterNothing(Others, before);
    FilterTakes(Others, log[..first + 1]);
    WindowWithin(t.preSeconds, Filter(Others, log[..first + 1]));
    FilterAll(Others, window);
    FilterSwap(Others, UpTo(end), rest);
  }

  lemma {:induction false} FirstIs(t: Trigger, log: seq<Record>, first: nat, k: nat)
    requires k <= first < |log| && Hit(t, log[first]) && forall j :: 0 <= j < first ==> !Hit(t, log[j])
    ensures First(t, log, k) == first
    decreases first - k
  {
    if k < first {
      FirstIs(t, log, first, k + 1);
    }
  }

  lemma WindowWithin(pre: nat, rs: seq<Record>)
    ensures forall r :: r in Window(pre, rs) ==> r in rs
  {}

  lemma {:induction false} FilterNothing(kind: Kind, rs: seq<Record>)
    requires forall r :: r in rs ==> !Takes(kind, r)
    ensures Filter(kind, rs) == []
  {
    if rs != [] {
      FilterNothing(kind, rs[..|rs| - 1]);
    }
  }

  lemma OneSwap(a: Kind, b: Kind, r: Record)
    ensures Filter(a, One(b, r)) == Filter(b, One(a, r))
  {
    hide Filter;
    FilterOne(a, r);
    FilterOne(b, r);
    FilterNone(a, []);
    FilterNone(b, []);
  }

  lemma {:induction false} FilterSwap(a: Kind, b: Kind, rs: seq<Record>)
    ensures Filter(a, Filter(b, rs)) == Filter(b, Filter(a, rs))
  {
    if rs != [] {
      var front, r := rs[..|rs| - 1], rs[|rs| - 1];
      FilterSwap(a, b, front);
      FilterConcat(a, Filter(b, front), One(b, r));
      FilterConcat(b, Filter(a, front), One(a, r));
      OneSwap(a, b, r);
    }
  }

  // ---- the volumes stay within their limits ----

  function LineBytes(json: Record -> nat, rs: seq<Record>): nat {
    if rs == [] then 0 else LineBytes(json, rs[..|rs| - 1]) + json(rs[|rs| - 1]) + 1
  }

  function SumBytes(json: Record -> nat, volumes: seq<seq<Record>>): nat {
    if volumes == [] then 0 else SumBytes(json, volumes[..|volumes| - 1]) + LineBytes(json, volumes[|volumes| - 1])
  }

  predicate FitsPart(c: Config, v: seq<Record>) {
    |v| <= 1 || LineBytes(c.json, v) <= c.partLimit
  }

  predicate Sized(c: Config, w: Worker) {
    && w.volumes != [] && w.total == SumBytes(c.json, w.volumes) && w.total <= c.limit
    && w.partBytes == LineBytes(c.json, w.volumes[|w.volumes| - 1])
    && forall v :: v in w.volumes ==> FitsPart(c, v)
  }

  lemma SizedAdd(c: Config, w: Worker, r: Record, n: Worker)
    requires Sized(c, w) && n.volumes == AddLast(w.volumes, r)
    requires n.total == w.total + c.json(r) + 1 <= c.limit && n.partBytes == w.partBytes + c.json(r) + 1
    requires w.partBytes > 0 ==> n.partBytes <= c.partLimit
    ensures Sized(c, n)
  {
    var k := |w.volumes| - 1;
    var last := w.volumes[k];
    assert (last + [r])[..|last|] == last;
    assert n.volumes[..k] == w.volumes[..k] && n.volumes[k] == last + [r];
    assert last != [] ==> w.partBytes > 0;
    assert forall v :: v in n.volumes ==> v in w.volumes || v == last + [r];
  }

  lemma SizedNew(c: Config, w: Worker, n: Worker)
    requires Sized(c, w) && n.volumes == w.volumes + [[]] && n.total == w.total && n.partBytes == 0
    ensures Sized(c, n)
  {
    assert n.volumes[..|w.volumes|] == w.volumes;
  }

  lemma SizedWrote(s: State, r: Record, io: Io)
    requires Sized(s.config, s.worker)
    ensures Wrote(s, r, io).config == s.config && Sized(s.config, Wrote(s, r, io).worker)
  {
    hide Sized, AddLast;
    var size := s.config.json(r) + 1;
    var f := Rotated(s);
    SizedSame(s.config, s.worker, Flushed(s).worker);
    SizedSame(s.config, s.worker, Wrote(s, r, io).worker);
    SizedNew(s.config, s.worker, f.worker);
    if s.worker.total + size <= s.config.limit {
      if s.worker.partBytes > 0 && s.worker.partBytes + size > s.config.partLimit {
        SizedAppended(f, r, size, io);
      } else {
        SizedAppended(s, r, size, io);
      }
    }
  }

  lemma SizedAppended(s: State, r: Record, size: nat, io: Io)
    requires Sized(s.config, s.worker) && size == s.config.json(r) + 1 && s.worker.total + size <= s.config.limit
    requires s.worker.partBytes > 0 ==> s.worker.partBytes + size <= s.config.partLimit
    ensures Sized(s.config, Appended(s, r, size, io).worker)
  {
    hide Sized, AddLast;
    var n := Appended(s, r, size, io).worker;
    if io.write {
      SizedAdd(s.config, s.worker, r, n);
    } else {
      SizedSame(s.config, s.worker, n);
    }
  }

  lemma SizedSame(c: Config, w: Worker, n: Worker)
    requires Sized(c, w)
    ensures n.volumes == w.volumes && n.total == w.total && n.partBytes == w.partBytes ==> Sized(c, n)
  {}

  lemma SizedNext(s: State, a: Action)
    requires Sized(s.config, s.worker)
    ensures Sized(Next(s, a).config, Next(s, a).worker)
  {
    hide Wrote, Sized, Turned, Emitted, Ended, Ringed;
    if Enabled(s, a) {
      match a
      case Start(c) => SizedFresh(c, Next(s, a).worker);
      case Emit(r) => SizedEmitted(s, r);
      case Turn(due, io) =>
        SizedTurned(s, due, io);
      case Handle(io) => SizedHandled(s, s.worker.hand.value, io);
      case Finish(saved) => SizedEnded(s, s.worker.phase.result, saved);
      case Close =>
    }
  }

  lemma SizedEmitted(s: State, r: Record)
    requires Sized(s.config, s.worker)
    ensures var n := Emitted(s, r); n.config == s.config && Sized(n.config, n.worker)
  {
    hide Sized;
  }

  lemma SizedTurned(s: State, due: bool, io: Io)
    requires Sized(s.config, s.worker)
    ensures var n := Turned(s, due, io); n.config == s.config && Sized(n.config, n.worker)
  {
    hide Sized, Turned;
    TurnedWritesNothing(s, due, io);
    SizedSame(s.config, s.worker, Turned(s, due, io).worker);
  }

  /** A turn writes nothing. */
  lemma TurnedWritesNothing(s: State, due: bool, io: Io)
    ensures SameVolumes(s, Turned(s, due, io))
  {
    hide Left, Due, Received;
    LeftWritesNothing(s, io);
    if s.worker.end.Some? {
      DueWritesNothing(s);
    }
    ReceivedWritesNothing(s.(worker := s.worker.(draining := false)), io);
  }

  ghost predicate SameVolumes(s: State, n: State) {
    && n.config == s.config && n.worker.volumes == s.worker.volumes
    && n.worker.total == s.worker.total && n.worker.partBytes == s.worker.partBytes
  }

  lemma LeftWritesNothing(s: State, io: Io)
    ensures SameVolumes(s, Left(s, io))
  {}

  lemma DueWritesNothing(s: State)
    requires s.worker.end.Some?
    ensures SameVolumes(s, Due(s))
  {
    hide Filter;
  }

  lemma ReceivedWritesNothing(s: State, io: Io)
    ensures SameVolumes(s, Received(s, io))
  {
    hide Left;
    LeftWritesNothing(s, io);
  }

  lemma SizedEnded(s: State, result: Option<Error>, saved: bool)
    requires Sized(s.config, s.worker)
    ensures var n := Ended(s, result, saved); n.config == s.config && Sized(n.config, n.worker)
  {
    hide Sized;
    SizedSame(s.config, s.worker, Ended(s, result, saved).worker);
  }

  lemma SizedHandled(s: State, r: Record, io: Io)
    requires Sized(s.config, s.worker)
    ensures var n := Handled(s, r, io); n.config == s.config && Sized(n.config, n.worker)
  {
    hide Sized, Wrote, Window, Weight, Fault;
    var e := s.(worker := s.worker.(hand := None));
    SizedSame(s.config, s.worker, e.worker);
    SizedSame(s.config, s.worker, Handled(s, r, io).worker);
    SizedWrote(e, r, io);
  }

  lemma SizedFresh(c: Config, w: Worker)
    requires w.volumes == [[]] && w.total == 0 && w.partBytes == 0
    ensures Sized(c, w)
  {
    assert w.volumes[..0] == [];
  }

  /** A session never writes more than its capacity, and no volume holds more than the part limit
      unless it is a single record. */
  lemma {:induction false} VolumesBounded(config: Config, actions: seq<Action>)
    ensures var s := After(config, actions); Sized(s.config, s.worker)
  {
    hide Sized, Next;
    if actions == [] {
      SizedFresh(config, NO_WORKER);
    } else {
      VolumesBounded(config, actions[..|actions| - 1]);
      SizedNext(After(config, actions[..|actions| - 1]), actions[|actions| - 1]);
    }
  }

  // ---- why a turn may count as one step ----

  /** A producer that comes while the channel is still open, whatever becomes of the worker. */
  function EmittedOpen(s: State, record: Record): State {
    Emitted(s.(worker := s.worker.(phase := Running)), record).(worker := s.worker)
  }

  /** While the worker runs the channel is open. */
  lemma OpenWhileRunning(s: State, record: Record)
    requires s.worker.phase == Running
    ensures EmittedOpen(s, record) == Emitted(s, record) && Emitted(s, record).worker == s.worker
    ensures Emitted(s, record).config.json == s.config.json && Emitted(s, record).config.limit == s.config.limit
    ensures Emitted(s, record).config.partLimit == s.config.partLimit
    ensures Emitted(s, record).config.trigger == s.config.trigger
  {}

  lemma FailedApart(s: State, record: Record, error: Error)
    requires s.worker.phase == Running
    ensures Failed(Emitted(s, record), error) == EmittedOpen(Failed(s, error), record)
  {}

  lemma FlushedApart(s: State, record: Record)
    requires s.worker.phase == Running
    ensures Flushed(Emitted(s, record)) == Emitted(Flushed(s), record) && Flushed(s).worker.phase == Running
  {}

  lemma RotatedApart(s: State, record: Record)
    requires s.worker.phase == Running
    ensures Rotated(Emitted(s, record)) == Emitted(Rotated(s), record) && Rotated(s).worker.phase == Running
    ensures Rotated(s).config.json == s.config.json
  {}

  /** The state once the line is in the volume, before the flush that may follow. */
  function Lined(s: State, r: Record, size: nat): State {
    s.(status := s.status.(bytes := s.worker.total + size),
       worker := s.worker.(volumes := AddLast(s.worker.volumes, r), total := s.worker.total + size,
                           partBytes := s.worker.partBytes + size, pending := s.worker.pending + 1))
  }

  lemma LinedApart(s: State, record: Record, r: Record, size: nat)
    requires s.worker.phase == Running
    ensures Lined(Emitted(s, record), r, size) == Emitted(Lined(s, r, size), record)
    ensures Lined(s, r, size).worker.phase == Running
  {
    hide AddLast;
  }

  lemma AppendedIs(s: State, r: Record, size: nat, io: Io)
    ensures Appended(s, r, size, io) ==
            if !io.write then Failed(s, IoFailed)
            else if !io.slow && s.worker.pending + 1 < 100 then Lined(s, r, size)
            else if !io.flushAfter then Failed(Lined(s, r, size), IoFailed)
            else Flushed(Lined(s, r, size))
  {
    hide AddLast;
  }

  lemma AppendedApart(s: State, record: Record, r: Record, size: nat, io: Io)
    requires s.worker.phase == Running
    ensures Appended(Emitted(s, record), r, size, io) == EmittedOpen(Appended(s, r, size, io), record)
  {
    hide Appended, Emitted, EmittedOpen, Failed, Flushed, Lined;
    OpenWhileRunning(s, record);
    AppendedIs(s, r, size, io);
    AppendedIs(Emitted(s, record), r, size, io);
    LinedApart(s, record, r, size);
    var lined := Lined(s, r, size);
    OpenWhileRunning(lined, record);
    FailedApart(s, record, IoFailed);
    FailedApart(lined, record, IoFailed);
    FlushedApart(lined, record);
    OpenWhileRunning(Flushed(lined), record);
  }

  lemma WroteApart(s: State, record: Record, r: Record, io: Io)
    requires s.worker.phase == Running
    ensures Wrote(Emitted(s, record), r, io) == EmittedOpen(Wrote(s, r, io), record)
  {
    hide Appended, Rotated, Emitted, EmittedOpen, Failed, Flushed;
    OpenWhileRunning(s, record);
    var size := s.config.json(r) + 1;
    FlushedApart(s, record);
    RotatedApart(s, record);
    AppendedApart(s, record, r, size, io);
    AppendedApart(Rotated(s), record, r, size, io);
    forall error ensures Failed(Emitted(s, record), error) == EmittedOpen(Failed(s, error), record)
    {
      FailedApart(s, record, error);
    }
    forall error ensures Failed(Flushed(Emitted(s, record)), error) == EmittedOpen(Failed(Flushed(s), error), record)
    {
      FailedApart(Flushed(s), record, error);
    }
  }

  lemma RingedApart(s: State, record: Record, t: Trigger, r: Record)
    requires s.worker.phase == Running
    ensures Ringed(Emitted(s, record), t, r) == Emitted(Ringed(s, t, r), record)
    ensures Ringed(s, t, r).worker.phase == Running
  {
    hide Window, Weight, Fault;
  }

  lemma DiscardedApart(s: State, record: Record)
    requires s.worker.phase == Running
    ensures Discarded(Emitted(s, record), 1) == Emitted(Discarded(s, 1), record)
    ensures Discarded(s, 1).worker.phase == Running
  {}

  lemma OutOfHandApart(s: State, record: Record)
    requires s.worker.phase == Running
    ensures var e := s.(worker := s.worker.(hand := None));
            Emitted(e, record) == Emitted(s, record).(worker := Emitted(s, record).worker.(hand := None))
  {}

  /** A producer that comes in the middle of handling a record, before or after any of the writes to
      the status, leaves the same state as one that comes behind it - or, if the handling fails, as
      one that comes behind it just before the channel closes. */
  lemma EmitCommutes(s: State, record: Record, r: Record, io: Io)
    requires s.worker.phase == Running && s.worker.hand == Some(r)
    ensures Handled(Emitted(s, record), r, io) == EmittedOpen(Handled(s, r, io), record)
  {
    hide Wrote, Ringed, Emitted, EmittedOpen, Discarded;
    OpenWhileRunning(s, record);
    OutOfHandApart(s, record);
    var e := s.(worker := s.worker.(hand := None));
    if s.config.trigger.Some? && s.worker.end.None? && !IsContext(r) {
      RingedApart(s, record, s.config.trigger.value, r);
      OpenWhileRunning(Ringed(s, s.config.trigger.value, r), record);
    } else if s.worker.end.Some? && r.elapsed > s.worker.end.value {
      DiscardedApart(e, record);
      OpenWhileRunning(Discarded(e, 1), record);
    } else {
      WroteApart(e, record, r, io);
    }
  }

  /** The same for a turn of the loop that does not look at the queue: the pop from the ring while it
      drains. */
  lemma PopCommutes(s: State, record: Record, due: bool, io: Io)
    requires s.worker.phase == Running && s.worker.hand == None && s.worker.draining && s.worker.ring != []
    ensures Turned(Emitted(s, record), due, io) == EmittedOpen(Turned(s, due, io), record)
  {}

  /** The same for the flush behind a time-out, once the queue has been found empty. */
  lemma FlushCommutes(s: State, record: Record, io: Io)
    requires s.worker.phase == Running
    ensures TimedOut(Emitted(s, record), io) == EmittedOpen(TimedOut(s, io), record)
  {}

  /** Producers do not matter to a worker that leaves: by then the run is out of its slot or inactive. */
  lemma LeavingUnseen(s: State, record: Record, io: Io)
    requires !(s.sender && s.status.active)
    ensures Emitted(s, record) == s && EmittedOpen(Left(s, io), record) == Left(s, io)
  {}

  // ---- the worker ends ----

  /** What a record in hand may still cost the worker: before the trigger it may go through the ring. */
  function HandWork(w: Worker): nat {
    if w.hand == None then 0 else if w.end == None then 3 else 1
  }

  /** A bound on the steps a worker still makes without producers. */
  function Work(s: State): nat {
    4 * |s.queue| + 2 * |s.worker.ring| + HandWork(s.worker) + if s.worker.finishing then 0 else 1
  }

  lemma TurnShrinks(s: State, due: bool, io: Io)
    requires Inv(s) && s.worker.phase == Running && s.worker.hand == None && !s.sender
    ensures var n := Turned(s, due, io);
            !n.sender && (n.worker.phase.Returned? || (n.worker.phase == Running && Work(n) < Work(s)))
  {
    hide Channel, Counted, Content, Window, Filter, First, Flatten, Weight;
    if s.worker.end.Some? {
      FilterTakes(UpTo(s.worker.end.value), s.queue);
    }
    DrainingTriggered(s);
  }

  lemma DrainingTriggered(s: State)
    requires Inv(s) && s.worker.phase == Running
    ensures s.worker.draining ==> s.worker.end.Some?
  {
    hide Channel, Counted, Content, Window, Filter, First, Flatten, Weight;
  }

  lemma HandleShrinks(s: State, r: Record, io: Io)
    requires s.worker.phase == Running && s.worker.hand == Some(r) && !s.sender
    ensures var n := Handled(s, r, io);
            !n.sender && (n.worker.phase.Returned? || (n.worker.phase == Running && Work(n) < Work(s)))
  {
    hide Window, Weight, Fault, Wrote;
    if s.config.trigger.Some? {
      WindowSize(s.config.trigger.value.preSeconds, s.worker.ring + [r]);
    }
    WroteKeepsWork(s.(worker := s.worker.(hand := None)), r, io);
  }

  /** Nothing the bound looks at has changed, and the hand is empty. */
  predicate SameWork(s: State, n: State) {
    && n.sender == s.sender && (n.worker.phase.Returned? || n.worker.phase == Running)
    && n.queue == s.queue && n.worker.ring == s.worker.ring && n.worker.hand == None
    && n.worker.end == s.worker.end && n.worker.finishing == s.worker.finishing
  }

  lemma AppendedKeepsWork(s: State, r: Record, size: nat, io: Io)
    requires s.worker.phase == Running && s.worker.hand == None
    ensures SameWork(s, Appended(s, r, size, io))
  {
    hide AddLast;
  }

  lemma RotatedKeepsWork(s: State)
    requires s.worker.phase == Running && s.worker.hand == None
    ensures SameWork(s, Rotated(s)) && Rotated(s).worker.phase == Running
  {}

  lemma FailedKeepsWork(s: State, error: Error)
    requires s.worker.phase == Running && s.worker.hand == None
    ensures SameWork(s, Failed(s, error)) && SameWork(s, Failed(Flushed(s), error))
  {}

  lemma WroteKeepsWork(s: State, r: Record, io: Io)
    requires s.worker.phase == Running && s.worker.hand == None
    ensures SameWork(s, Wrote(s, r, io))
  {
    hide Appended, Rotated, Failed, Flushed;
    var size := s.config.json(r) + 1;
    RotatedKeepsWork(s);
    AppendedKeepsWork(s, r, size, io);
    AppendedKeepsWork(Rotated(s), r, size, io);
    FailedKeepsWork(s, LineTooLong);
    FailedKeepsWork(s, IoFailed);
    FailedKeepsWork(s, CapacityReached);
  }

  lemma WorkerStepKeeps(s: State, due: bool, io: Io)
    requires Inv(s) && s.worker.phase == Running && !s.sender
    ensures var n := WorkerStep(s, due, io);
            Inv(n) && !n.sender && (n.worker.phase.Returned? || (n.worker.phase == Running && Work(n) < Work(s)))
  {
    hide Inv, Turned, Handled, Work;
    if s.worker.hand == None {
      TurnKeeps(s, due, io);
      TurnShrinks(s, due, io);
    } else {
      HandleKeeps(s, s.worker.hand.value, io);
      HandleShrinks(s, s.worker.hand.value, io);
    }
  }

  lemma {:induction false} WorkForKeeps(s: State, due: nat -> bool, io: nat -> Io, n: nat)
    requires Inv(s) && s.worker.phase == Running && !s.sender
    ensures var e := WorkFor(s, due, io, n);
            (&& Inv(e) && !e.sender
             && (e.worker.phase.Returned? || (e.worker.phase == Running && Work(e) + n <= Work(s))))
  {
    hide Inv, WorkerStep, Work;
    if n > 0 {
      WorkForKeeps(s, due, io, n - 1);
      var e := WorkFor(s, due, io, n - 1);
      if e.worker.phase == Running {
        WorkerStepKeeps(e, due(n - 1), io(n - 1));
      } else {
        OverStays(e, due(n - 1), io(n - 1));
      }
    }
  }

  lemma OverStays(s: State, due: bool, io: Io)
    requires s.worker.phase != Running
    ensures WorkerStep(s, due, io) == s
  {}

  /** With the run out of its slot the worker always ends, after at most a number of steps given by
      the queue, the ring and the record in hand, whatever the disk does; and an end without an error
      leaves exactly the content of the log in the volumes. */
  lemma WorkerEnds(config: Config, actions: seq<Action>, due: nat -> bool, io: nat -> Io, n: nat)
    requires var s := After(config, actions); s.worker.phase == Running && !s.sender && n > Work(s)
    ensures var e := WorkFor(After(config, actions), due, io, n);
            && Inv(e) && e.worker.phase.Returned? && (e.worker.phase.result == None ==> Complete(e))
  {
    RunInv(config, actions);
    hide After, WorkFor, Work, Flatten, Content;
    WorkForKeeps(After(config, actions), due, io, n);
  }

  /** The worker's own steps leave the run in its slot, or out of it. */
  lemma WorkerSender(s: State, a: Action)
    requires a.Turn? || a.Handle? || a.Finish?
    ensures Next(s, a).sender == s.sender
  {
    hide Filter, Window, Weight, Fault, AddLast, Wrote;
    if a.Handle? && Enabled(s, a) {
      WroteSender(s.(worker := s.worker.(hand := None)), s.worker.hand.value, a.io);
    }
  }

  lemma WroteSender(s: State, r: Record, io: Io)
    ensures Wrote(s, r, io).sender == s.sender
  {
    hide AddLast;
  }

  /** What is known of a joined worker that had no error. */
  lemma FinishedWell(s: State)
    requires Inv(s) && s.worker.phase == Finished && s.status.error == None
    ensures Complete(s) && s.status.unwritten == 0
  {
    hide Channel, Complete;
  }

  lemma NotAbsent(s: State)
    requires Inv(s) && s.sender
    ensures s.worker.phase != Absent
  {
    hide Channel, Busy, Complete, Over;
  }
}
