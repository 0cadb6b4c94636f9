/** What the status of a recording shows, in every state of every run. */
module RecorderStatus {
  import opened RecordingContent
  import opened RecorderSteps
  import opened RecorderRuns

  /** The record that fired the trigger is the first of the log that can. */
  predicate Fires(t: Trigger, log: seq<Record>, k: int) {
    0 <= k < |log| && Hit(t, log[k]) && forall j :: 0 <= j < k ==> !Hit(t, log[j])
  }

  predicate FiredAt(t: Trigger, log: seq<Record>, k: int, end: nat, at: Option<nat>) {
    Fires(t, log, k) && at == Some(log[k].stamp) && end == log[k].elapsed + t.postSeconds * 1000000
  }

  /** The end of the recording and the time shown for the trigger are those of the record that fired it. */
  ghost predicate Marks(trigger: Option<Trigger>, log: seq<Record>, end: Option<nat>, at: Option<nat>) {
    match trigger
    case None => end == None && at == None
    case Some(t) =>
      if end == None then at == None else exists k :: FiredAt(t, log, k, end.value, at)
  }

  /** While the worker runs, the session is shown as active until its deadline and as armed until its trigger;
      once it has finished it is neither. The bytes shown are those written. */
  ghost predicate Truthful(s: State) {
    var u, w := s.status, s.worker;
    && (w.phase == Absent ==> !u.active && !u.armed && u.bytes == 0 && s.log == [])
    && (w.phase != Absent ==> Marks(s.config.trigger, s.log, w.end, u.triggeredAt) && u.bytes == w.total)
    && (w.phase == Running ==> (u.active <==> !w.finishing))
    && (w.phase == Running || w.phase.Returned? ==> (u.armed <==> s.config.trigger.Some? && w.end == None))
    && (w.phase == Finished ==> !u.active && !u.armed)
  }

  /** A session starts active, armed if it has a trigger, with nothing received, counted or reported. */
  lemma StartMeans(s: State, c: Config)
    ensures var n := Started(s, c); var u := n.status;
            && n.config == c && n.sender && n.queue == [] && n.log == [] && n.summary == None && n.clock == 0
            && u.active && (u.armed <==> c.trigger.Some?) && u.error == None && u.triggeredAt == None
            && u.accepted == 0 && u.written == 0 && u.dropped == 0 && u.unwritten == 0 && u.bytes == 0
            && u.discarded == 0
            && n.worker.phase == Running && n.worker.ring == [] && n.worker.volumes == [[]] && n.worker.hand == None
  {}

  lemma FreshTruthful(s: State, c: Config)
    ensures Truthful(Started(s, c)) && Truthful(Initial(c))
  {}

  lemma MarksGrow(trigger: Option<Trigger>, log: seq<Record>, r: Record, end: Option<nat>, at: Option<nat>)
    requires Marks(trigger, log, end, at)
    ensures Marks(trigger, log + [r], end, at)
  {
    hide Hit;
    if trigger.Some? && end.Some? {
      var k :| FiredAt(trigger.value, log, k, end.value, at);
      assert FiredAt(trigger.value, log + [r], k, end.value, at);
    }
  }

  lemma EmittedTruthful(s: State, record: Record)
    requires Truthful(s) && Channel(s)
    ensures Truthful(Emitted(s, record))
  {
    hide Marks, Joined, Offered;
    var r := record.(sequence := s.status.accepted + s.status.dropped + 1);
    if s.worker.phase != Absent {
      MarksGrow(s.config.trigger, s.log, r, s.worker.end, s.status.triggeredAt);
    }
  }

  /** Whatever the turn does, only the deadline ends the activity, and nothing is written. */
  lemma TurnedTruthful(s: State, due: bool, io: Io)
    requires Truthful(s) && s.worker.phase == Running
    ensures Truthful(Turned(s, due, io))
  {
    hide Marks, Filter, Left, TimedOut;
    LeftTruthful(s, io);
    LeftTruthful(s.(worker := s.worker.(draining := false)), io);
    TimedOutTruthful(s.(worker := s.worker.(draining := false)), io);
  }

  lemma LeftTruthful(s: State, io: Io)
    requires Truthful(s) && s.worker.phase == Running
    ensures Truthful(Left(s, io))
  {
    hide Marks;
  }

  lemma TimedOutTruthful(s: State, io: Io)
    requires Truthful(s) && s.worker.phase == Running
    ensures Truthful(TimedOut(s, io))
  {
    hide Marks;
  }

  lemma WroteTruthful(s: State, r: Record, io: Io)
    requires Truthful(s) && s.worker.phase == Running
    ensures Truthful(Wrote(s, r, io))
  {
    hide Truthful, Appended, Rotated, Failed, Flushed;
    var size := s.config.json(r) + 1;
    FailedTruthful(s, LineTooLong);
    FailedTruthful(s, CapacityReached);
    FailedTruthful(s, IoFailed);
    RotatedTruthful(s);
    AppendedTruthful(s, r, size, io);
    AppendedTruthful(Rotated(s), r, size, io);
  }

  lemma FailedTruthful(s: State, error: Error)
    requires Truthful(s) && s.worker.phase == Running
    ensures Truthful(Failed(s, error)) && Truthful(Failed(Flushed(s), error))
  {
    hide Marks;
  }

  lemma RotatedTruthful(s: State)
    requires Truthful(s) && s.worker.phase == Running
    ensures Truthful(Rotated(s)) && Rotated(s).worker.phase == Running
  {
    hide Marks;
  }

  lemma AppendedTruthful(s: State, r: Record, size: nat, io: Io)
    requires Truthful(s) && s.worker.phase == Running
    ensures Truthful(Appended(s, r, size, io))
  {
    hide Marks, AddLast;
  }

  /** The record in hand is the next of the log, and none before it fires. */
  lemma HandFires(s: State, t: Trigger)
    requires Inv(s) && s.worker.phase == Running && s.worker.hand.Some? && s.config.trigger == Some(t)
    requires s.worker.end == None && Hit(t, s.worker.hand.value)
    ensures exists k :: Fires(t, s.log, k) && s.log[k] == s.worker.hand.value
  {
    hide Hit, Filter, Window, Weight, Flatten, Joined, Offered;
    var taken := Taken(s);
    var done := taken[..|taken| - 1];
    assert Waiting(t, s.worker, taken);
    assert taken == done + [s.worker.hand.value];
    assert taken[|done|] == s.worker.hand.value == s.log[|done|];
    assert forall j :: 0 <= j < |done| ==> s.log[j] == done[j];
    assert Fires(t, s.log, |done|);
  }

  lemma RingedTruthful(s: State, t: Trigger)
    requires Inv(s) && Truthful(s) && s.worker.phase == Running && s.worker.hand.Some?
    requires s.config.trigger == Some(t) && s.worker.end == None && !IsContext(s.worker.hand.value)
    ensures Truthful(Ringed(s, t, s.worker.hand.value))
  {
    hide Inv, Fault, Window, Weight;
    var r := s.worker.hand.value;
    if Fault(t, r) {
      HandFires(s, t);
      var k :| Fires(t, s.log, k) && s.log[k] == r;
      assert FiredAt(t, s.log, k, Deadline(t, r), Some(r.stamp));
    }
  }

  lemma HandledTruthful(s: State, io: Io)
    requires Inv(s) && Truthful(s) && s.worker.phase == Running && s.worker.hand.Some?
    ensures Truthful(Handled(s, s.worker.hand.value, io))
  {
    hide Inv, Marks, Ringed, Wrote;
    var e := s.(worker := s.worker.(hand := None));
    if s.config.trigger.Some? && s.worker.end.None? && !IsContext(s.worker.hand.value) {
      RingedTruthful(s, s.config.trigger.value);
    } else {
      WroteTruthful(e, s.worker.hand.value, io);
    }
  }

  lemma NextTruthful(s: State, a: Action)
    requires Inv(s) && Truthful(s)
    ensures Truthful(Next(s, a))
  {
    hide Truthful, Turned, Handled, Emitted, Ended, Started, Stage;
    if Enabled(s, a) {
      match a
      case Start(c) => FreshTruthful(s, c);
      case Emit(r) => EmittedTruthful(s, r);
      case Turn(due, io) => TurnedTruthful(s, due, io);
      case Handle(io) => HandledTruthful(s, io);
      case Finish(saved) => EndedTruthful(s, saved);
      case Close => ClosedTruthful(s);
    }
  }

  lemma EndedTruthful(s: State, saved: bool)
    requires Truthful(s) && s.worker.phase.Returned?
    ensures Truthful(Ended(s, s.worker.phase.result, saved))
  {
    hide Marks;
  }

  lemma ClosedTruthful(s: State)
    requires Truthful(s)
    ensures Truthful(s.(sender := false))
  {
    hide Marks;
  }

  /** Over all histories. */
  lemma {:induction false} RunTruthful(config: Config, actions: seq<Action>)
    ensures Truthful(After(config, actions))
  {
    hide Truthful, Inv, Next;
    if actions == [] {
      FreshTruthful(Initial(config), config);
    } else {
      RunTruthful(config, actions[..|actions| - 1]);
      RunInv(config, actions[..|actions| - 1]);
      NextTruthful(After(config, actions[..|actions| - 1]), actions[|actions| - 1]);
    }
  }

  /** A producer that finds the worker gone counts its record as dropped, ends the activity and says why; without an
      active run it changes nothing. */
  lemma DeadWorkerSeen(s: State, record: Record)
    requires s.worker.phase != Running
    ensures var n := Emitted(s, record);
            if s.sender && s.status.active then
              && !n.status.active && n.status.dropped == s.status.dropped + 1 && n.log == s.log
              && n.status.error == (if s.status.error.Some? then s.status.error else Some(WorkerStopped))
            else n == s
  {}
}
