/** The recorder as interleaved atomic steps (src/recording.rs): producers that emit, the worker that
    receives, rings, writes and flushes, the deadline, and stop and restart. */
module RecorderSteps {
  import opened RecordingContent

  const QUEUE_LIMIT: nat := 4096
  const LINE_LIMIT: nat := 1024 * 1024

  /** json gives the length of a record's JSON text. */
  datatype Config = Config(trigger: Option<Trigger>, limit: nat, partLimit: nat, json: Record -> nat)

  datatype Error = WorkerStopped | LineTooLong | CapacityReached | IoFailed | SummaryLost

  /** RecordingStatus, behind its lock. */
  datatype Status = Status(active: bool, armed: bool, accepted: nat, written: nat, dropped: nat, unwritten: nat,
                           bytes: nat, error: Option<Error>, discarded: nat, triggeredAt: Option<nat>)

  datatype Phase = Absent | Running | Returned(result: Option<Error>) | Finished

  /** The locals of the worker; end stands for both the deadline and its elapsed time, which are set
      together. hand is the record taken but not yet dealt with; each volume is a list of records. */
  datatype Worker = Worker(phase: Phase, total: nat, partBytes: nat, pending: nat, ring: seq<Record>, ringBytes: nat,
                           end: Option<nat>, draining: bool, finishing: bool, hand: Option<Record>,
                           volumes: seq<seq<Record>>)

  /** sender: the run is in its slot. log: every record accepted in this run; clock: when the last
      one was. */
  datatype State = State(config: Config, status: Status, sender: bool, queue: seq<Record>, worker: Worker,
                         summary: Option<Status>, log: seq<Record>, clock: nat)

  /** Which input and output operations succeed; slow: 250 ms passed since the last flush. */
  datatype Io = Io(flush: bool, sync: bool, open: bool, write: bool, slow: bool, flushAfter: bool)

  datatype Action =
    | Start(config: Config)
    | Emit(record: Record)
    | Turn(due: bool, io: Io)
    | Handle(io: Io)
    | Finish(saved: bool)
    | Close

  const NO_STATUS := Status(false, false, 0, 0, 0, 0, 0, None, 0, None)
  const NO_WORKER := Worker(Absent, 0, 0, 0, [], 0, None, false, false, None, [[]])

  function Initial(config: Config): State {
    State(config, NO_STATUS, false, [], NO_WORKER, None, [], 0)
  }

  function Started(s: State, config: Config): State {
    State(config, NO_STATUS.(active := true, armed := config.trigger.Some?), true, [], NO_WORKER.(phase := Running),
          None, [], 0)
  }

  /** emit_at: nothing without a run or when inactive; else the record is numbered and offered. */
  function Emitted(s: State, record: Record): State {
    var u := s.status;
    var r := record.(sequence := u.accepted + u.dropped + 1);
    if !s.sender || !u.active then s
    else if s.worker.phase != Running then
      s.(status := u.(dropped := u.dropped + 1, active := false,
                      error := if u.error.Some? then u.error else Some(WorkerStopped)))
    else if |s.queue| >= QUEUE_LIMIT then s.(status := u.(dropped := u.dropped + 1))
    else
      s.(status := u.(accepted := u.accepted + 1), queue := s.queue + [r], log := s.log + [r], clock := r.elapsed)
  }

  function Failed(s: State, error: Error): State {
    s.(worker := s.worker.(phase := Returned(Some(error))))
  }

  function Flushed(s: State): State {
    s.(status := s.status.(written := s.status.written + s.worker.pending), worker := s.worker.(pending := 0))
  }

  function Discarded(s: State, count: nat): State {
    s.(status := s.status.(discarded := s.status.discarded + count))
  }

  /** Out of the loop: what is left in the ring is given up, the rest is made durable. */
  function Left(s: State, io: Io): State {
    var d := Discarded(s, |s.worker.ring|);
    if !io.flush then Failed(d, IoFailed)
    else if !io.sync then Failed(Flushed(d), IoFailed)
    else Flushed(d).(worker := Flushed(d).worker.(phase := Returned(None)))
  }

  /** The deadline: no more records are taken, and the queue is sorted by the end time. */
  function Due(s: State): State
    requires s.worker.end.Some?
  {
    var kept := Filter(UpTo(s.worker.end.value), s.queue);
    FilterTakes(UpTo(s.worker.end.value), s.queue);
    s.(status := s.status.(active := false, discarded := s.status.discarded + (|s.queue| - |kept|)),
       queue := [],
       worker := s.worker.(ring := s.worker.ring + kept, finishing := true, draining := true))
  }

  /** One turn of the loop until a record is in hand. */
  function Turned(s: State, due: bool, io: Io): State {
    var w := s.worker;
    if w.finishing && w.ring == [] then Left(s, io)
    else if w.end.Some? && due && !w.draining && !w.finishing then Due(s)
    else if w.draining && w.ring != [] then s.(worker := w.(hand := Some(w.ring[0]), ring := w.ring[1..]))
    else Received(s.(worker := w.(draining := false)), io)
  }

  /** recv_timeout: a record, the end of the channel, or 250 ms without either. */
  function Received(s: State, io: Io): State {
    if s.queue != [] then s.(queue := s.queue[1..], worker := s.worker.(hand := Some(s.queue[0])))
    else if !s.sender then Left(s, io)
    else TimedOut(s, io)
  }

  /** 250 ms without a record: what is pending is flushed. */
  function TimedOut(s: State, io: Io): State {
    if !io.flush then Failed(s, IoFailed) else Flushed(s)
  }

  /** Before the trigger: the ring takes the record, and the trigger may fire. */
  function Ringed(s: State, t: Trigger, r: Record): State {
    var all := s.worker.ring + [r];
    var kept := Window(t.preSeconds, all);
    var d := Discarded(s, |all| - |kept|);
    var w := s.worker.(ring := kept, ringBytes := Weight(kept, 0), hand := None);
    if Fault(t, r) then
      d.(status := d.status.(armed := false, triggeredAt := Some(r.stamp)),
         worker := w.(end := Some(Deadline(t, r)), draining := true))
    else d.(worker := w)
  }

  /** The line goes to the last volume. */
  function Appended(s: State, r: Record, size: nat, io: Io): State {
    var w := s.worker;
    var n := w.(volumes := AddLast(w.volumes, r), total := w.total + size, partBytes := w.partBytes + size,
                pending := w.pending + 1);
    var a := s.(status := s.status.(bytes := w.total + size), worker := n);
    if !io.write then Failed(s, IoFailed)
    else if !io.slow && n.pending < 100 then a
    else if !io.flushAfter then Failed(a, IoFailed)
    else Flushed(a)
  }

  function AddLast(volumes: seq<seq<Record>>, r: Record): seq<seq<Record>> {
    if volumes == [] then [[r]] else volumes[..|volumes| - 1] + [volumes[|volumes| - 1] + [r]]
  }

  /** A new volume. */
  function Rotated(s: State): State {
    Flushed(s).(worker := Flushed(s).worker.(partBytes := 0, volumes := s.worker.volumes + [[]]))
  }

  function Wrote(s: State, r: Record, io: Io): State {
    var w, c := s.worker, s.config;
    var size := c.json(r) + 1;
    if size > LINE_LIMIT then Failed(s, LineTooLong)
    else if w.total + size > c.limit then
      if !io.flush then Failed(s, IoFailed)
      else Failed(Flushed(s), if io.sync then CapacityReached else IoFailed)
    else if w.partBytes > 0 && w.partBytes + size > c.partLimit then
      if !io.flush then Failed(s, IoFailed)
      else if !io.sync || !io.open then Failed(Flushed(s), IoFailed)
      else Appended(Rotated(s), r, size, io)
    else Appended(s, r, size, io)
  }

  /** The rest of the turn: ring, discard or write the record in hand. */
  function Handled(s: State, r: Record, io: Io): State {
    var e := s.(worker := s.worker.(hand := None));
    if s.config.trigger.Some? && s.worker.end.None? && !IsContext(r) then Ringed(s, s.config.trigger.value, r)
    else if s.worker.end.Some? && r.elapsed > s.worker.end.value then Discarded(e, 1)
    else Wrote(e, r, io)
  }

  function SatSub(a: nat, b: nat): nat {
    if a >= b then a - b else 0
  }

  /** finish_recording: the summary, and whether it could be saved. */
  function Ended(s: State, result: Option<Error>, saved: bool): State {
    var u := s.status.(active := false, armed := false, error := if result.Some? then result else s.status.error,
                       unwritten := SatSub(s.status.accepted, s.status.written + s.status.discarded));
    s.(status := if saved then u else u.(error := Some(SummaryLost)), summary := if saved then Some(u) else None,
       worker := s.worker.(phase := Finished))
  }

  /** Which steps are possible: the worker's own, in its phase; an emission no earlier than the last;
      a start once the previous run is out of its slot and its worker joined. */
  predicate Enabled(s: State, a: Action) {
    match a
    case Start(_) => !s.sender && (s.worker.phase == Absent || s.worker.phase == Finished)
    case Emit(r) => s.clock <= r.elapsed
    case Turn(_, _) => s.worker.phase == Running && s.worker.hand == None
    case Handle(_) => s.worker.phase == Running && s.worker.hand.Some?
    case Finish(_) => s.worker.phase.Returned?
    case Close => s.sender
  }

  function Next(s: State, a: Action): State {
    if !Enabled(s, a) then s
    else
      match a
      case Start(config) => Started(s, config)
      case Emit(r) => Emitted(s, r)
      case Turn(due, io) => Turned(s, due, io)
      case Handle(io) => Handled(s, s.worker.hand.value, io)
      case Finish(saved) => Ended(s, s.worker.phase.result, saved)
      case Close => s.(sender := false)
  }

  /** The state after any history: any interleaving of the steps of all parties. */
  function After(config: Config, actions: seq<Action>): State {
    if actions == [] then Initial(config) else Next(After(config, actions[..|actions| - 1]), actions[|actions| - 1])
  }

  /** The worker alone, for n of its steps; due and io say what each of them meets. */
  function WorkFor(s: State, due: nat -> bool, io: nat -> Io, n: nat): State {
    if n == 0 then s else WorkerStep(WorkFor(s, due, io, n - 1), due(n - 1), io(n - 1))
  }

  function WorkerStep(s: State, due: bool, io: Io): State {
    if s.worker.phase != Running then s
    else if s.worker.hand == None then Turned(s, due, io)
    else Handled(s, s.worker.hand.value, io)
  }

  /** What a worker meets while it is being joined: deadlines, the disk, and saving the summary. */
  datatype Fate = Fate(due: nat -> bool, io: nat -> Io, saved: bool)

  /** A worker joined after n more of its steps. */
  function JoinedAfter(s: State, fate: Fate, n: nat): State {
    var e := WorkFor(s, fate.due, fate.io, n);
    if e.worker.phase.Returned? then Ended(e, e.worker.phase.result, fate.saved) else e
  }
}
