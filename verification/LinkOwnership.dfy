/** Who may hold the device link: the session of the runtime, the automatic discovery, and the
    register scan (src/runtime.rs, src/discovery.rs, src/scan.rs), as interleaved atomic steps over
    two running flags, one mutex and any number of commands. */
module LinkOwnership {

  type Worker = nat

  /** What a worker does once it holds the runtime: open the link, close it, or anything else. */
  datatype Command = Connect | Disconnect | Other

  /** Where a worker stands. */
  datatype Pc =
    | Idle
    // with_runtime: check both flags, lock, check both again, run the body, unlock
    | CmdStart(cmd: Command) | CmdSawDiscovery(cmd: Command) | CmdLocking(cmd: Command)
    | CmdLocked(cmd: Command) | CmdSawDiscoveryAgain(cmd: Command) | CmdBody(cmd: Command) | CmdDone
    // discover_device: set its flag, check the other flag, then work
    | DiscClaimed | DiscReset | DiscWaiting | DiscLocked | DiscOpen | DiscClosed | DiscLease
    // scan_registers: set its flag, check the other flag, then work
    | ScanClaimed | ScanReset | ScanWaiting | ScanLocked | ScanReleased | ScanOpen | ScanAudit | ScanAuditLocked
    | ScanAuditDone | ScanClosed

  datatype Option<+T> = None | Some(value: T)

  /** The two running flags and the mutex, each with the worker that set it (a step only ever looks at
      whether it is set), whether a session is connected, and where every worker stands. */
  datatype State = State(discovery: Option<Worker>, scan: Option<Worker>, mutex: Option<Worker>, session: bool,
                         workers: map<Worker, Pc>) {
    function At(t: Worker): Pc {
      if t in workers then workers[t] else Idle
    }
    function Go(t: Worker, pc: Pc): State {
      this.(workers := workers[t := pc])
    }
  }

  predicate Init(s: State) {
    s == State(None, None, None, false, map[])
  }

  /** A command of with_runtime: check both flags, lock, check both again, run, unlock. */
  predicate CommandStep(s: State, n: State, t: Worker) {
    match s.At(t)
    case CmdStart(cmd) => n == s.Go(t, if s.discovery.Some? then Idle else CmdSawDiscovery(cmd))
    case CmdSawDiscovery(cmd) => n == s.Go(t, if s.scan.Some? then Idle else CmdLocking(cmd))
    case CmdLocking(cmd) => s.mutex == None && n == s.(mutex := Some(t)).Go(t, CmdLocked(cmd))
    case CmdLocked(cmd) => n == s.Go(t, if s.discovery.Some? then CmdDone else CmdSawDiscoveryAgain(cmd))
    case CmdSawDiscoveryAgain(cmd) => n == s.Go(t, if s.scan.Some? then CmdDone else CmdBody(cmd))
    case CmdBody(cmd) =>
      || n == s.Go(t, CmdDone)   // the body failed, or did not touch the session
      || (cmd == Connect && !s.session && n == s.(session := true).Go(t, CmdDone))
      || (cmd == Disconnect && n == s.(session := false).Go(t, CmdDone))
    case CmdDone => n == s.(mutex := None).Go(t, Idle)
    case _ => false
  }

  /** discover_device: claim the flag, give up if a scan runs, else hold the mutex for the whole
      search; the handle is dropped first, then the mutex, then the lease on the flag. */
  predicate DiscoveryStep(s: State, n: State, t: Worker) {
    match s.At(t)
    case DiscClaimed => n == s.Go(t, if s.scan.Some? then DiscReset else DiscWaiting)
    case DiscReset => n == s.(discovery := None).Go(t, Idle)
    case DiscWaiting => s.mutex == None && n == s.(mutex := Some(t)).Go(t, DiscLocked)
    case DiscLocked => n == s.Go(t, DiscClosed) || (!s.session && n == s.Go(t, DiscOpen))
    case DiscOpen => n == s.Go(t, DiscClosed)
    case DiscClosed => n == s.(mutex := None).Go(t, DiscLease)
    case DiscLease => n == s.(discovery := None).Go(t, Idle)
    case _ => false
  }

  /** scan_registers: claim the flag, give up if a discovery runs, check the session under the mutex,
      scan without it, lock once more for the audit entry; then the handle, then the lease. */
  predicate ScanStep(s: State, n: State, t: Worker) {
    match s.At(t)
    case ScanClaimed => n == s.Go(t, if s.discovery.Some? then ScanReset else ScanWaiting)
    case ScanReset => n == s.(scan := None).Go(t, Idle)
    case ScanWaiting =>
      || n == s.Go(t, ScanClosed)  // the request is invalid
      || (s.mutex == None && n == s.(mutex := Some(t)).Go(t, ScanLocked))
    case ScanLocked =>
      n == s.(mutex := None).Go(t, if s.session then ScanClosed else ScanReleased)
    case ScanReleased => n == s.Go(t, ScanOpen) || n == s.Go(t, ScanClosed)
    case ScanOpen => n == s.Go(t, ScanAudit) || n == s.Go(t, ScanClosed)
    case ScanAudit => s.mutex == None && n == s.(mutex := Some(t)).Go(t, ScanAuditLocked)
    case ScanAuditLocked => n == s.(mutex := None).Go(t, ScanAuditDone)
    case ScanAuditDone => n == s.Go(t, ScanClosed)
    case ScanClosed => n == s.(scan := None).Go(t, Idle)
    case _ => false
  }

  /** A worker starts: any command, or a compare-exchange on one of the flags that succeeds. */
  ghost predicate StartStep(s: State, n: State, t: Worker) {
    && s.At(t) == Idle
    && (|| (exists cmd :: n == s.Go(t, CmdStart(cmd)))
        || (s.discovery == None && n == s.(discovery := Some(t)).Go(t, DiscClaimed))
        || (s.scan == None && n == s.(scan := Some(t)).Go(t, ScanClaimed)))
  }

  /** One atomic step of worker t. */
  ghost predicate Step(s: State, n: State, t: Worker) {
    StartStep(s, n, t) || CommandStep(s, n, t) || DiscoveryStep(s, n, t) || ScanStep(s, n, t)
  }

  ghost predicate Next(s: State, n: State) {
    exists t :: Step(s, n, t)
  }

  /** A history: any workers, any interleaving. */
  ghost predicate Run(states: seq<State>) {
    && states != [] && Init(states[0])
    && forall i, j :: 0 <= i < |states| && 0 <= j < |states| && j == i + 1 ==> Next(states[i], states[j])
  }

  // ---- what every state keeps ----

  predicate OwnsDiscovery(pc: Pc) {
    pc.DiscClaimed? || pc.DiscReset? || DiscoveryGranted(pc)
  }

  /** Past the check of the other flag. */
  predicate DiscoveryGranted(pc: Pc) {
    pc.DiscWaiting? || pc.DiscLocked? || pc.DiscOpen? || pc.DiscClosed? || pc.DiscLease?
  }

  predicate OwnsScan(pc: Pc) {
    pc.ScanClaimed? || pc.ScanReset? || ScanGranted(pc)
  }

  predicate ScanGranted(pc: Pc) {
    pc.ScanWaiting? || pc.ScanLocked? || pc.ScanClosed? || PastSessionCheck(pc)
  }

  predicate PastSessionCheck(pc: Pc) {
    pc.ScanReleased? || ScanHoldsLink(pc)
  }

  predicate ScanHoldsLink(pc: Pc) {
    pc.ScanOpen? || pc.ScanAudit? || pc.ScanAuditLocked? || pc.ScanAuditDone?
  }

  predicate HoldsMutex(pc: Pc) {
    || pc.CmdLocked? || pc.CmdSawDiscoveryAgain? || pc.CmdBody? || pc.CmdDone?
    || pc.DiscLocked? || pc.DiscOpen? || pc.DiscClosed?
    || pc.ScanLocked? || pc.ScanAuditLocked?
  }

  /** Worker t holds the mutex and the flags exactly where its place says so. */
  predicate OwnedBy(s: State, t: Worker) {
    && (HoldsMutex(s.At(t)) <==> s.mutex == Some(t))
    && (OwnsDiscovery(s.At(t)) <==> s.discovery == Some(t))
    && (OwnsScan(s.At(t)) <==> s.scan == Some(t))
  }

  /** Flags and mutex are held by exactly the worker that stands where it should hold them; in
      particular a set flag always has an owner who will clear it. */
  ghost predicate Owned(s: State) {
    forall t: Worker :: OwnedBy(s, t)
  }

  predicate Exclusive(s: State) {
    && (s.discovery.Some? && s.scan.Some? ==>
          !(DiscoveryGranted(s.At(s.discovery.value)) && ScanGranted(s.At(s.scan.value))))
    && (s.discovery.Some? && s.At(s.discovery.value).DiscOpen? ==> !s.session)
    && (s.scan.Some? && PastSessionCheck(s.At(s.scan.value)) ==>
          !s.session && (s.mutex.Some? ==> !s.At(s.mutex.value).CmdBody?))
  }

  ghost predicate Inv(s: State) {
    Owned(s) && Exclusive(s)
  }

  /** Worker t took a free resource, kept its own, gave its own back, or left it to another worker. */
  predicate Handed(before: Option<Worker>, after: Option<Worker>, t: Worker) {
    after == before || (before == None && after == Some(t)) || (before == Some(t) && after == None)
  }

  predicate Moved(s: State, n: State, t: Worker) {
    && n.workers == s.workers[t := n.At(t)]
    && Handed(s.mutex, n.mutex, t) && Handed(s.discovery, n.discovery, t) && Handed(s.scan, n.scan, t)
  }

  lemma OwnedMoved(s: State, n: State, t: Worker)
    requires Owned(s) && Moved(s, n, t) && OwnedBy(n, t)
    ensures Owned(n)
  {
    hide HoldsMutex, OwnsDiscovery, OwnsScan;
    forall u: Worker ensures OwnedBy(n, u) {
      if u != t {
        assert n.At(u) == s.At(u) && OwnedBy(s, u);
      }
    }
  }

  /** Owned, for the stepping worker and for the current holders. */
  predicate OwnedByAll(s: State, t: Worker) {
    && OwnedBy(s, t)
    && (s.mutex.Some? ==> OwnedBy(s, s.mutex.value))
    && (s.discovery.Some? ==> OwnedBy(s, s.discovery.value))
    && (s.scan.Some? ==> OwnedBy(s, s.scan.value))
  }

  lemma OwnedHolders(s: State, t: Worker)
    requires Owned(s)
    ensures OwnedByAll(s, t)
  {
    hide HoldsMutex, OwnsDiscovery, OwnsScan;
  }

  lemma StartMoves(s: State, n: State, t: Worker)
    requires OwnedBy(s, t) && StartStep(s, n, t)
    ensures Moved(s, n, t) && OwnedBy(n, t)
  {}

  lemma StartExcludes(s: State, n: State, t: Worker)
    requires OwnedByAll(s, t) && Exclusive(s) && StartStep(s, n, t)
    ensures Exclusive(n)
  {}

  lemma CommandMoves(s: State, n: State, t: Worker)
    requires OwnedBy(s, t) && CommandStep(s, n, t)
    ensures Moved(s, n, t) && OwnedBy(n, t)
  {}

  lemma CommandExcludes(s: State, n: State, t: Worker)
    requires OwnedByAll(s, t) && Exclusive(s) && CommandStep(s, n, t)
    ensures Exclusive(n)
  {}

  lemma DiscoveryMoves(s: State, n: State, t: Worker)
    requires OwnedBy(s, t) && DiscoveryStep(s, n, t)
    ensures Moved(s, n, t) && OwnedBy(n, t)
  {}

  lemma DiscoveryExcludes(s: State, n: State, t: Worker)
    requires OwnedByAll(s, t) && Exclusive(s) && DiscoveryStep(s, n, t)
    ensures Exclusive(n)
  {}

  lemma ScanMoves(s: State, n: State, t: Worker)
    requires OwnedBy(s, t) && ScanStep(s, n, t)
    ensures Moved(s, n, t) && OwnedBy(n, t)
  {}

  lemma ScanExcludes(s: State, n: State, t: Worker)
    requires OwnedByAll(s, t) && Exclusive(s) && ScanStep(s, n, t)
    ensures Exclusive(n)
  {}

  lemma StepKeeps(s: State, n: State, t: Worker)
    requires Inv(s) && Step(s, n, t)
    ensures Inv(n)
  {
    hide Owned, Exclusive, Moved, OwnedBy, StartStep, CommandStep, DiscoveryStep, ScanStep;
    OwnedHolders(s, t);
    if StartStep(s, n, t) {
      StartMoves(s, n, t);
      StartExcludes(s, n, t);
    } else if CommandStep(s, n, t) {
      CommandMoves(s, n, t);
      CommandExcludes(s, n, t);
    } else if DiscoveryStep(s, n, t) {
      DiscoveryMoves(s, n, t);
      DiscoveryExcludes(s, n, t);
    } else {
      ScanMoves(s, n, t);
      ScanExcludes(s, n, t);
    }
    OwnedMoved(s, n, t);
  }

  /** Tasks t and u (one worker or two) break exclusion: two open links, a session beside an open link,
      or a command body running beside a search, or beside a scan past its session check. */
  predicate Clash(s: State, t: Worker, u: Worker) {
    || (s.At(t).DiscOpen? && s.At(u).DiscOpen? && t != u)
    || (ScanHoldsLink(s.At(t)) && ScanHoldsLink(s.At(u)) && t != u)
    || (s.At(t).DiscOpen? && ScanHoldsLink(s.At(u)))
    || (s.session && (s.At(t).DiscOpen? || ScanHoldsLink(s.At(t))))
    || (PastSessionCheck(s.At(t)) && s.At(u).CmdBody?)
    || (s.At(t).DiscOpen? && s.At(u).CmdBody?)
  }

  /** At most one of the connected session, the discoveries and the scans has the link open, and no
      command body runs during a search or while a scan is past its session check. */
  ghost predicate Safe(s: State) {
    forall t, u :: !Clash(s, t, u)
  }

  lemma InvSafe(s: State)
    requires Inv(s)
    ensures Safe(s)
  {
    forall t: Worker, u: Worker ensures !Clash(s, t, u) {
      assert OwnedBy(s, t) && OwnedBy(s, u);
    }
  }

  lemma InitInv(s: State)
    requires Init(s)
    ensures Inv(s)
  {}

  lemma {:induction false} RunInv(states: seq<State>, i: nat)
    requires Run(states) && i < |states|
    ensures Inv(states[i])
  {
    hide Inv, Step;
    if i == 0 {
      InitInv(states[0]);
    } else {
      RunInv(states, i - 1);
      assert Next(states[i - 1], states[i]);
      var t :| Step(states[i - 1], states[i], t);
      StepKeeps(states[i - 1], states[i], t);
    }
  }

  /** Every state of every history is safe. */
  lemma RunSafe(states: seq<State>, i: nat)
    requires Run(states) && i < |states|
    ensures Safe(states[i])
  {
    RunInv(states, i);
    InvSafe(states[i]);
  }

  /** No flag and no lock is ever left behind: once every worker is idle again, everything is free. */
  lemma NothingLeaks(states: seq<State>, i: nat)
    requires Run(states) && i < |states| && forall t :: states[i].At(t) == Idle
    ensures states[i].discovery == None && states[i].scan == None && states[i].mutex == None
  {
    RunInv(states, i);
    var s := states[i];
    OwnedHolders(s, 0);
  }

  // ---- nothing is held forever ----

  /** How many steps a worker has left at most. */
  function Rank(pc: Pc): nat {
    match pc
    case Idle => 0
    case CmdDone | DiscReset | ScanReset => 1
    case CmdBody(_) | DiscLease | ScanClosed => 2
    case CmdSawDiscoveryAgain(_) | DiscClosed | ScanAuditDone => 3
    case CmdLocked(_) | DiscOpen | ScanAuditLocked => 4
    case CmdLocking(_) | DiscLocked | ScanAudit => 5
    case CmdSawDiscovery(_) | DiscWaiting | ScanOpen => 6
    case CmdStart(_) | DiscClaimed | ScanReleased => 7
    case ScanLocked => 8
    case ScanWaiting => 9
    case ScanClaimed => 10
  }

  /** A step of a worker that is already on its way. */
  predicate WorkStep(s: State, n: State, t: Worker) {
    CommandStep(s, n, t) || DiscoveryStep(s, n, t) || ScanStep(s, n, t)
  }

  /** Whatever the schedule, a worker on its way gets closer to its end with every step it makes, and
      the others stay where they are: without new starts every history ends. */
  lemma StepsShrink(s: State, n: State, t: Worker)
    requires WorkStep(s, n, t)
    ensures Rank(n.At(t)) < Rank(s.At(t)) <= 10 && forall u :: u != t ==> n.At(u) == s.At(u)
  {}

  /** One step worker t can make: always, unless it needs the mutex and another worker holds it. */
  function Advance(s: State, t: Worker): State
    requires s.At(t) != Idle
  {
    match s.At(t)
    case CmdStart(cmd) => s.Go(t, if s.discovery.Some? then Idle else CmdSawDiscovery(cmd))
    case CmdSawDiscovery(cmd) => s.Go(t, if s.scan.Some? then Idle else CmdLocking(cmd))
    case CmdLocking(cmd) => s.(mutex := Some(t)).Go(t, CmdLocked(cmd))
    case CmdLocked(cmd) => s.Go(t, if s.discovery.Some? then CmdDone else CmdSawDiscoveryAgain(cmd))
    case CmdSawDiscoveryAgain(cmd) => s.Go(t, if s.scan.Some? then CmdDone else CmdBody(cmd))
    case CmdBody(_) => s.Go(t, CmdDone)
    case CmdDone => s.(mutex := None).Go(t, Idle)
    case DiscClaimed => s.Go(t, if s.scan.Some? then DiscReset else DiscWaiting)
    case DiscReset => s.(discovery := None).Go(t, Idle)
    case DiscWaiting => s.(mutex := Some(t)).Go(t, DiscLocked)
    case DiscLocked => s.Go(t, if s.session then DiscClosed else DiscOpen)
    case DiscOpen => s.Go(t, DiscClosed)
    case DiscClosed => s.(mutex := None).Go(t, DiscLease)
    case DiscLease => s.(discovery := None).Go(t, Idle)
    case ScanClaimed => s.Go(t, if s.discovery.Some? then ScanReset else ScanWaiting)
    case ScanReset => s.(scan := None).Go(t, Idle)
    case ScanWaiting => s.(mutex := Some(t)).Go(t, ScanLocked)
    case ScanLocked => s.(mutex := None).Go(t, if s.session then ScanClosed else ScanReleased)
    case ScanReleased => s.Go(t, ScanOpen)
    case ScanOpen => s.Go(t, ScanAudit)
    case ScanAudit => s.(mutex := Some(t)).Go(t, ScanAuditLocked)
    case ScanAuditLocked => s.(mutex := None).Go(t, ScanAuditDone)
    case ScanAuditDone => s.Go(t, ScanClosed)
    case ScanClosed => s.(scan := None).Go(t, Idle)
  }

  lemma AdvanceIsStep(s: State, t: Worker)
    requires s.At(t) != Idle && (s.mutex == None || s.mutex == Some(t)) && OwnedBy(s, t)
    ensures var n := Advance(s, t);
            WorkStep(s, n, t) && (n.mutex == None || n.mutex == Some(t)) && n.workers == s.workers[t := n.At(t)]
  {}

  /** No reachable state is stuck: as long as some worker is on its way, some worker can step. */
  lemma NeverStuck(s: State, busy: Worker) returns (n: State, t: Worker)
    requires Inv(s) && s.At(busy) != Idle
    ensures WorkStep(s, n, t)
  {
    hide WorkStep, Exclusive, OwnsDiscovery, OwnsScan;
    t := if s.mutex.Some? then s.mutex.value else busy;
    assert OwnedBy(s, t);
    AdvanceIsStep(s, t);
    n := Advance(s, t);
  }

  /** A stretch of a history. */
  ghost predicate Path(states: seq<State>) {
    && states != []
    && forall i, j :: 0 <= i < |states| && 0 <= j < |states| && j == i + 1 ==> Next(states[i], states[j])
  }

  lemma PathStep(s: State, n: State, rest: seq<State>)
    requires Next(s, n) && Path(rest) && rest[0] == n
    ensures Path([s] + rest)
  {
    hide Next;
    var p := [s] + rest;
    forall i, j | 0 <= i < |p| && 0 <= j < |p| && j == i + 1 ensures Next(p[i], p[j]) {
      if i > 0 {
        assert Next(rest[i - 1], rest[j - 1]);
      }
    }
  }

  lemma PathConcat(a: seq<State>, b: seq<State>)
    requires Path(a) && Path(b) && a[|a| - 1] == b[0]
    ensures Path(a + b[1..])
  {
    hide Next;
    var p := a + b[1..];
    forall i, j | 0 <= i < |p| && 0 <= j < |p| && j == i + 1 ensures Next(p[i], p[j]) {
      if j < |a| {
        assert Next(a[i], a[j]);
      } else {
        assert p[j] == b[j - |a| + 1] && p[i] == b[i - |a| + 1];
        assert Next(b[i - |a| + 1], b[j - |a| + 1]);
      }
    }
  }

  /** Worker t alone, run to its end. */
  lemma {:induction false} Drive(s: State, t: Worker) returns (path: seq<State>)
    requires Inv(s) && t in s.workers && (s.mutex == None || s.mutex == Some(t))
    ensures path != [] && Path(path) && path[0] == s
    ensures var e := path[|path| - 1]; Inv(e) && e.mutex == None && e.workers == s.workers[t := Idle]
    decreases Rank(s.At(t))
  {
    hide Exclusive, OwnsDiscovery, OwnsScan, WorkStep, Path;
    assert OwnedBy(s, t);
    if s.At(t) == Idle {
      path := [s];
      SinglePath(s);
      assert s.workers[t := Idle] == s.workers;
    } else {
      var n := Advance(s, t);
      AdvanceIsStep(s, t);
      StepsShrink(s, n, t);
      WorkIsStep(s, n, t);
      StepKeeps(s, n, t);
      var rest := Drive(n, t);
      PathStep(s, n, rest);
      path := [s] + rest;
      assert path[|path| - 1] == rest[|rest| - 1];
      assert n.workers[t := Idle] == s.workers[t := Idle];
    }
  }

  lemma SinglePath(s: State)
    ensures Path([s])
  {}

  lemma WorkIsStep(s: State, n: State, t: Worker)
    requires WorkStep(s, n, t)
    ensures Step(s, n, t) && Next(s, n)
  {
    hide CommandStep, DiscoveryStep, ScanStep, StartStep;
    assert Step(s, n, t);
  }

  function Busy(s: State): set<Worker> {
    set t | t in s.workers && s.workers[t] != Idle
  }

  lemma {:induction false} Settle(s: State) returns (path: seq<State>)
    requires Inv(s) && s.mutex == None
    ensures path != [] && Path(path) && path[0] == s
    ensures Inv(path[|path| - 1]) && Busy(path[|path| - 1]) == {}
    decreases Busy(s)
  {
    hide Inv, Path;
    if Busy(s) == {} {
      path := [s];
      SinglePath(s);
    } else {
      var t :| t in Busy(s);
      var first := Drive(s, t);
      var e := first[|first| - 1];
      assert Busy(e) == Busy(s) - {t};
      var rest := Settle(e);
      PathConcat(first, rest);
      path := first + rest[1..];
      LastOf(first, rest);
    }
  }

  lemma LastOf(a: seq<State>, b: seq<State>)
    requires a != [] && b != [] && a[|a| - 1] == b[0]
    ensures (a + b[1..])[0] == a[0] && (a + b[1..])[|a + b[1..]| - 1] == b[|b| - 1]
  {}

  /** From every reachable state some schedule brings all workers home, and then both flags and the
      mutex are free: no lease can be held forever. */
  lemma ComesToRest(states: seq<State>, i: nat) returns (path: seq<State>)
    requires Run(states) && i < |states|
    ensures path != [] && Path(path) && path[0] == states[i]
    ensures var e := path[|path| - 1];
            (forall t :: e.At(t) == Idle) && e.discovery == None && e.scan == None && e.mutex == None
  {
    var s := states[i];
    RunInv(states, i);
    hide Path, Exclusive, Next, Run;
    if s.mutex == None {
      path := Settle(s);
    } else {
      assert OwnedBy(s, s.mutex.value);
      var first := Drive(s, s.mutex.value);
      var rest := Settle(first[|first| - 1]);
      PathConcat(first, rest);
      path := first + rest[1..];
      LastOf(first, rest);
    }
    AllFree(path[|path| - 1]);
  }

  lemma AllFree(s: State)
    requires Inv(s) && Busy(s) == {}
    ensures (forall t :: s.At(t) == Idle) && s.discovery == None && s.scan == None && s.mutex == None
  {
    forall t: Worker ensures s.At(t) == Idle {
      if t in s.workers {
        assert t !in Busy(s);
      }
    }
    OwnedHolders(s, 0);
  }

  // ---- who gets through ----

  /** Nobody is on the way. */
  ghost predicate AtRest(s: State) {
    (forall t :: s.At(t) == Idle) && s.discovery == None && s.scan == None && s.mutex == None
  }

  lemma PathSnoc(path: seq<State>, n: State)
    requires Path(path) && Next(path[|path| - 1], n)
    ensures Path(path + [n])
  {
    hide Next;
    var all := path + [n];
    assert forall k :: 0 <= k < |path| ==> all[k] == path[k];
  }

  lemma Starts(s: State, n: State, t: Worker)
    requires StartStep(s, n, t)
    ensures Next(s, n)
  {
    hide StartStep;
    assert Step(s, n, t);
  }

  /** A command that is alone reaches its body, whatever the session. */
  lemma CommandGetsThrough(s: State, t: Worker, cmd: Command) returns (path: seq<State>)
    requires AtRest(s)
    ensures path != [] && Path(path) && path[0] == s
    ensures path[|path| - 1].At(t) == CmdBody(cmd) && path[|path| - 1].session == s.session
  {
    hide Path, Next, DiscoveryStep, ScanStep;
    var a := s.Go(t, CmdStart(cmd));
    assert StartStep(s, a, t);
    Starts(s, a, t);
    SinglePath(s);
    PathSnoc([s], a);
    assert [s] + [a] == [s, a];
    var b := a.Go(t, CmdSawDiscovery(cmd));
    var c := b.Go(t, CmdLocking(cmd));
    var e := c.(mutex := Some(t)).Go(t, CmdLocked(cmd));
    var f := e.Go(t, CmdSawDiscoveryAgain(cmd));
    var g := f.Go(t, CmdBody(cmd));
    path := Onward(Onward(Onward(Onward(Onward([s, a], b, t), c, t), e, t), f, t), g, t);
  }

  /** The path with one more step of a worker that is on its way. */
  ghost function Onward(path: seq<State>, n: State, t: Worker): (more: seq<State>)
    requires Path(path) && WorkStep(path[|path| - 1], n, t)
    ensures Path(more) && |more| == |path| + 1 && more[|path|] == n && more[0] == path[0]
  {
    WorkIsStep(path[|path| - 1], n, t);
    PathSnoc(path, n);
    path + [n]
  }

  /** A discovery that is alone opens the link if no session is connected. */
  lemma DiscoveryGetsThrough(s: State, t: Worker) returns (path: seq<State>)
    requires AtRest(s) && !s.session
    ensures path != [] && Path(path) && path[0] == s && path[|path| - 1].At(t) == DiscOpen
  {
    hide Path, Next, CommandStep, ScanStep;
    var a := s.(discovery := Some(t)).Go(t, DiscClaimed);
    assert StartStep(s, a, t);
    Starts(s, a, t);
    SinglePath(s);
    PathSnoc([s], a);
    assert [s] + [a] == [s, a];
    var b := a.Go(t, DiscWaiting);
    var c := b.(mutex := Some(t)).Go(t, DiscLocked);
    var e := c.Go(t, DiscOpen);
    path := Onward(Onward(Onward([s, a], b, t), c, t), e, t);
  }

  lemma ScanWaits(s: State, t: Worker) returns (path: seq<State>)
    requires AtRest(s)
    ensures path != [] && Path(path) && path[0] == s
    ensures var e := path[|path| - 1]; e.At(t) == ScanWaiting && e.mutex == None && e.session == s.session
  {
    hide Path, Next, CommandStep, DiscoveryStep;
    var a := s.(scan := Some(t)).Go(t, ScanClaimed);
    assert StartStep(s, a, t);
    Starts(s, a, t);
    SinglePath(s);
    PathSnoc([s], a);
    assert [s] + [a] == [s, a];
    path := Onward([s, a], a.Go(t, ScanWaiting), t);
  }

  /** So does a scan. */
  lemma ScanGetsThrough(s: State, t: Worker) returns (path: seq<State>)
    requires AtRest(s) && !s.session
    ensures path != [] && Path(path) && path[0] == s && path[|path| - 1].At(t) == ScanOpen
  {
    hide Path, Next, CommandStep, DiscoveryStep, StartStep;
    path := ScanWaits(s, t);
    var b := path[|path| - 1];
    var c := b.(mutex := Some(t)).Go(t, ScanLocked);
    var e := c.(mutex := None).Go(t, ScanReleased);
    path := Onward(Onward(Onward(path, c, t), e, t), e.Go(t, ScanOpen), t);
  }

  /** A connect or disconnect that is alone can change the session. */
  lemma SessionCanChange(s: State, t: Worker) returns (path: seq<State>)
    requires AtRest(s)
    ensures path != [] && Path(path) && path[0] == s && path[|path| - 1].session == !s.session
  {
    hide Path, Next, DiscoveryStep, ScanStep;
    var cmd := if s.session then Disconnect else Connect;
    var first := CommandGetsThrough(s, t, cmd);
    var e := first[|first| - 1];
    path := Onward(first, e.(session := !s.session).Go(t, CmdDone), t);
  }
}
