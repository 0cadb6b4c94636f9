/** read_transaction over the serial client: the physical requests of RegisterReads are exchanges of
    ModbusClient, and its Device is what the line answered. */
module SerialReads {
  import opened ModbusDecode
  import opened ModbusClient
  import opened Bytes
  import R = RegisterReads

  /** retryable: a checksum that does not match, or a time-out. */
  predicate Retries(error: Error) {
    error == CrcError || error == LrcError || error == TimedOut
  }

  function Ints(values: seq<bv16>): (ints: seq<u16>)
    ensures |ints| == |values|
  {
    seq(|values|, i requires 0 <= i < |values| => values[i] as int)
  }

  /** What an exchange is to the register reads. */
  function ReplyOf(outcome: ModbusClient.Outcome<seq<bv16>>): R.Reply {
    match outcome
    case Good(values) => R.Values(Ints(values))
    case Bad(e) => if Retries(e) then R.Retryable else R.Fatal
  }

  /** Tried again: after a checksum error or a time-out, and nothing else. */
  lemma RetriedErrors(error: Error)
    ensures ReplyOf(Bad(error)) ==
            if error.CrcError? || error.LrcError? || error.TimedOut? then R.Retryable else R.Fatal
  {}

  /** A device that gave these replies to these requests. */
  ghost predicate Answered(device: R.Device, log: seq<R.Access>, replies: seq<R.Reply>) {
    |log| == |replies| && forall k :: 0 <= k < |log| ==> device(log[..k], log[k]) == replies[k]
  }

  /** There always is one. */
  lemma SomeDevice(log: seq<R.Access>, replies: seq<R.Reply>) returns (device: R.Device)
    requires |log| == |replies|
    ensures Answered(device, log, replies)
  {
    device := (before, access) => if |before| < |replies| then replies[|before|] else R.Fatal;
  }

  lemma AnsweredBefore(device: R.Device, log: seq<R.Access>, replies: seq<R.Reply>, access: R.Access, reply: R.Reply)
    requires |log| == |replies| && Answered(device, log + [access], replies + [reply])
    ensures Answered(device, log, replies) && device(log, access) == reply
  {
    var all := log + [access];
    assert all[..|log|] == log && all[|log|] == access;
    forall k | 0 <= k < |log| ensures device(log[..k], log[k]) == replies[k] {
      assert all[..k] == log[..k];
    }
  }

  function Read(r: R.Result<seq<bv16>>): R.Result<seq<u16>> {
    match r
    case Ok(values) => R.Ok(Ints(values))
    case Err => R.Err
  }

  /** Requests and the replies to them. */
  datatype Asked = Asked(log: seq<R.Access>, replies: seq<R.Reply>)

  /** On every device that gave the later replies: it gave the earlier ones too, and read_once went so. */
  ghost predicate ReadsOnce(before: Asked, after: Asked, address: nat, count: nat, reply: R.Reply) {
    forall device: R.Device :: Answered(device, after.log, after.replies) ==>
      Answered(device, before.log, before.replies) && R.Once(device, before.log, address, count) == (reply, after.log)
  }

  /** On every such device: from before to after, `left` of the retries allowed are left. */
  ghost predicate Retried(before: Asked, after: Asked, address: nat, count: nat, allowed: nat, left: nat) {
    forall device: R.Device :: Answered(device, after.log, after.replies) ==>
      && Answered(device, before.log, before.replies)
      && R.Attempts(device, before.log, address, count, allowed) == R.Attempts(device, after.log, address, count, left)
  }

  /** On every such device: read_transaction went so. */
  ghost predicate Transacted(before: Asked, after: Asked, address: nat, count: nat, retries: nat,
                             r: R.Result<seq<u16>>) {
    forall device: R.Device :: Answered(device, after.log, after.replies) ==>
      && Answered(device, before.log, before.replies)
      && R.Attempts(device, before.log, address, count, retries) == (r, after.log)
  }

  lemma OneRead(a: Asked, address: nat, count: nat, reply: R.Reply)
    requires |a.log| == |a.replies| && 1 <= count <= 100 && (reply.Values? ==> |reply.values| == count)
    ensures ReadsOnce(a, Asked(a.log + [R.ReadRegs(address, count)], a.replies + [reply]), address, count, reply)
  {
    hide Answered;
    var access := R.ReadRegs(address, count);
    forall device: R.Device | Answered(device, a.log + [access], a.replies + [reply])
      ensures Answered(device, a.log, a.replies) && device(a.log, access) == reply
    {
      AnsweredBefore(device, a.log, a.replies, access, reply);
    }
  }

  lemma NoRead(a: Asked, address: nat, count: nat)
    requires !(1 <= count <= 100)
    ensures ReadsOnce(a, a, address, count, R.Fatal)
  {}

  lemma NoRetry(a: Asked, address: nat, count: nat, retries: nat)
    ensures Retried(a, a, address, count, retries, retries)
  {}

  lemma OneRetry(a: Asked, b: Asked, c: Asked, address: nat, count: nat, allowed: nat, left: nat)
    requires Retried(a, b, address, count, allowed, left) && left > 0
    requires ReadsOnce(b, c, address, count, R.Retryable)
    ensures Retried(a, c, address, count, allowed, left - 1)
  {
    hide Answered, R.Once;
  }

  lemma LastRead(a: Asked, b: Asked, c: Asked, address: nat, count: nat, allowed: nat, left: nat, reply: R.Reply)
    requires Retried(a, b, address, count, allowed, left) && ReadsOnce(b, c, address, count, reply)
    requires left == 0 || !reply.Retryable?
    ensures Transacted(a, c, address, count, allowed, if reply.Values? then R.Ok(reply.values) else R.Err)
  {
    hide Answered, R.Once;
  }

  /** How the calls on the port around one exchange go. */
  datatype Calls = Calls(clear: bool, flush: bool, restore: bool)

  /** A port that works and brings the well-formed answer p to a read. */
  ghost predicate Reachable(client: SerialClient, calls: Calls, address: bv16, count: bv16, p: seq<bv8>)
    reads client
  {
    && calls.clear && calls.flush && calls.restore && Delivers(client.script, client.writes, p, client.protocol)
    && 1 <= count as nat <= 100 && |p| >= 3 && p[1] == 3
    && Answer(p, client.slave, 3, count, RequestPayload(client.slave, 3, address, count))
  }

  /** The offline decoder reports these registers, as a match unless the addresses run past 65535. */
  ghost predicate Shown(records: seq<Record>, address: bv16, count: bv16, values: seq<bv16>) {
    && Decode(records).Ok? && Decode(records).value.response.values == values
    && (Decode(records).value.outcome == MATCH <==> InRange(address, count as nat))
  }

  class SerialSession {
    const client: SerialClient
    const retries: nat
    var stats: R.Stats
    ghost var asked: Asked

    constructor (client: SerialClient, retries: nat)
      requires client.protocol != NotModbus && retries <= 3
      ensures this.client == client && this.retries == retries && Valid() && asked == Asked([], [])
      ensures stats == R.Stats(0, 0, 0, 0, 0)
    {
      this.client, this.retries, stats, asked := client, retries, R.Stats(0, 0, 0, 0, 0), Asked([], []);
    }

    ghost predicate Valid()
      reads this
    {
      client.protocol != NotModbus && retries <= 3 && |asked.log| == |asked.replies| && stats.Conserved()
    }

    /** read_once, and what it is to the register reads. */
    method ReadOnce(address: bv16, count: bv16, calls: Calls, ghost p: seq<bv8>)
      returns (r: ModbusClient.Outcome<seq<bv16>>)
      requires client.protocol != NotModbus && |asked.log| == |asked.replies|
      modifies `asked, client
      ensures |asked.log| == |asked.replies| && old(asked.log) <= asked.log && old(asked.replies) <= asked.replies
      ensures 1 <= count as nat <= 100 ==> asked.replies == old(asked.replies) + [ReplyOf(r)]
      ensures !(1 <= count as nat <= 100) ==> asked == old(asked) && r == Bad(InvalidResponse)
      ensures ReadsOnce(old(asked), asked, address as nat, count as nat, ReplyOf(r))
      ensures r.Good? ==> Shown(client.log, address, count, r.value)
      ensures old(Reachable(client, calls, address, count, p)) ==> |p| >= 3 && r == Good(Registers(p[3..]))
    {
      hide Decode, Registers, Delivers, Answered, Answer, ReadsOnce;
      r := client.ReadOnce(address, count, calls.clear, calls.flush, calls.restore, p);
      if 1 <= count as nat <= 100 {
        OneRead(asked, address as nat, count as nat, ReplyOf(r));
        asked := Asked(asked.log + [R.ReadRegs(address as nat, count as nat)], asked.replies + [ReplyOf(r)]);
      } else {
        NoRead(asked, address as nat, count as nat);
      }
    }

    /** read_transaction. On every device that gave the replies the line gave, the run is the one of
        RegisterReads.Attempts; a success is what the offline decoder reports, and a port that works and
        brings a well-formed answer gives its registers. */
    method ReadTransaction(address: bv16, count: bv16, calls: nat -> Calls, ghost p: seq<bv8>)
      returns (r: R.Result<seq<bv16>>)
      requires Valid()
      modifies this, client
      ensures Valid() && old(asked.log) <= asked.log
      ensures Transacted(old(asked), asked, address as nat, count as nat, retries, Read(r))
      ensures 1 <= count as nat <= 100 ==> |old(asked.log)| < |asked.log| <= |old(asked.log)| + retries + 1
      ensures forall k :: |old(asked.log)| <= k < |asked.log| - 1 ==> asked.replies[k] == R.Retryable
      ensures 1 <= count as nat <= 100 && r.Err? ==>
                |asked.log| == |old(asked.log)| + retries + 1 || asked.replies[|asked.log| - 1] == R.Fatal
      ensures r.Ok? ==> Shown(client.log, address, count, r.value)
      ensures old(Reachable(client, calls(0), address, count, p)) ==> |p| >= 3 && r == R.Ok(Registers(p[3..]))
      ensures stats.transactions == old(stats.transactions) + 1
      ensures stats.failed == old(stats.failed) + if r.Err? then 1 else 0
      ensures stats.firstSuccesses ==
              old(stats.firstSuccesses) + if r.Ok? && |asked.log| == |old(asked.log)| + 1 then 1 else 0
      ensures 1 <= count as nat <= 100 ==>
                stats.retries == old(stats.retries) + (|asked.log| - |old(asked.log)| - 1)
    {
      hide Shown, Registers, ReadsOnce, Retried, Transacted, Reachable;
      stats := stats.(transactions := stats.transactions + 1);
      var attempt := 0;
      ghost var at, n: nat := address as nat, count as nat;
      NoRetry(asked, at, n, retries);
      while attempt <= retries
        invariant 0 <= attempt <= retries <= 3 && client.protocol != NotModbus
        invariant |asked.log| == |asked.replies| && old(asked.log) <= asked.log
        invariant stats == old(stats).(transactions := old(stats).transactions + 1,
                                       retries := old(stats).retries + attempt)
        invariant Retried(old(asked), asked, at, n, retries, retries - attempt)
        invariant |asked.log| == |old(asked.log)| + attempt && (attempt > 0 ==> 1 <= n <= 100)
        invariant forall k :: |old(asked.log)| <= k < |asked.log| ==> asked.replies[k] == R.Retryable
        invariant old(Reachable(client, calls(0), address, count, p)) ==>
                    attempt == 0 && Reachable(client, calls(0), address, count, p)
        decreases retries - attempt
      {
        ghost var before := asked;
        var outcome := ReadOnce(address, count, calls(attempt), p);
        if outcome.Good? || attempt == retries || !Retries(outcome.error) {
          LastRead(old(asked), before, asked, at, n, retries, retries - attempt, ReplyOf(outcome));
        } else {
          OneRetry(old(asked), before, asked, at, n, retries, retries - attempt);
        }
        match outcome {
          case Good(values) =>
            stats := if attempt == 0 then stats.(firstSuccesses := stats.firstSuccesses + 1)
                     else stats.(recovered := stats.recovered + 1);
            return R.Ok(values);
          case Bad(error) =>
            if attempt < retries && Retries(error) {
              stats := stats.(retries := stats.retries + 1);
            } else {
              stats := stats.(failed := stats.failed + 1);
              return R.Err;
            }
        }
        attempt := attempt + 1;
      }
      assert false;
      return R.Err;
    }
  }
}
