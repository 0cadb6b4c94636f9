/** Batch parameter writes: preflight, write and read back (src/runtime.rs). */
module BatchWrite {
  import opened Bytes
  import opened RegisterReads

  /** A planned write: definition, new raw value, and the raw value the user saw. */
  datatype Planned = Planned(definition: Definition, newRaw: u16, expectedRaw: u16)

  datatype Written = Written(id: nat, previousRaw: u16, writtenRaw: u16, readBackRaw: u16)

  datatype Report = Rejected | Ran(completed: seq<Written>, failedId: Option<nat>)

  datatype Option<+T> = None | Some(value: T)

  /** The request as it arrives: parameter, value, expected raw value. */
  datatype Item = Item(id: nat, value: int, expectedRaw: u16)

  /** The device profile: addresses, access rights and value encoding (None when out of range). */
  datatype Profile = Profile(addresses: map<nat, u16>, writable: set<nat>, encode: (nat, int) -> Option<u16>)

  function WriteOf(p: Planned): Access {
    WriteReg(p.definition.address, p.newRaw)
  }

  function WritesOf(planned: seq<Planned>): (w: seq<Access>)
    ensures |w| == |planned|
  {
    seq(|planned|, i requires 0 <= i < |planned| => WriteOf(planned[i]))
  }

  /** The writes among a sequence of accesses, in order. */
  function Writes(log: seq<Access>): seq<Access> {
    if log == [] then []
    else Writes(log[..|log| - 1]) + if log[|log| - 1].WriteReg? then [log[|log| - 1]] else []
  }

  lemma {:induction false} WritesConcat(a: seq<Access>, b: seq<Access>)
    ensures Writes(a + b) == Writes(a) + Writes(b)
    decreases |b|
  {
    if b == [] {
      assert a + b == a;
    } else {
      assert (a + b)[..|a + b| - 1] == a + b[..|b| - 1];
      WritesConcat(a, b[..|b| - 1]);
    }
  }

  lemma {:induction false} NoWrites(before: seq<Access>, after: seq<Access>)
    requires OnlyReads(before, after)
    ensures Writes(after[|before|..]) == []
    decreases |after|
  {
    var delta := after[|before|..];
    if delta != [] {
      var shorter := after[..|after| - 1];
      assert after[|after| - 1].ReadRegs? && OnlyReads(before, shorter);
      assert delta[..|delta| - 1] == shorter[|before|..];
      NoWrites(before, shorter);
    }
  }

  // ---- planning ----

  predicate Distinct(items: seq<Item>) {
    forall i, j :: 0 <= i < j < |items| ==> items[i].id != items[j].id
  }

  /** Every item names a known, writable parameter and a value that can be encoded. */
  predicate Plannable(profile: Profile, item: Item) {
    item.id in profile.addresses && item.id in profile.writable && profile.encode(item.id, item.value).Some?
  }

  function PlanOf(profile: Profile, item: Item): Planned
    requires Plannable(profile, item)
  {
    Planned(Definition(item.id, profile.addresses[item.id]), profile.encode(item.id, item.value).value,
            item.expectedRaw)
  }

  function PlanAll(profile: Profile, items: seq<Item>): (planned: seq<Planned>)
    requires forall i :: 0 <= i < |items| ==> Plannable(profile, items[i])
    ensures |planned| == |items|
  {
    seq(|items|, i requires 0 <= i < |items| => PlanOf(profile, items[i]))
  }

  /** The loop that turns the request into a plan, before anything is sent. */
  method Plan(profile: Profile, items: seq<Item>) returns (planned: Option<seq<Planned>>)
    ensures planned.Some? <==> Distinct(items) && forall i :: 0 <= i < |items| ==> Plannable(profile, items[i])
    ensures planned.Some? ==> planned.value == PlanAll(profile, items)
  {
    var seen: set<nat> := {};
    var plan: seq<Planned> := [];
    for k := 0 to |items|
      invariant |plan| == k && forall i :: 0 <= i < k ==>
                  Plannable(profile, items[i]) && plan[i] == PlanOf(profile, items[i])
      invariant forall i, j :: 0 <= i < j < k ==> items[i].id != items[j].id
      invariant forall id :: id in seen <==> exists i :: 0 <= i < k && items[i].id == id
    {
      if items[k].id in seen { return None; }
      seen := seen + {items[k].id};
      if !Plannable(profile, items[k]) { return None; }
      plan := plan + [PlanOf(profile, items[k])];
    }
    return Some(plan);
  }

  // ---- what a request asks for ----

  predicate AllPlannable(profile: Profile, items: seq<Item>) {
    forall i :: 0 <= i < |items| ==>
      && items[i].id in profile.addresses && items[i].id in profile.writable
      && profile.encode(items[i].id, items[i].value).Some?
  }

  function Raw(profile: Profile, item: Item): u16
    requires Plannable(profile, item)
  {
    profile.encode(item.id, item.value).value
  }

  /** The write an item asks for: its encoded value, to the register of its parameter. */
  function Asked(profile: Profile, item: Item): Access
    requires Plannable(profile, item)
  {
    WriteReg(profile.addresses[item.id], Raw(profile, item))
  }

  /** The writes since `before` are those of the first items, one each and in the order of the request. */
  predicate WritesAsked(profile: Profile, items: seq<Item>, before: seq<Access>, log: seq<Access>, n: nat)
    requires AllPlannable(profile, items)
  {
    && |before| <= |log| && n <= |items| && |Writes(log[|before|..])| == n
    && forall i :: 0 <= i < n ==> Writes(log[|before|..])[i] == Asked(profile, items[i])
  }

  /** What is reported of a completed item. */
  predicate Reports(profile: Profile, items: seq<Item>, completed: seq<Written>)
    requires AllPlannable(profile, items)
  {
    |completed| <= |items| && forall i :: 0 <= i < |completed| ==> ReportedAt(profile, items, completed, i)
  }

  predicate ReportedAt(profile: Profile, items: seq<Item>, completed: seq<Written>, i: nat)
    requires AllPlannable(profile, items) && i < |completed| <= |items|
  {
    completed[i] ==
      Written(items[i].id, items[i].expectedRaw, Raw(profile, items[i]), Raw(profile, items[i]))
  }

  /** The registers of all items hold what the request expects of them. */
  ghost predicate AsExpected(device: Device, init: nat -> u16, log: seq<Access>, profile: Profile, items: seq<Item>)
    requires AllPlannable(profile, items)
  {
    forall i :: 0 <= i < |items| ==>
      items[i].expectedRaw == Held(device, init, log, profile.addresses[items[i].id])
  }

  lemma PlanAsks(profile: Profile, items: seq<Item>, device: Device, init: nat -> u16, log: seq<Access>)
    requires AllPlannable(profile, items)
    ensures var planned := PlanAll(profile, items);
            && (forall i :: 0 <= i < |items| ==>
                  && WritesOf(planned)[i] == Asked(profile, items[i]) && planned[i].definition.id == items[i].id
                  && planned[i].expectedRaw == items[i].expectedRaw && planned[i].newRaw == Raw(profile, items[i]))
            && (Fresh(device, init, log, planned) <==> AsExpected(device, init, log, profile, items))
  {
    hide Held;
    var planned := PlanAll(profile, items);
    forall i | 0 <= i < |items|
      ensures planned[i].definition.address == profile.addresses[items[i].id]
      ensures planned[i].expectedRaw == items[i].expectedRaw
    {}
  }

  // ---- running ----

  predicate DistinctIds(planned: seq<Planned>) {
    forall i, j :: 0 <= i < j < |planned| ==> planned[i].definition.id != planned[j].definition.id
  }

  /** Every register of the plan holds what the user saw. */
  ghost predicate Fresh(device: Device, init: nat -> u16, log: seq<Access>, planned: seq<Planned>) {
    forall i :: 0 <= i < |planned| ==> planned[i].expectedRaw == Held(device, init, log, planned[i].definition.address)
  }

  /** preflight_planned_writes: only reads; it passes exactly when all registers still hold what the
      user saw, or fails because a read failed. */
  method Preflight(session: Session, planned: seq<Planned>, ghost init: nat -> u16) returns (ok: bool)
    requires session.Valid() && DistinctIds(planned)
    modifies session
    ensures session.Valid() && OnlyReads(old(session.log), session.log)
    ensures Stores(session.device, init) && ok ==> Fresh(session.device, init, old(session.log), planned)
    ensures Stores(session.device, init) && Reliable(session.device) && !ok ==>
              !Fresh(session.device, init, old(session.log), planned)
  {
    hide Pointwise, Sorted, Held, Stores, Reliable;
    var defs := Definitions(planned);
    var values := ReadDefinitions(session, defs, init);
    if values.Err? { return false; }
    for k := 0 to |planned|
      invariant forall i :: 0 <= i < k ==>
                  ParameterValue(planned[i].definition.id, planned[i].expectedRaw) in values.value
    {
      // the value found under the parameter's id, compared with the expected one
      if ParameterValue(planned[k].definition.id, planned[k].expectedRaw) !in values.value {
        if Stores(session.device, init) {
          FoundPointwise(session.device, init, old(session.log), planned, k);
        }
        return false;
      }
    }
    if Stores(session.device, init) {
      forall i | 0 <= i < |planned|
        ensures planned[i].expectedRaw == Held(session.device, init, old(session.log), planned[i].definition.address)
      {
        FoundPointwise(session.device, init, old(session.log), planned, i);
      }
    }
    return true;
  }

  function Definitions(planned: seq<Planned>): (defs: seq<Definition>)
    ensures |defs| == |planned|
  {
    seq(|planned|, i requires 0 <= i < |planned| => planned[i].definition)
  }

  /** With distinct parameters, the expected value is among the values read exactly when the
      parameter's own register holds it. */
  lemma FoundPointwise(device: Device, init: nat -> u16, log: seq<Access>, planned: seq<Planned>, i: nat)
    requires i < |planned| && DistinctIds(planned)
    ensures ParameterValue(planned[i].definition.id, planned[i].expectedRaw)
              in Pointwise(device, init, log, Sorted(Definitions(planned)))
            <==> planned[i].expectedRaw == Held(device, init, log, planned[i].definition.address)
  {
    hide Sorted, Held;
    var defs := Definitions(planned);
    var sorted := Sorted(defs);
    var values := Pointwise(device, init, log, sorted);
    var wanted := ParameterValue(planned[i].definition.id, planned[i].expectedRaw);
    if wanted in values {
      var k :| 0 <= k < |values| && values[k] == wanted;
      assert sorted[k] in multiset(sorted) && sorted[k] in multiset(defs);
      var j :| 0 <= j < |defs| && defs[j] == sorted[k];
      assert planned[j].definition.id == planned[i].definition.id;
    }
    assert defs[i] in multiset(defs) && defs[i] in multiset(sorted);
    var k :| 0 <= k < |sorted| && sorted[k] == defs[i];
    assert values[k] == ParameterValue(defs[i].id, Held(device, init, log, defs[i].address));
  }

  /** The line never fails, and the device accepts every write. */
  ghost predicate Accepting(device: Device, init: nat -> u16) {
    Stores(device, init) && Reliable(device) && forall log, a: Access :: a.WriteReg? ==> device(log, a).Done?
  }

  /** write_planned_parameter: one write, then a read back that must give the written value. */
  method WritePlanned(session: Session, p: Planned, ghost init: nat -> u16) returns (r: Option<Written>)
    requires session.Valid()
    modifies session
    ensures session.Valid() && |old(session.log)| < |session.log| && old(session.log) <= session.log
    ensures session.log[|old(session.log)|] == WriteOf(p)
    ensures OnlyReads(old(session.log) + [WriteOf(p)], session.log)
    ensures r.Some? ==> session.device(old(session.log), WriteOf(p)).Done?
    ensures r.Some? ==> r.value == Written(p.definition.id, p.expectedRaw, p.newRaw, p.newRaw)
    ensures r.Some? && Stores(session.device, init) ==>
              Held(session.device, init, session.log, p.definition.address) == p.newRaw
    ensures Accepting(session.device, init) ==> r.Some?
  {
    var reply := session.device(session.log, WriteOf(p));
    session.log := session.log + [WriteOf(p)];
    if !reply.Done? { return None; }
    ghost var written := session.log;
    var readBack := session.ReadHoldingRegisters(p.definition.address, 1, init);
    if Accepting(session.device, init) {
      WrittenHeld(session.device, init, written, p);
    }
    if readBack.Err? || readBack.value[0] != p.newRaw { return None; }
    if Stores(session.device, init) {
      ReadsKeepHeld(session.device, init, written, session.log, p.definition.address);
    }
    return Some(Written(p.definition.id, p.expectedRaw, p.newRaw, readBack.value[0]));
  }

  /** An accepted write is what the register holds. */
  lemma WrittenHeld(device: Device, init: nat -> u16, written: seq<Access>, p: Planned)
    requires written != [] && written[|written| - 1] == WriteOf(p)
    requires device(written[..|written| - 1], WriteOf(p)).Done?
    ensures Held(device, init, written, p.definition.address) == p.newRaw
  {}

  /** The accesses since `before` contain exactly the first n writes of the plan, in order; the i-th
      one is at position at[i] and was accepted unless it is the last one of an unfinished run. */
  ghost predicate WrittenUpTo(before: seq<Access>, log: seq<Access>, planned: seq<Planned>, n: nat, at: seq<nat>) {
    && n <= |planned| && before <= log && |at| == n
    && Writes(log[|before|..]) == WritesOf(planned)[..n]
    && forall i :: 0 <= i < n ==> |before| <= at[i] < |log| && log[at[i]] == WriteOf(planned[i])
  }

  /** Every completed write found the register holding what is reported as its previous value. */
  ghost predicate PreviousHeld(device: Device, init: nat -> u16, log: seq<Access>, planned: seq<Planned>, n: nat,
                               at: seq<nat>)
    requires n <= |planned| && n <= |at| && forall i :: 0 <= i < n ==> at[i] < |log|
  {
    forall i :: 0 <= i < n ==>
      Held(device, init, log[..at[i]], planned[i].definition.address) == planned[i].expectedRaw
  }

  /** Every completed write was accepted, and its read back gave the written value. */
  ghost predicate Confirmed(device: Device, log: seq<Access>, planned: seq<Planned>, completed: seq<Written>,
                            at: seq<nat>) {
    && |completed| <= |planned| && |completed| <= |at|
    && forall i :: 0 <= i < |completed| ==> ConfirmedAt(device, log, planned[i], completed[i], at[i])
  }

  predicate ConfirmedAt(device: Device, log: seq<Access>, p: Planned, w: Written, at: nat) {
    && at < |log| && device(log[..at], WriteOf(p)).Done?
    && w == Written(p.definition.id, p.expectedRaw, p.newRaw, p.newRaw)
  }

  predicate DistinctAddresses(planned: seq<Planned>) {
    forall i, j :: 0 <= i < j < |planned| ==> planned[i].definition.address != planned[j].definition.address
  }

  /** Registers of the rest of the plan are untouched by the n-th write and the reads behind it. */
  lemma RestFresh(device: Device, init: nat -> u16, before: seq<Access>, after: seq<Access>, planned: seq<Planned>,
                  n: nat)
    requires n < |planned| && DistinctAddresses(planned)
    requires OnlyReads(before + [WriteOf(planned[n])], after)
    requires forall i :: n <= i < |planned| ==>
               planned[i].expectedRaw == Held(device, init, before, planned[i].definition.address)
    ensures forall i :: n < i < |planned| ==>
              planned[i].expectedRaw == Held(device, init, after, planned[i].definition.address)
  {
    var written := before + [WriteOf(planned[n])];
    assert written[..|written| - 1] == before;
    forall i | n < i < |planned|
      ensures planned[i].expectedRaw == Held(device, init, after, planned[i].definition.address)
    {
      ReadsKeepHeld(device, init, written, after, planned[i].definition.address);
    }
  }

  lemma OneWrite(w: seq<Access>)
    requires |w| == 1 && w[0].WriteReg?
    ensures Writes(w) == w
  {
    assert w[..0] == [];
  }

  lemma OnlyReadsGrow(before: seq<Access>, after: seq<Access>)
    requires OnlyReads(before, after)
    ensures before <= after
  {}

  /** One more write of the plan, and reads behind it. */
  lemma OneMoreWrite(start: seq<Access>, before: seq<Access>, after: seq<Access>, planned: seq<Planned>, n: nat,
                     at: seq<nat>)
    requires n < |planned| && WrittenUpTo(start, before, planned, n, at)
    requires OnlyReads(before + [WriteOf(planned[n])], after)
    ensures WrittenUpTo(start, after, planned, n + 1, at + [|before|])
  {
    hide Writes, OnlyReads;
    var w := [WriteOf(planned[n])];
    OneWrite(w);
    OnlyReadsGrow(before + w, after);
    var tail := after[|before| + 1..];
    assert after == before + w + tail;
    assert after[|start|..] == before[|start|..] + (w + tail);
    WritesConcat(before[|start|..], w + tail);
    WritesConcat(w, tail);
    NoWrites(before + w, after);
    assert WritesOf(planned)[..n + 1] == WritesOf(planned)[..n] + w;
  }

  /** The write loop of batch_write_parameters. */
  method RunPlan(session: Session, planned: seq<Planned>, ghost init: nat -> u16)
    returns (completed: seq<Written>, failed: Option<nat>, ghost at: seq<nat>)
    requires session.Valid()
    modifies session
    ensures session.Valid() && |completed| <= |planned|
    ensures failed == if |completed| == |planned| then None else Some(planned[|completed|].definition.id)
    ensures WrittenUpTo(old(session.log), session.log, planned, |completed| + (if failed.Some? then 1 else 0), at)
    ensures Confirmed(session.device, session.log, planned, completed, at)
    ensures Stores(session.device, init) && DistinctAddresses(planned)
              && Fresh(session.device, init, old(session.log), planned) ==>
              PreviousHeld(session.device, init, session.log, planned, |completed|, at)
    ensures Accepting(session.device, init) ==> failed == None
  {
    hide Held, Stores, Writes, WritesOf, OnlyReads, Accepting;
    completed, at := [], [];
    ghost var start := session.log;
    ghost var unseen := Fresh(session.device, init, start, planned);
    ghost var good := Stores(session.device, init) && DistinctAddresses(planned) && unseen;
    NothingWritten(start, planned);
    for k := 0 to |planned|
      invariant session.Valid() && |completed| == k && WrittenUpTo(start, session.log, planned, k, at)
      invariant Confirmed(session.device, session.log, planned, completed, at)
      invariant good ==> PreviousHeld(session.device, init, session.log, planned, k, at)
      invariant good ==> forall i :: k <= i < |planned| ==>
                  planned[i].expectedRaw == Held(session.device, init, session.log, planned[i].definition.address)
    {
      ghost var before := session.log;
      var result := WritePlanned(session, planned[k], init);
      OneMoreWrite(start, before, session.log, planned, k, at);
      forall i | 0 <= i < k ensures session.log[..at[i]] == before[..at[i]] {}
      assert session.log[..|before|] == before;
      if good {
        RestFresh(session.device, init, before, session.log, planned, k);
      }
      at := at + [|before|];
      match result {
        case None => return completed, Some(planned[k].definition.id), at;
        case Some(w) => completed := completed + [w];
      }
    }
    return completed, None, at;
  }

  lemma NothingWritten(log: seq<Access>, planned: seq<Planned>)
    ensures WrittenUpTo(log, log, planned, 0, [])
  {}

  /** batch_write_parameters. A batch that is refused or whose preflight fails writes nothing.
      Otherwise the writes issued are a prefix of the request in order, and the completed list is the
      part of it that was accepted and read back. On a device that stores what it is told, each
      reported previous value is what the register held just before its write; on one that accepts
      every write, a batch made from fresh values completes. */
  method BatchWriteParameters(session: Session, connected: bool, phraseOk: bool, profile: Profile, items: seq<Item>,
                              ghost init: nat -> u16)
    returns (report: Report, ghost planned: seq<Planned>, ghost at: seq<nat>)
    requires session.Valid()
    modifies session
    ensures session.Valid() && old(session.log) <= session.log
    ensures report.Rejected? ==> Writes(session.log[|old(session.log)|..]) == []
    ensures report.Ran? ==>
              && connected && phraseOk && 1 <= |items| <= 500 && Distinct(items) && AllPlannable(profile, items)
              && planned == PlanAll(profile, items)
    ensures report.Ran? ==>
              && Reports(profile, items, report.completed)
              && WritesAsked(profile, items, old(session.log), session.log,
                             |report.completed| + (if report.failedId.Some? then 1 else 0))
              && (report.failedId.Some? ==>
                    |report.completed| < |items| && report.failedId.value == items[|report.completed|].id)
    ensures report.Ran? ==>
              && |report.completed| <= |planned|
              && report.failedId == (if |report.completed| == |planned| then None
                                     else Some(planned[|report.completed|].definition.id))
              && WrittenUpTo(old(session.log), session.log, planned,
                             |report.completed| + (if report.failedId.Some? then 1 else 0), at)
    ensures report.Ran? ==> Confirmed(session.device, session.log, planned, report.completed, at)
    ensures report.Ran? && Stores(session.device, init) && DistinctAddresses(planned) ==>
              PreviousHeld(session.device, init, session.log, planned, |report.completed|, at)
    ensures (&& Stores(session.device, init) && Reliable(session.device)
             && connected && phraseOk && 1 <= |items| <= 500 && Distinct(items) && AllPlannable(profile, items)
             && AsExpected(session.device, init, old(session.log), profile, items)) ==>
              report.Ran? && (Accepting(session.device, init) ==> report.failedId == None)
  {
    hide Held, Stores, Reliable, Writes, WritesOf, OnlyReads, Accepting;
    report, planned, at := Rejected, [], [];
    ghost var start := session.log;
    NothingWritten(start, []);
    NoDelta(start);
    if |items| == 0 || |items| > 500 || !phraseOk { return; }
    var plan := Plan(profile, items);
    if plan.None? || !connected { return; }
    planned := plan.value;
    PlanAsks(profile, items, session.device, init, start);
    var ok := Preflight(session, plan.value, init);
    NoWrites(start, session.log);
    PrefixOf(start, session.log);
    if !ok { return; }
    ghost var ready := session.log;
    if Stores(session.device, init) {
      FreshLater(session.device, init, start, ready, planned);
    }
    var completed, failed;
    completed, failed, at := RunPlan(session, plan.value, init);
    LaterStart(start, ready, session.log, planned, |at|, at);
    report := Ran(completed, failed);
  }

  lemma NoDelta(log: seq<Access>)
    ensures Writes(log[|log|..]) == []
  {}

  lemma PrefixOf(before: seq<Access>, after: seq<Access>)
    requires OnlyReads(before, after)
    ensures before <= after
  {}

  lemma FreshLater(device: Device, init: nat -> u16, before: seq<Access>, after: seq<Access>, planned: seq<Planned>)
    requires OnlyReads(before, after)
    ensures Fresh(device, init, before, planned) ==> Fresh(device, init, after, planned)
  {
    forall i | 0 <= i < |planned|
      ensures Held(device, init, after, planned[i].definition.address)
           == Held(device, init, before, planned[i].definition.address)
    {
      ReadsKeepHeld(device, init, before, after, planned[i].definition.address);
    }
  }

  /** The preflight's reads do not change which writes were issued. */
  lemma LaterStart(start: seq<Access>, ready: seq<Access>, log: seq<Access>, planned: seq<Planned>, n: nat,
                   at: seq<nat>)
    requires OnlyReads(start, ready) && WrittenUpTo(ready, log, planned, n, at)
    ensures WrittenUpTo(start, log, planned, n, at)
  {
    assert log[|start|..] == ready[|start|..] + log[|ready|..];
    WritesConcat(ready[|start|..], log[|ready|..]);
    NoWrites(start, ready);
  }
}
