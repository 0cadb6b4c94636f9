/** Register access through a session (src/modbus.rs, src/runtime.rs): retried transactions,
    chunked reads, and grouped reading of parameter definitions. */
module RegisterReads {
  import opened Bytes

  /** One physical request. */
  datatype Access = ReadRegs(address: nat, count: nat) | WriteReg(address: nat, value: u16)

  datatype Reply = Values(values: seq<u16>) | Done | Retryable | Fatal

  /** Any device and line: the reply may depend on everything that was asked before. */
  type Device = (seq<Access>, Access) -> Reply

  /** A read that went well: the client has checked that there is one value per register. */
  predicate ReadOk(device: Device, log: seq<Access>, address: nat, count: nat) {
    var r := device(log, ReadRegs(address, count));
    r.Values? && |r.values| == count
  }

  /** What the registers hold after the accesses so far, on a device that stores what it is told. */
  ghost function Held(device: Device, init: nat -> u16, log: seq<Access>, address: nat): u16 {
    if log == [] then init(address)
    else
      var before, last := log[..|log| - 1], log[|log| - 1];
      if last.WriteReg? && last.address == address && device(before, last).Done? then last.value
      else Held(device, init, before, address)
  }

  /** The device answers every successful allowed read with what its registers hold. */
  ghost predicate Stores(device: Device, init: nat -> u16) {
    forall log, address: nat, count: nat :: ReadOk(device, log, address, count) && address + count <= 0x1_0000 ==>
      Gives(device, init, log, address, device(log, ReadRegs(address, count)).values)
  }

  /** The line never fails an allowed read. */
  ghost predicate Reliable(device: Device) {
    forall log, address: nat, count: nat :: 1 <= count <= 100 && address + count <= 0x1_0000 ==>
      ReadOk(device, log, address, count)
  }

  /** `values` is what consecutive registers hold. */
  ghost predicate Gives(device: Device, init: nat -> u16, log: seq<Access>, address: nat, values: seq<u16>) {
    forall i :: 0 <= i < |values| ==> values[i] == Held(device, init, log, address + i)
  }

  /** A physical read the protocol allows: 1 to 100 registers inside the address space. */
  predicate Bounded(a: Access) {
    a.ReadRegs? ==> 1 <= a.count <= 100 && a.address + a.count <= 0x1_0000
  }

  /** `after` adds only reads to `before`. */
  predicate Reads(before: seq<Access>, after: seq<Access>) {
    && before <= after
    && forall k :: |before| <= k < |after| ==> after[k].ReadRegs?
  }

  /** `after` adds only allowed reads to `before`. */
  predicate OnlyReads(before: seq<Access>, after: seq<Access>) {
    && Reads(before, after)
    && forall k :: |before| <= k < |after| ==> Bounded(after[k])
  }

  lemma {:induction false} ReadsKeepHeld(device: Device, init: nat -> u16, before: seq<Access>, after: seq<Access>,
                                         address: nat)
    requires Reads(before, after)
    ensures Held(device, init, after, address) == Held(device, init, before, address)
    decreases |after|
  {
    if |before| < |after| {
      assert after[|after| - 1].ReadRegs?;
      assert Reads(before, after[..|after| - 1]);
      ReadsKeepHeld(device, init, before, after[..|after| - 1], address);
    } else {
      assert after == before;
    }
  }

  /** A read that succeeds after nothing but reads gives the contents at the start. */
  lemma GivesEarlier(device: Device, init: nat -> u16, before: seq<Access>, after: seq<Access>, address: nat,
                     values: seq<u16>)
    requires Reads(before, after) && Gives(device, init, after, address, values)
    ensures Gives(device, init, before, address, values)
  {
    forall i | 0 <= i < |values| ensures values[i] == Held(device, init, before, address + i) {
      ReadsKeepHeld(device, init, before, after, address + i);
    }
  }

  lemma GivesNone(device: Device, init: nat -> u16, log: seq<Access>, address: nat)
    ensures Gives(device, init, log, address, [])
  {}

  lemma NoChunks(log: seq<Access>, address: nat, count: nat, most: nat)
    ensures InChunks(log, |log|, address, count, most) && Covers(log, |log|, address, 0)
  {}

  lemma GivesConcat(device: Device, init: nat -> u16, log: seq<Access>, address: nat, a: seq<u16>, b: seq<u16>)
    requires Gives(device, init, log, address, a) && Gives(device, init, log, address + |a|, b)
    ensures Gives(device, init, log, address, a + b)
  {
    forall i | 0 <= i < |a + b| ensures (a + b)[i] == Held(device, init, log, address + i) {
      if i >= |a| {
        assert address + |a| + (i - |a|) == address + i;
        assert b[i - |a|] == Held(device, init, log, address + |a| + (i - |a|));
      }
    }
  }

  datatype Result<+T> = Ok(value: T) | Err

  datatype Stats = Stats(transactions: nat, firstSuccesses: nat, recovered: nat, failed: nat, retries: nat) {
    /** Every transaction ends exactly one way. */
    predicate Conserved() {
      transactions == firstSuccesses + recovered + failed
    }
  }

  /** read_once: refused without a request unless it asks for 1 to 100 registers; the client has
      checked that an answer has one value per register. */
  function Once(device: Device, log: seq<Access>, address: nat, count: nat): (Reply, seq<Access>) {
    if !(1 <= count <= 100) then (Fatal, log)
    else
      var r := device(log, ReadRegs(address, count));
      (if r.Values? && |r.values| != count then Fatal else r, log + [ReadRegs(address, count)])
  }

  /** The retries: the result, and what was asked. */
  function Attempts(device: Device, log: seq<Access>, address: nat, count: nat, left: nat)
    : (Result<seq<u16>>, seq<Access>)
    decreases left
  {
    var (reply, after) := Once(device, log, address, count);
    if reply.Values? then (Ok(reply.values), after)
    else if left > 0 && reply.Retryable? then Attempts(device, after, address, count, left - 1)
    else (Err, after)
  }

  /** One of the chunks of a read: full unless it is the last. */
  predicate IsChunk(a: Access, address: nat, count: nat, most: nat) {
    && a.ReadRegs? && address <= a.address < address + count
    && a.count == if address + count - a.address < most then address + count - a.address else most
  }

  /** Each read repeats the one before it or goes on behind it. */
  predicate GoesOn(a: Access, b: Access) {
    a == b || (a.ReadRegs? && b.ReadRegs? && b.address == a.address + a.count)
  }

  /** From some place on, nothing but the chunks of one read, the first one first. */
  predicate InChunks(log: seq<Access>, from: nat, address: nat, count: nat, most: nat) {
    && (forall k :: from <= k < |log| ==> IsChunk(log[k], address, count, most))
    && (|log| > from ==> log[from].ReadRegs? && log[from].address == address)
    && forall k :: from < k < |log| ==> GoesOn(log[k - 1], log[k])
  }

  /** The registers asked for so far. */
  predicate Covers(log: seq<Access>, from: nat, address: nat, offset: nat) {
    if |log| <= from then offset == 0
    else log[|log| - 1].ReadRegs? && log[|log| - 1].address + log[|log| - 1].count == address + offset
  }

  lemma NextChunk(before: seq<Access>, after: seq<Access>, from: nat, address: nat, count: nat, most: nat, offset: nat,
                  size: nat)
    requires InChunks(before, from, address, count, most) && Covers(before, from, address, offset)
    requires from <= |before| && Reads(before, after) && offset < count && most > 0
    requires size == if count - offset < most then count - offset else most
    requires forall k :: |before| <= k < |after| ==> after[k] == ReadRegs(address + offset, size)
    ensures InChunks(after, from, address, count, most)
    ensures |after| > |before| ==> Covers(after, from, address, offset + size)
  {
    forall k | from < k < |after| ensures GoesOn(after[k - 1], after[k]) {
      if k < |before| {
        assert after[k - 1] == before[k - 1] && after[k] == before[k] && GoesOn(before[k - 1], before[k]);
      } else if k == |before| {
        assert after[k - 1] == before[|before| - 1];
      }
    }
  }

  class Session {
    const device: Device
    const retries: nat
    const maxRegisters: nat
    var log: seq<Access>
    var stats: Stats

    constructor (device: Device, retries: nat, maxRegisters: nat)
      requires retries <= 3 && 1 <= maxRegisters <= 100
      ensures this.device == device && this.retries == retries && this.maxRegisters == maxRegisters
      ensures log == [] && stats == Stats(0, 0, 0, 0, 0)
    {
      this.device, this.retries, this.maxRegisters := device, retries, maxRegisters;
      log, stats := [], Stats(0, 0, 0, 0, 0);
    }

    ghost predicate Valid()
      reads this
    {
      retries <= 3 && 1 <= maxRegisters <= 100 && stats.Conserved()
    }

    /** read_transaction: one read, repeated at most `retries` times after a checksum error or timeout.
        A count the protocol does not allow fails before anything is sent. A success inside the address
        space gives the registers' contents; the statistics account for every call once. */
    method ReadTransaction(address: u16, count: u16, ghost init: nat -> u16) returns (r: Result<seq<u16>>)
      requires Valid()
      modifies this
      ensures Valid() && Reads(old(log), log)
      ensures (r, log) == Attempts(device, old(log), address, count, retries)
      ensures forall k :: |old(log)| <= k < |log| ==> log[k] == ReadRegs(address, count)
      ensures forall k :: |old(log)| <= k < |log| - 1 ==> device(log[..k], log[k]) == Retryable
      ensures 1 <= count <= 100 && r.Err? ==>
                && |log| > |old(log)|
                && (|log| == |old(log)| + retries + 1 || device(log[..|log| - 1], log[|log| - 1]) != Retryable)
      ensures 1 <= count <= 100 ==> 1 <= |log| - |old(log)| == 1 + stats.retries - old(stats.retries) <= 1 + retries
      ensures !(1 <= count <= 100) ==> r.Err? && log == old(log) && stats.retries == old(stats.retries)
      ensures stats.transactions == old(stats.transactions) + 1
      ensures stats.failed == old(stats.failed) + if r.Err? then 1 else 0
      ensures stats.firstSuccesses ==
              old(stats.firstSuccesses) + if r.Ok? && |log| == |old(log)| + 1 then 1 else 0
      ensures r.Ok? ==> |r.value| == count
      ensures Reliable(device) && 1 <= count <= 100 && address + count <= 0x1_0000 ==> r.Ok?
      ensures r.Ok? && Stores(device, init) && address + count <= 0x1_0000 ==>
                Gives(device, init, old(log), address, r.value)
    {
      stats := stats.(transactions := stats.transactions + 1);
      var attempt := 0;
      while attempt <= retries
        invariant 0 <= attempt <= retries && retries <= 3 && (attempt > 0 ==> 1 <= count <= 100)
        invariant stats == old(stats).(transactions := old(stats).transactions + 1,
                                       retries := old(stats).retries + attempt)
        invariant Reads(old(log), log) && |log| == |old(log)| + attempt
        invariant Attempts(device, old(log), address, count, retries)
                  == Attempts(device, log, address, count, retries - attempt)
        invariant forall k :: |old(log)| <= k < |log| ==> log[k] == ReadRegs(address, count)
        invariant forall k :: |old(log)| <= k < |log| ==> device(log[..k], log[k]) == Retryable
        decreases retries - attempt
      {
        ghost var before := log;
        var reply := ReadOnce(address, count);
        assert forall k :: 0 <= k <= |before| ==> log[..k] == before[..k];
        assert before[..|before|] == before;
        assert Reliable(device) && 1 <= count <= 100 && address + count <= 0x1_0000 ==>
          ReadOk(device, before, address, count);
        if reply.Values? {
          if attempt == 0 {
            stats := stats.(firstSuccesses := stats.firstSuccesses + 1);
          } else {
            stats := stats.(recovered := stats.recovered + 1);
          }
          if Stores(device, init) && address + count <= 0x1_0000 {
            assert ReadOk(device, before, address, count);
            GivesEarlier(device, init, old(log), before, address, reply.values);
          }
          return Ok(reply.values);
        }
        if attempt < retries && reply.Retryable? {
          stats := stats.(retries := stats.retries + 1);
        } else {
          stats := stats.(failed := stats.failed + 1);
          return Err;
        }
        attempt := attempt + 1;
      }
      assert false;
      return Err;
    }

    method ReadOnce(address: u16, count: u16) returns (reply: Reply)
      modifies this`log
      ensures (reply, log) == Once(device, old(log), address, count)
    {
      if count == 0 || count > 100 {
        return Fatal;
      }
      var access := ReadRegs(address, count);
      reply := device(log, access);
      log := log + [access];
      if reply.Values? && |reply.values| != count {
        reply := Fatal;
      }
    }

    /** read_holding_registers: refused unless 1 to 100 registers inside the address space, otherwise
        read in chunks; the result is what single-register reads would give. */
    method ReadHoldingRegisters(address: nat, count: nat, ghost init: nat -> u16) returns (r: Result<seq<u16>>)
      requires Valid()
      modifies this
      ensures Valid() && OnlyReads(old(log), log)
      ensures (count == 0 || count > 100 || address + count > 0x1_0000) ==> r.Err? && log == old(log)
      ensures r.Ok? ==> |r.value| == count
      ensures InChunks(log, |old(log)|, address, count, maxRegisters)
      ensures Reliable(device) && 1 <= count <= 100 && address + count <= 0x1_0000 ==> r.Ok?
      ensures r.Ok? && Stores(device, init) ==> Gives(device, init, old(log), address, r.value)
    {
      hide Stores, Reliable, Gives, Attempts, InChunks, Covers;
      NoChunks(log, address, count, maxRegisters);
      if count == 0 || count > 100 || address + (count - 1) > 0xFFFF { return Err; }
      var values: seq<u16> := [];
      var offset := 0;
      GivesNone(device, init, log, address);
      while offset < count
        invariant Valid() && OnlyReads(old(log), log) && 0 <= offset <= count && |values| == offset
        invariant Stores(device, init) ==> Gives(device, init, old(log), address, values)
        invariant InChunks(log, |old(log)|, address, count, maxRegisters) && Covers(log, |old(log)|, address, offset)
      {
        var size := if count - offset < maxRegisters then count - offset else maxRegisters;
        ghost var before := log;
        var chunk := ReadTransaction(address + offset, size, init);
        NextChunk(before, log, |old(log)|, address, count, maxRegisters, offset, size);
        if chunk.Err? { return Err; }
        if Stores(device, init) {
          GivesEarlier(device, init, old(log), before, address + offset, chunk.value);
          GivesConcat(device, init, old(log), address, values, chunk.value);
        }
        values := values + chunk.value;
        offset := offset + size;
      }
      return Ok(values);
    }
  }

  // ---- reading parameter definitions ----

  datatype Definition = Definition(id: nat, address: u16)

  datatype ParameterValue = ParameterValue(id: nat, raw: u16)

  predicate ByAddress(defs: seq<Definition>) {
    forall i, j :: 0 <= i < j < |defs| ==> defs[i].address <= defs[j].address
  }

  /** The definitions at one address, in order. */
  function OfAddress(defs: seq<Definition>, address: u16): seq<Definition> {
    if defs == [] then [] else OfAddress(defs[..|defs| - 1], address) + IfAt(defs[|defs| - 1], address)
  }

  function IfAt(d: Definition, address: u16): seq<Definition> {
    if d.address == address then [d] else []
  }

  lemma OfAddressSnoc(defs: seq<Definition>, d: Definition, address: u16)
    ensures OfAddress(defs + [d], address) == OfAddress(defs, address) + IfAt(d, address)
  {
    assert (defs + [d])[..|defs|] == defs;
  }

  /** sort_by_key: stable insertion behind equal addresses. */
  function Insert(d: Definition, defs: seq<Definition>): (s: seq<Definition>)
    requires ByAddress(defs)
    ensures ByAddress(s) && multiset(s) == multiset(defs) + multiset{d}
  {
    if defs == [] || defs[|defs| - 1].address <= d.address then
      SnocSorted(defs, d);
      defs + [d]
    else
      var before, last := defs[..|defs| - 1], defs[|defs| - 1];
      var s := Insert(d, before);
      InsertBelow(s, before, d, last, defs);
      SnocSorted(s, last);
      s + [last]
  }

  lemma SnocSorted(s: seq<Definition>, x: Definition)
    requires ByAddress(s) && forall i :: 0 <= i < |s| ==> s[i].address <= x.address
    ensures ByAddress(s + [x])
  {}

  lemma InsertBelow(s: seq<Definition>, before: seq<Definition>, d: Definition, last: Definition, defs: seq<Definition>)
    requires ByAddress(defs) && defs == before + [last] && d.address <= last.address
    requires multiset(s) == multiset(before) + multiset{d}
    ensures forall i :: 0 <= i < |s| ==> s[i].address <= last.address
  {
    forall i | 0 <= i < |s| ensures s[i].address <= last.address {
      assert s[i] in multiset(s);
      if s[i] != d {
        assert s[i] in multiset(before);
        var k :| 0 <= k < |before| && before[k] == s[i];
        assert defs[k] == s[i] && defs[|before|] == last;
      }
    }
  }

  lemma InsertIs(d: Definition, defs: seq<Definition>)
    requires ByAddress(defs)
    ensures Insert(d, defs) == if defs == [] || defs[|defs| - 1].address <= d.address then defs + [d]
                               else Insert(d, defs[..|defs| - 1]) + [defs[|defs| - 1]]
  {}

  lemma {:induction false} InsertStable(d: Definition, defs: seq<Definition>, address: u16)
    requires ByAddress(defs)
    ensures OfAddress(Insert(d, defs), address) == OfAddress(defs, address) + IfAt(d, address)
    decreases |defs|
  {
    hide Insert, OfAddress;
    InsertIs(d, defs);
    if defs == [] || defs[|defs| - 1].address <= d.address {
      OfAddressSnoc(defs, d, address);
    } else {
      var before, last := defs[..|defs| - 1], defs[|defs| - 1];
      assert defs == before + [last];
      InsertStable(d, before, address);
      OfAddressSnoc(Insert(d, before), last, address);
      OfAddressSnoc(before, last, address);
    }
  }

  lemma InsertsStable(d: Definition, defs: seq<Definition>)
    requires ByAddress(defs)
    ensures forall address: u16 :: OfAddress(Insert(d, defs), address) == OfAddress(defs, address) + IfAt(d, address)
  {
    forall address: u16
      ensures OfAddress(Insert(d, defs), address) == OfAddress(defs, address) + IfAt(d, address)
    {
      InsertStable(d, defs, address);
    }
  }

  /** The sort: the same definitions by address, and those of one address in their old order. */
  function Sorted(defs: seq<Definition>): (s: seq<Definition>)
    ensures ByAddress(s) && multiset(s) == multiset(defs) && |s| == |defs|
    ensures forall address: u16 :: OfAddress(s, address) == OfAddress(defs, address)
  {
    if defs == [] then []
    else
      assert defs == defs[..|defs| - 1] + [defs[|defs| - 1]];
      var s := Insert(defs[|defs| - 1], Sorted(defs[..|defs| - 1]));
      assert |s| == |multiset(s)| && |defs| == |multiset(defs)|;
      InsertsStable(defs[|defs| - 1], Sorted(defs[..|defs| - 1]));
      s
  }

  /** The pointwise meaning: each definition with what its own register holds. */
  ghost function Pointwise(device: Device, init: nat -> u16, log: seq<Access>,
                           defs: seq<Definition>): (v: seq<ParameterValue>)
    ensures |v| == |defs|
  {
    seq(|defs|, i requires 0 <= i < |defs| => ParameterValue(defs[i].id, Held(device, init, log, defs[i].address)))
  }

  /** A longest run of consecutive addresses that spans at most 100 registers. */
  predicate IsGroup(defs: seq<Definition>, start: nat, end: nat) {
    && start < end <= |defs|
    && (forall k :: start <= k < end ==> defs[k].address == defs[start].address + (k - start))
    && end - start <= 100
    && (end < |defs| ==> defs[end].address != defs[end - 1].address + 1 || end - start == 100)
  }

  /** A group starts with the first definition, and behind every group. */
  ghost predicate Starts(defs: seq<Definition>, c: nat) {
    c == 0 || exists b: nat :: b < c && Starts(defs, b) && IsGroup(defs, b, c)
  }

  ghost predicate GroupAt(defs: seq<Definition>, c: nat, e: nat) {
    Starts(defs, c) && IsGroup(defs, c, e)
  }

  /** A read of some chunk of some group. */
  ghost predicate OfGroup(a: Access, defs: seq<Definition>, most: nat) {
    exists c: nat, e: nat :: GroupAt(defs, c, e) && IsChunk(a, defs[c].address, e - c, most)
  }

  lemma GroupRead(before: seq<Access>, after: seq<Access>, from: nat, defs: seq<Definition>, c: nat, e: nat, most: nat)
    requires from <= |before| && before <= after && GroupAt(defs, c, e)
    requires InChunks(after, |before|, defs[c].address, e - c, most)
    requires forall k :: from <= k < |before| ==> OfGroup(before[k], defs, most)
    ensures forall k :: from <= k < |after| ==> OfGroup(after[k], defs, most)
    ensures e <= |defs| && Starts(defs, e)
  {
    hide IsChunk;
    forall k | from <= k < |after| ensures OfGroup(after[k], defs, most) {
      if k < |before| {
        assert after[k] == before[k];
      } else {
        assert IsChunk(after[k], defs[c].address, e - c, most);
      }
    }
  }

  /** The end of the longest group of consecutive addresses, at most 100, that starts at `cursor`. */
  method GroupEnd(defs: seq<Definition>, cursor: nat) returns (end: nat)
    requires cursor < |defs|
    ensures cursor < end <= |defs|
    ensures forall k :: cursor <= k < end ==> defs[k].address == defs[cursor].address + (k - cursor)
    ensures defs[end - 1].address - defs[cursor].address < 100
    ensures end < |defs| ==>
              defs[end].address != defs[end - 1].address + 1 || defs[end].address - defs[cursor].address >= 100
    ensures IsGroup(defs, cursor, end)
  {
    var start := defs[cursor].address;
    end := cursor + 1;
    while end < |defs| && defs[end].address == defs[end - 1].address + 1 && defs[end].address - start < 100
      invariant cursor < end <= |defs|
      invariant forall k :: cursor <= k < end ==> defs[k].address == start + (k - cursor)
      invariant defs[end - 1].address - start < 100
    {
      end := end + 1;
    }
  }

  /** read_parameter_definitions: sort, group consecutive addresses, read each group. Whatever the
      grouping and chunking, every definition comes back exactly once, with its own register. */
  method ReadDefinitions(session: Session, definitions: seq<Definition>, ghost init: nat -> u16)
    returns (r: Result<seq<ParameterValue>>)
    requires session.Valid()
    modifies session
    ensures session.Valid() && OnlyReads(old(session.log), session.log)
    ensures forall k :: |old(session.log)| <= k < |session.log| ==>
              OfGroup(session.log[k], Sorted(definitions), session.maxRegisters)
    ensures r.Ok? ==> |r.value| == |definitions|
    ensures Reliable(session.device) ==> r.Ok?
    ensures r.Ok? && Stores(session.device, init) ==>
              r.value == Pointwise(session.device, init, old(session.log), Sorted(definitions))
  {
    hide Stores, Reliable, Gives, Sorted, OfGroup, Starts, IsGroup, InChunks;
    var defs := Sorted(definitions);
    var values: seq<ParameterValue> := [];
    var cursor := 0;
    assert Starts(defs, 0) by { FirstStarts(defs); }
    while cursor < |defs|
      invariant cursor <= |defs| && Starts(defs, cursor)
      invariant forall k :: |old(session.log)| <= k < |session.log| ==>
                  OfGroup(session.log[k], defs, session.maxRegisters)
      invariant session.Valid() && OnlyReads(old(session.log), session.log)
      invariant 0 <= cursor <= |defs| && |values| == cursor
      invariant Stores(session.device, init) ==>
                  values == Pointwise(session.device, init, old(session.log), defs[..cursor])
    {
      var start := defs[cursor].address;
      var end := GroupEnd(defs, cursor);
      ghost var before := session.log;
      var registers := session.ReadHoldingRegisters(start, defs[end - 1].address - start + 1, init);
      GroupRead(before, session.log, |old(session.log)|, defs, cursor, end, session.maxRegisters);
      if registers.Err? { return Err; }
      if Stores(session.device, init) {
        GivesEarlier(session.device, init, old(session.log), before, start, registers.value);
      }
      ghost var done := values;
      for k := cursor to end
        invariant |values| == k && values[..cursor] == done
        invariant forall j :: cursor <= j < k ==>
                    values[j] == ParameterValue(defs[j].id, registers.value[defs[j].address - start])
      {
        values := values + [ParameterValue(defs[k].id, registers.value[defs[k].address - start])];
      }
      if Stores(session.device, init) {
        PointwiseGroup(session.device, init, old(session.log), defs, cursor, end, values, registers.value);
      }
      cursor := end;
    }
    assert defs[..|defs|] == defs;
    return Ok(values);
  }

  lemma FirstStarts(defs: seq<Definition>)
    ensures Starts(defs, 0)
  {}

  lemma PointwiseGroup(device: Device, init: nat -> u16, log: seq<Access>, defs: seq<Definition>, cursor: nat, end: nat,
                       values: seq<ParameterValue>, registers: seq<u16>)
    requires cursor < end <= |defs| && |values| == end && |registers| == end - cursor
    requires values[..cursor] == Pointwise(device, init, log, defs[..cursor])
    requires Gives(device, init, log, defs[cursor].address, registers)
    requires forall k :: cursor <= k < end ==> defs[k].address == defs[cursor].address + (k - cursor)
    requires forall j :: cursor <= j < end ==>
               values[j] == ParameterValue(defs[j].id, registers[defs[j].address - defs[cursor].address])
    ensures values == Pointwise(device, init, log, defs[..end])
  {
    var all := Pointwise(device, init, log, defs[..end]);
    forall j | 0 <= j < end ensures values[j] == all[j] {
      if j < cursor {
        assert values[..cursor][j] == values[j];
      } else {
        assert registers[j - cursor] == Held(device, init, log, defs[cursor].address + (j - cursor));
      }
    }
  }
}
