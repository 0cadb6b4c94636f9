/** What the offline decoder makes of a list of records: when it refuses it, how long the exchange took, and what
    its end says (src/modbus_decode.rs). */
module ModbusRecords {
  import opened ModbusDecode

  /** Records of one Modbus exchange: one key, a transaction number, a Modbus protocol. */
  predicate OneExchange(records: seq<Record>) {
    && records != [] && records[0].transaction != 0
    && (records[0].protocol == Rtu || records[0].protocol == Ascii)
    && forall k :: 0 <= k < |records| ==> SameAs(records[0], records[k])
  }

  predicate SameAs(a: Record, b: Record) {
    a.transaction == b.transaction && a.source == b.source && a.protocol == b.protocol
  }

  /** The bytes of one direction, record by record. */
  function Carried(records: seq<Record>, d: Direction): nat {
    if records == [] then 0
    else
      var r := records[|records| - 1];
      Carried(records[..|records| - 1], d) + if r.direction == d then |r.bytes| else 0
  }

  lemma {:induction false} CarriedIs(records: seq<Record>)
    ensures |TxBytes(records)| == Carried(records, Tx) && |RxBytes(records)| == Carried(records, Rx)
  {
    if records != [] {
      CarriedIs(records[..|records| - 1]);
    }
  }

  lemma KeysAre(records: seq<Record>)
    requires records != []
    ensures SameKey(records) <==> forall k :: 0 <= k < |records| ==> SameAs(records[0], records[k])
  {
    if SameKey(records) {
      forall k | 0 <= k < |records| ensures SameAs(records[0], records[k]) {
        assert records[k] in records;
      }
    } else {
      var r :| r in records && !SameAs(records[0], r);
      var k :| 0 <= k < |records| && records[k] == r;
    }
  }

  /** A list is decoded exactly if it is one exchange with at most 513 bytes each way. */
  lemma DecodedIff(records: seq<Record>)
    ensures Decode(records).Ok? <==> OneExchange(records) && Carried(records, Tx) <= 513 && Carried(records, Rx) <= 513
    ensures Decode(records) == Err(NoRecords) <==> records == []
    ensures Decode(records) == Err(TooLong) <==>
            OneExchange(records) && (Carried(records, Tx) > 513 || Carried(records, Rx) > 513)
  {
    hide SameKey, SameAs, DecodeFrame, Classify, TxBytes, RxBytes, Started, LastSeen, Failed, Ended;
    if records != [] {
      KeysAre(records);
      CarriedIs(records);
    }
  }

  /** A record that ends the exchange. */
  predicate Ending(r: Record) {
    r.direction == Event && r.detail.Finished?
  }

  /** The decoded exchange names its records, has ended if one of them says so, and failed if one says that. */
  lemma OutcomeMeans(records: seq<Record>)
    requires Decode(records).Ok?
    ensures var t := Decode(records).value;
            && t.source == records[0].source && t.protocol == records[0].protocol
            && t.transaction == records[0].transaction
            && (t.outcome.ended <==> exists k :: 0 <= k < |records| && Ending(records[k]))
            && (t.outcome.failed <==> exists k :: 0 <= k < |records| && Ending(records[k]) && records[k].detail.failed)
  {
    hide SameKey, DecodeFrame, Classify, TxBytes, RxBytes, Started, LastSeen;
    assert forall k :: 0 <= k < |records| ==> records[k] in records;
  }

  predicate Sends(r: Record) {
    r.direction == Tx && r.bytes != []
  }

  predicate Hears(r: Record) {
    r.direction == Rx || Ending(r)
  }

  predicate FirstSent(records: seq<Record>, i: int) {
    0 <= i < |records| && Sends(records[i]) && forall j :: 0 <= j < i ==> !Sends(records[j])
  }

  predicate LastHeard(records: seq<Record>, i: int) {
    0 <= i < |records| && Hears(records[i]) && forall j :: i < j < |records| ==> !Hears(records[j])
  }

  lemma {:induction false} StartedAt(records: seq<Record>, i: int)
    requires if i < 0 then forall j :: 0 <= j < |records| ==> !Sends(records[j]) else FirstSent(records, i)
    ensures Started(records) == if i < 0 then None else Some(records[i].elapsed)
  {
    if records != [] {
      var before, n := records[..|records| - 1], |records| - 1;
      assert forall j :: 0 <= j < n ==> before[j] == records[j];
      StartedAt(before, if i == n then -1 else i);
    }
  }

  lemma {:induction false} LastSeenAt(records: seq<Record>, i: int)
    requires if i < 0 then forall j :: 0 <= j < |records| ==> !Hears(records[j]) else LastHeard(records, i)
    ensures LastSeen(records) == if i < 0 then None else Some(records[i].elapsed)
  {
    if records != [] && i != |records| - 1 {
      var before, n := records[..|records| - 1], |records| - 1;
      assert forall j :: 0 <= j < n ==> before[j] == records[j];
      assert !Hears(records[n]);
      LastSeenAt(before, i);
    }
  }

  /** The duration is the time from the first record with sent bytes to the last one received or ending the exchange;
      there is none without both, or if time ran backwards. A negative place stands for no such record. */
  lemma DurationMeans(records: seq<Record>, first: int, last: int)
    requires Decode(records).Ok?
    requires if first < 0 then forall j :: 0 <= j < |records| ==> !Sends(records[j]) else FirstSent(records, first)
    requires if last < 0 then forall j :: 0 <= j < |records| ==> !Hears(records[j]) else LastHeard(records, last)
    ensures Decode(records).value.duration ==
            if first < 0 || last < 0 || records[last].elapsed < records[first].elapsed then None
            else Some(records[last].elapsed - records[first].elapsed)
  {
    hide SameKey, DecodeFrame, Classify, TxBytes, RxBytes, Started, LastSeen, Sends, Hears, FirstSent, LastHeard;
    StartedAt(records, first);
    LastSeenAt(records, last);
  }
}
