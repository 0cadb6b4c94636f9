/** Offline decoding of a recorded Modbus transaction (src/modbus_decode.rs). */
module ModbusDecode {
  import ModbusCrc
  import ModbusAscii

  datatype Option<+T> = None | Some(value: T)

  datatype Protocol = Rtu | Ascii | NotModbus

  datatype Direction = Tx | Rx | Event | OtherDirection

  /** What the text of a record says, as far as it matters: the end of an exchange ("FC.. result="),
      with or without an error, or anything else. */
  datatype Detail = Note | Finished(failed: bool)

  datatype Record = Record(sequence: nat, timestamp: nat, elapsed: nat, source: nat, protocol: Protocol,
                           transaction: nat, direction: Direction, bytes: seq<bv8>, detail: Detail)

  // ---- integers on the wire ----

  function U16(hi: bv8, lo: bv8): bv16 {
    ((hi as bv16) << 8) | (lo as bv16)
  }

  function HighByte(w: bv16): bv8 {
    (w >> 8) as bv8
  }

  function LowByte(w: bv16): bv8 {
    (w & 0xFF) as bv8
  }

  lemma BigEndian(w: bv16)
    ensures U16(HighByte(w), LowByte(w)) == w
  {}

  function Registers(bytes: seq<bv8>): (values: seq<bv16>)
    ensures |values| == |bytes| / 2
  {
    seq(|bytes| / 2, i requires 0 <= i < |bytes| / 2 => U16(bytes[2 * i], bytes[2 * i + 1]))
  }

  /** address.checked_add(count - 1) is Some. */
  predicate InRange(address: bv16, count: nat) {
    address as int + (count - 1) < 0x1_0000
  }

  // ---- one frame ----

  datatype FrameError =
    | NoError | BadPayload | NoAddress | ExceptionLength | RangeInvalid | LengthInvalid | OtherFunction

  datatype Frame = Frame(checksum: bool, slave: Option<bv8>, code: Option<bv8>, address: Option<bv16>,
                         count: Option<nat>, values: seq<bv16>, exception: Option<bv8>, error: FrameError)

  const BLANK := Frame(false, None, None, None, None, [], None, NoError)

  function Payload(bytes: seq<bv8>, protocol: Protocol): Option<seq<bv8>> {
    if bytes == [] then None
    else if protocol == Ascii then
      match ModbusAscii.DecodeAscii(bytes)
      case Decoded(p) => Some(p)
      case _ => None
    else if |bytes| < 4 || |bytes| > 256 || ModbusCrc.VerifyCrc(bytes) != ModbusCrc.Accepted then None
    else Some(bytes[..|bytes| - 2])
  }

  predicate IsException(code: bv8) {
    code & 0x80 != 0
  }

  function DecodeFrame(bytes: seq<bv8>, protocol: Protocol, request: bool): Frame {
    match Payload(bytes, protocol)
    case None => BLANK.(error := BadPayload)
    case Some(p) => DecodePayload(p, request)
  }

  function DecodePayload(p: seq<bv8>, request: bool): Frame {
    var f := BLANK.(checksum := true);
    if |p| < 2 then f.(error := NoAddress)
    else
      var g := f.(slave := Some(p[0]), code := Some(p[1]));
      if !request && IsException(p[1]) then
        if |p| != 3 then g.(error := ExceptionLength) else g.(exception := Some(p[2]))
      else if p[1] == 3 && request && |p| == 6 then
        var address, count := U16(p[2], p[3]), U16(p[4], p[5]) as nat;
        g.(address := Some(address), count := Some(count),
           error := if count == 0 || count > 125 || !InRange(address, count) then RangeInvalid else NoError)
      else if p[1] == 6 && |p| == 6 then
        g.(address := Some(U16(p[2], p[3])), count := Some(1), values := [U16(p[4], p[5])])
      else if p[1] == 3 && !request && ReadPayload(p) then
        g.(count := Some(p[2] as nat / 2), values := Registers(p[3..]))
      else if p[1] == 3 || p[1] == 6 then g.(error := LengthInvalid)
      else g.(error := OtherFunction)
  }

  /** A register read answer whose byte count fits. */
  predicate ReadPayload(p: seq<bv8>) {
    && |p| >= 3
    && var n := p[2] as nat;
       0 < n <= 250 && n % 2 == 0 && |p| == 3 + n
  }

  // ---- one transaction ----

  datatype Class = FrameProblem | WrongStation | DeviceException | CountMismatch | EchoMismatch | Match

  /** The outcome text: the class, prefixed if the exchange failed or its end was not recorded. */
  datatype Outcome = Outcome(class_: Class, failed: bool, ended: bool)

  const MATCH := Outcome(Match, false, true)

  datatype Transaction = Transaction(source: nat, protocol: Protocol, transaction: nat, outcome: Outcome,
                                     duration: Option<nat>, request: Frame, response: Frame)

  datatype DecodeError = NoRecords | NotATransaction | Mixed | TooLong

  datatype Result = Ok(value: Transaction) | Err(error: DecodeError)

  function TxBytes(records: seq<Record>): seq<bv8> {
    if records == [] then []
    else var r := records[|records| - 1];
         TxBytes(records[..|records| - 1]) + if r.direction == Tx then r.bytes else []
  }

  function RxBytes(records: seq<Record>): seq<bv8> {
    if records == [] then []
    else var r := records[|records| - 1];
         RxBytes(records[..|records| - 1]) + if r.direction == Rx then r.bytes else []
  }

  predicate Ends(r: Record) {
    r.direction == Event && r.detail.Finished?
  }

  predicate Ended(records: seq<Record>) {
    exists r :: r in records && Ends(r)
  }

  predicate Failed(records: seq<Record>) {
    exists r :: r in records && Ends(r) && r.detail.failed
  }

  /** Time of the first sent byte. */
  function Started(records: seq<Record>): Option<nat> {
    if records == [] then None
    else
      var r := records[|records| - 1];
      match Started(records[..|records| - 1])
      case Some(t) => Some(t)
      case None => if r.direction == Tx && r.bytes != [] then Some(r.elapsed) else None
  }

  /** Time of the last received chunk or end of exchange. */
  function LastSeen(records: seq<Record>): Option<nat> {
    if records == [] then None
    else
      var r := records[|records| - 1];
      if r.direction == Rx || Ends(r) then Some(r.elapsed) else LastSeen(records[..|records| - 1])
  }

  function Classify(request: Frame, response: Frame): Class {
    if request.error != NoError || response.error != NoError then FrameProblem
    else if request.slave != response.slave || Base(response.code) != request.code then WrongStation
    else if response.exception.Some? then DeviceException
    else if request.code == Some(3) && request.count != response.count then CountMismatch
    else if request.code == Some(6)
            && (request.address != response.address || request.values != response.values) then EchoMismatch
    else Match
  }

  function Base(code: Option<bv8>): Option<bv8> {
    match code
    case Some(c) => Some(c & 0x7F)
    case None => None
  }

  function Duration(started: Option<nat>, ended: Option<nat>): Option<nat> {
    if started.Some? && ended.Some? && started.value <= ended.value then Some(ended.value - started.value) else None
  }

  predicate SameKey(records: seq<Record>) {
    forall r :: r in records ==>
      r.transaction == records[0].transaction && r.source == records[0].source && r.protocol == records[0].protocol
  }

  /** What the decoder reports for a list of records. */
  function Decode(records: seq<Record>): Result {
    if records == [] then Err(NoRecords)
    else if records[0].transaction == 0 || records[0].protocol == NotModbus then Err(NotATransaction)
    else if !SameKey(records) then Err(Mixed)
    else if |TxBytes(records)| > 513 || |RxBytes(records)| > 513 then Err(TooLong)
    else
      var request := DecodeFrame(TxBytes(records), records[0].protocol, true);
      var response := DecodeFrame(RxBytes(records), records[0].protocol, false);
      var class_ := Classify(request, response);
      Ok(Transaction(records[0].source, records[0].protocol, records[0].transaction,
                     Outcome(class_, Failed(records), Ended(records)),
                     Duration(Started(records), LastSeen(records)),
                     request,
                     if class_ == Match && request.code == Some(3) then response.(address := request.address)
                     else response))
  }

  lemma {:induction false} BytesGrow(records: seq<Record>, n: nat)
    requires n <= |records|
    ensures |TxBytes(records[..n])| <= |TxBytes(records)| && |RxBytes(records[..n])| <= |RxBytes(records)|
    decreases |records|
  {
    if n < |records| {
      assert records[..|records| - 1][..n] == records[..n];
      BytesGrow(records[..|records| - 1], n);
    } else {
      assert records[..n] == records;
    }
  }

  /** The record loop of the decoder. */
  method DecodeTransaction(records: seq<Record>) returns (result: Result)
    ensures result == Decode(records)
  {
    hide DecodeFrame, Classify, Duration, Started, LastSeen, TxBytes, RxBytes;
    if records == [] { return Err(NoRecords); }
    var first := records[0];
    if first.transaction == 0 || first.protocol == NotModbus { return Err(NotATransaction); }
    if !SameKey(records) { return Err(Mixed); }
    var tx: seq<bv8>, rx: seq<bv8>, started, ended, terminal, failed := [], [], None, None, false, false;
    Nothing();
    for i := 0 to |records|
      invariant tx == TxBytes(records[..i]) && rx == RxBytes(records[..i]) && |tx| <= 513 && |rx| <= 513
      invariant started == Started(records[..i]) && ended == LastSeen(records[..i])
      invariant terminal == Ended(records[..i]) && failed == Failed(records[..i])
    {
      var r := records[i];
      OneMore(records, i);
      match r.direction {
        case Tx =>
          if r.bytes != [] && started == None { started := Some(r.elapsed); }
          tx := tx + r.bytes;
        case Rx =>
          rx := rx + r.bytes;
          ended := Some(r.elapsed);
        case Event =>
          if r.detail.Finished? {
            terminal := true;
            failed := failed || r.detail.failed;
            ended := Some(r.elapsed);
          }
        case OtherDirection =>
      }
      if |tx| > 513 || |rx| > 513 {
        BytesGrow(records, i + 1);
        return Err(TooLong);
      }
    }
    assert records[..|records|] == records;
    var request := DecodeFrame(tx, first.protocol, true);
    var response := DecodeFrame(rx, first.protocol, false);
    var class_ := Classify(request, response);
    if class_ == Match && request.code == Some(3) {
      response := response.(address := request.address);
    }
    result := Ok(Transaction(first.source, first.protocol, first.transaction, Outcome(class_, failed, terminal),
                             Duration(started, ended), request, response));
  }

  lemma Nothing()
    ensures TxBytes([]) == [] == RxBytes([]) && Started([]) == None == LastSeen([])
  {}

  /** How each accumulated quantity changes with one more record. */
  lemma OneMore(records: seq<Record>, i: nat)
    requires i < |records|
    ensures var r, before, after := records[i], records[..i], records[..i + 1];
            && TxBytes(after) == TxBytes(before) + (if r.direction == Tx then r.bytes else [])
            && RxBytes(after) == RxBytes(before) + (if r.direction == Rx then r.bytes else [])
            && Started(after) == (if Started(before) == None && r.direction == Tx && r.bytes != [] then Some(r.elapsed)
                                  else Started(before))
            && LastSeen(after) == (if r.direction == Rx || Ends(r) then Some(r.elapsed) else LastSeen(before))
            && Ended(after) == (Ended(before) || Ends(r))
            && Failed(after) == (Failed(before) || (Ends(r) && r.detail.failed))
  {
    var after := records[..i + 1];
    assert after[..i] == records[..i] && after == records[..i] + [records[i]];
  }
}
