/** The online Modbus client (exchange, read_once and the recorded port in src/modbus.rs and
    src/recorded_port.rs) against an arbitrary device, and its agreement with the offline decoder. */
module ModbusClient {
  import opened ModbusDecode
  import ModbusCrc
  import ModbusAscii

  datatype Error = TimedOut | UnexpectedEof | OtherIo | SlaveMismatch | FunctionMismatch
                 | Exception(code: bv8) | CrcError | LrcError | InvalidResponse

  /** What the line delivers, in order: chunks of any size, interruptions, an end of stream, an
      error, and for ASCII the moment the frame deadline passes. */
  datatype ReadEvent = Chunk(bytes: seq<bv8>) | Interrupted | Eof | Broken | DeadlinePassed

  /** How many of the offered bytes the port takes at a time. */
  datatype WriteEvent = Accepts(n: nat) | WriteInterrupted | WriteBroken

  datatype Outcome<+T> = Good(value: T) | Bad(error: Error)

  /** What is left of the script; every read uses some of it up. */
  function Budget(script: seq<ReadEvent>): nat {
    if script == [] then 0
    else 1 + (if script[0].Chunk? then |script[0].bytes| else 0) + Budget(script[1..])
  }

  /** A line without faults: bytes and interruptions only. */
  predicate Clean(script: seq<ReadEvent>) {
    forall e :: e in script ==> (e.Chunk? && e.bytes != []) || e.Interrupted?
  }

  predicate WritesClean(writes: seq<WriteEvent>) {
    forall w :: w in writes ==> (w.Accepts? && w.n > 0) || w.WriteInterrupted?
  }

  /** The bytes a script brings, whatever the chunks. */
  function Stream(script: seq<ReadEvent>): seq<bv8> {
    if script == [] then [] else (if script[0].Chunk? then script[0].bytes else []) + Stream(script[1..])
  }

  lemma StreamEnd()
    ensures Stream([]) == []
  {}

  /** A read that takes bytes, all there are or as many as it asks for. */
  lemma StreamHead(script: seq<ReadEvent>, max: nat)
    requires script != [] && script[0].Chunk? && max > 0
    ensures var b := script[0].bytes;
            var rest := if |b| <= max then script[1..] else [Chunk(b[max..])] + script[1..];
            && Budget(rest) < Budget(script)
            && (Clean(script) ==> b != [] && Clean(rest))
            && (Clean(script) ==> Stream(script) == (if |b| <= max then b else b[..max]) + Stream(rest))
  {
    var b := script[0].bytes;
    if |b| > max {
      var rest := [Chunk(b[max..])] + script[1..];
      assert rest[1..] == script[1..];
      assert b == b[..max] + b[max..];
    }
  }

  /** A read that takes none. */
  lemma StreamTail(script: seq<ReadEvent>)
    requires script != [] && !script[0].Chunk?
    ensures Budget(script[1..]) < Budget(script)
    ensures Clean(script) ==> script[0].Interrupted? && Clean(script[1..]) && Stream(script) == Stream(script[1..])
  {}

  /** The function code of an exception. */
  function Flagged(code: bv8): bv8 {
    code | 0x80
  }

  /** A well-formed answer to a request: the values, the echo, or an exception. */
  predicate Answer(p: seq<bv8>, slave: bv8, code: bv8, value: bv16, payload: seq<bv8>) {
    && |p| >= 3 && p[0] == slave
    && (|| (p[1] == Flagged(code) && |p| == 3)
        || (p[1] == code == 3 && |p| == 3 + 2 * (value as nat) && p[2] as nat == 2 * (value as nat))
        || (p[1] == code == 6 && p == payload))
  }

  /** The port works, and brings the frame of p first. */
  predicate Delivers(script: seq<ReadEvent>, writes: seq<WriteEvent>, p: seq<bv8>, protocol: Protocol) {
    Clean(script) && WritesClean(writes) && Framed(p, protocol) <= Stream(script)
  }

  /** What a well-formed answer leads to. */
  function Verdict(p: seq<bv8>, code: bv8): Outcome<seq<bv8>>
    requires |p| >= 3
  {
    if p[1] == code then Good(p) else Bad(Exception(p[2]))
  }

  function RequestPayload(slave: bv8, code: bv8, address: bv16, value: bv16): (p: seq<bv8>)
    ensures |p| == 6
  {
    [slave, code, HighByte(address), LowByte(address), HighByte(value), LowByte(value)]
  }

  function Framed(payload: seq<bv8>, protocol: Protocol): seq<bv8> {
    if protocol == Ascii then ModbusAscii.AsciiFrame(payload) else ModbusCrc.WithCrc(payload)
  }

  /** The received bytes carry `response`, and it answers the request. */
  predicate Answers(received: seq<bv8>, response: seq<bv8>, protocol: Protocol, slave: bv8, code: bv8, value: bv16,
                    payload: seq<bv8>) {
    && ModbusDecode.Payload(received, protocol) == Some(response) && |received| <= 513
    && |response| >= 2 && response[0] == slave && response[1] == code
    && (code == 3 ==> |response| == 3 + 2 * (value as nat) && response[2] as nat == 2 * (value as nat))
    && (code == 6 ==> response == payload)
  }

  lemma RequestDecodes(slave: bv8, code: bv8, address: bv16, value: bv16, protocol: Protocol)
    requires code == 3 || code == 6
    requires protocol != NotModbus
    ensures var sent := Framed(RequestPayload(slave, code, address, value), protocol);
            && |sent| <= 513
            && ModbusDecode.Payload(sent, protocol) == Some(RequestPayload(slave, code, address, value))
  {
    var payload := RequestPayload(slave, code, address, value);
    ModbusAscii.AsciiRoundTrip(payload);
    var sent := ModbusCrc.WithCrc(payload);
    assert sent[..|sent| - 2] == payload;
  }

  lemma PlainCodes(code: bv8)
    requires code == 3 || code == 6
    ensures !IsException(code) && code & 0x7F == code
  {}

  /** For every complete recording of a successful exchange, however the bytes were split up: the
      offline decoder reports a match with the same registers if and only if the addresses read do
      not run past the end of the address space. */
  lemma OfflineAgrees(records: seq<Record>, received: seq<bv8>, response: seq<bv8>, protocol: Protocol,
                      slave: bv8, code: bv8, address: bv16, value: bv16)
    requires (code == 3 && 1 <= value as nat <= 100) || code == 6
    requires protocol != NotModbus
    requires Answers(received, response, protocol, slave, code, value, RequestPayload(slave, code, address, value))
    requires records != [] && records[0].transaction != 0 && records[0].protocol == protocol && SameKey(records)
    requires TxBytes(records) == Framed(RequestPayload(slave, code, address, value), protocol)
    requires RxBytes(records) == received
    ensures Decode(records).Ok?
    ensures var t := Decode(records).value;
            && t.outcome.failed == Failed(records) && t.outcome.ended == Ended(records)
            && (t.outcome.class_ == Match <==> (code == 3 ==> InRange(address, value as nat)))
            && t.response.values == (if code == 3 then Registers(response[3..]) else [value])
            && (t.outcome.class_ == Match ==> t.response.address == Some(address))
  {
    hide ModbusDecode.Payload, Framed, Registers, IsException, HighByte, LowByte, U16, TxBytes, RxBytes, Duration,
      Started, LastSeen;
    RequestDecodes(slave, code, address, value, protocol);
    PlainCodes(code);
    BigEndian(address);
    BigEndian(value);
    if code == 3 {
      AnswerDecodes(response, value);
    }
  }

  lemma AnswerDecodes(response: seq<bv8>, value: bv16)
    requires 1 <= value as nat <= 100 && |response| == 3 + 2 * (value as nat)
    requires response[1] == 3 && response[2] as nat == 2 * (value as nat)
    ensures ReadPayload(response) && response[2] as nat / 2 == value as nat
  {}

  /** One read call on the port. */
  datatype PortRead = Got(bytes: seq<bv8>) | Again | Stopped(error: Error)

  class SerialClient {
    const slave: bv8
    const protocol: Protocol
    const source: nat
    const clock: nat -> nat          // when the n-th record of an exchange is made
    var script: seq<ReadEvent>
    var writes: seq<WriteEvent>
    var transaction: nat
    var received: seq<bv8>
    var log: seq<Record>             // the records of the current exchange

    constructor (slave: bv8, protocol: Protocol, source: nat, clock: nat -> nat, script: seq<ReadEvent>,
                 writes: seq<WriteEvent>)
      requires protocol != NotModbus
      ensures this.slave == slave && this.protocol == protocol && this.script == script && transaction == 0
    {
      this.slave, this.protocol, this.source, this.clock := slave, protocol, source, clock;
      this.script, this.writes, transaction, received, log := script, writes, 0, [], [];
    }

    ghost predicate Keyed()
      reads this
    {
      forall r :: r in log ==> r.transaction == transaction && r.source == source && r.protocol == protocol
    }

    /** The recording so far is complete and the exchange has not ended. */
    ghost predicate Recording()
      reads this
    {
      Keyed() && RxBytes(log) == received && !Ended(log) && !Failed(log)
    }

    method Emit(direction: Direction, bytes: seq<bv8>, detail: Detail)
      requires Keyed()
      modifies this`log
      ensures Keyed() && log != []
      ensures TxBytes(log) == old(TxBytes(log)) + if direction == Tx then bytes else []
      ensures RxBytes(log) == old(RxBytes(log)) + if direction == Rx then bytes else []
      ensures Ended(log) == (old(Ended(log)) || (direction == Event && detail.Finished?))
      ensures Failed(log) == (old(Failed(log)) || (direction == Event && detail == Finished(true)))
    {
      var r := Record(|log| + 1, clock(|log|), clock(|log|), source, protocol, transaction, direction, bytes, detail);
      OneMore(log + [r], |log|);
      assert (log + [r])[..|log|] == log && (log + [r])[..|log| + 1] == log + [r];
      log := log + [r];
    }

    /** The recorded port: at most `max` bytes, and a record of whatever happened. */
    method ReadPort(max: nat) returns (r: PortRead)
      requires Recording() && max > 0
      modifies this`script, this`received, this`log
      ensures Recording() && TxBytes(log) == old(TxBytes(log)) && Budget(script) <= old(Budget(script))
      ensures r.Got? ==> 0 < |r.bytes| <= max && received == old(received) + r.bytes
      ensures !r.Got? ==> received == old(received)
      ensures !r.Stopped? ==> Budget(script) < old(Budget(script))
      ensures old(Clean(script)) ==>
                match r
                case Got(bytes) => Clean(script) && old(Stream(script)) == bytes + Stream(script)
                case Again => Clean(script) && old(Stream(script)) == Stream(script)
                case Stopped(_) => old(Stream(script)) == []
    {
      hide Stream, Clean, Budget, TxBytes, RxBytes, Ended, Failed;
      if script == [] {
        StreamEnd();
        Emit(Event, [], Note);
        return Stopped(TimedOut);
      }
      var next := script[0];
      if next.Chunk? {
        StreamHead(script, max);
      } else {
        StreamTail(script);
      }
      match next {
        case Chunk(bytes) =>
          var taken := if |bytes| <= max then bytes else bytes[..max];
          script := if |bytes| <= max then script[1..] else [Chunk(bytes[max..])] + script[1..];
          Emit(Rx, taken, Note);
          if taken == [] { return Stopped(UnexpectedEof); }
          received := received + taken;
          return Got(taken);
        case Eof =>
          script := script[1..];
          Emit(Rx, [], Note);
          return Stopped(UnexpectedEof);
        case Interrupted =>
          script := script[1..];
          Emit(Event, [], Note);
          return Again;
        case Broken =>
          script := script[1..];
          Emit(Event, [], Note);
          return Stopped(OtherIo);
        case DeadlinePassed =>
          script := script[1..];
          Emit(Event, [], Note);
          return Stopped(TimedOut);
      }
    }

    /** read_captured: fill a buffer of n bytes. */
    method ReadCaptured(n: nat) returns (r: Outcome<seq<bv8>>)
      requires Recording()
      modifies this`script, this`received, this`log
      ensures Recording() && TxBytes(log) == old(TxBytes(log)) && Budget(script) <= old(Budget(script))
      ensures r.Good? ==> |r.value| == n && received == old(received) + r.value
      ensures r.Good? && n > 0 ==> Budget(script) < old(Budget(script))
      ensures old(Clean(script)) && n <= |old(Stream(script))| ==>
                r.Good? && Clean(script) && old(Stream(script)) == r.value + Stream(script)
    {
      hide Stream, Clean, Budget, TxBytes, Recording;
      var buffer: seq<bv8> := [];
      while |buffer| < n
        invariant Recording() && TxBytes(log) == old(TxBytes(log)) && Budget(script) <= old(Budget(script))
        invariant |buffer| <= n && received == old(received) + buffer
        invariant buffer != [] ==> Budget(script) < old(Budget(script))
        invariant old(Clean(script)) && n <= |old(Stream(script))| ==>
                    Clean(script) && old(Stream(script)) == buffer + Stream(script)
        decreases Budget(script)
      {
        var got := ReadPort(n - |buffer|);
        match got {
          case Got(bytes) => buffer := buffer + bytes;
          case Again =>
          case Stopped(e) => return Bad(e);
        }
      }
      return Good(buffer);
    }

    /** write_all through the recorded port. */
    method WriteAll(bytes: seq<bv8>) returns (error: Outcome<()>)
      requires Recording()
      modifies this`writes, this`log
      ensures Recording()
      ensures error.Good? ==> TxBytes(log) == old(TxBytes(log)) + bytes
      ensures old(WritesClean(writes)) ==> error.Good?
    {
      hide TxBytes, RxBytes, Ended, Failed;
      var at := 0;
      assert bytes[..0] == [];
      while at < |bytes|
        invariant old(WritesClean(writes)) ==> WritesClean(writes)
        invariant Recording() && 0 <= at <= |bytes| && TxBytes(log) == old(TxBytes(log)) + bytes[..at]
        decreases |writes|, |bytes| - at
      {
        var n := |bytes| - at;
        if writes != [] {
          var next := writes[0];
          assert WritesClean(writes) ==> (next.Accepts? && next.n > 0) || next.WriteInterrupted?;
          assert WritesClean(writes) ==> WritesClean(writes[1..]);
          writes := writes[1..];
          match next {
            case Accepts(m) => n := if m < n then m else n;
            case WriteInterrupted => Emit(Event, [], Note); continue;
            case WriteBroken => Emit(Event, [], Note); return Bad(OtherIo);
          }
        }
        Emit(Tx, bytes[at..at + n], Note);
        if n == 0 { return Bad(OtherIo); }
        assert bytes[..at] + bytes[at..at + n] == bytes[..at + n];
        at := at + n;
      }
      assert bytes[..|bytes|] == bytes;
      return Good(());
    }

    /** The byte count of a read, which must be that of the request; `stream` is all that comes. */
    method ReadCount(value: bv16, ghost stream: seq<bv8>) returns (r: Outcome<nat>)
      requires Recording()
      modifies this`script, this`received, this`log
      ensures Recording() && TxBytes(log) == old(TxBytes(log))
      ensures r.Good? ==> |received| == |old(received)| + 1 && r.value == 2 * (value as nat) + 2
      ensures (&& old(Clean(script)) && old(received + Stream(script)) == stream && |stream| > |old(received)|
               && stream[|old(received)|] as nat == 2 * (value as nat)) ==>
                r.Good? && Clean(script) && received + Stream(script) == stream
    {
      hide IsException, Payload, Recording, TxBytes, Budget, Clean, Stream;
      ghost var before, rest := received, Stream(script);
      var count := ReadCaptured(1);
      if count.Bad? { return Bad(count.error); }
      if before + (count.value + Stream(script)) == stream {
        Onward(before, count.value, Stream(script), stream);
      }
      if count.value[0] as nat != 2 * (value as nat) { return Bad(InvalidResponse); }
      return Good(count.value[0] as nat + 2);
    }

    /** Address and function of an RTU answer, and for a read its byte count; the result is how many
        bytes are still to come. */
    method ReadHead(code: bv8, value: bv16, ghost payload: seq<bv8>, ghost p: seq<bv8>) returns (r: Outcome<nat>)
      requires Recording() && received == [] && protocol == Rtu
      requires ((code == 3 && 1 <= value as nat <= 100) || code == 6) && |payload| == 6
      modifies this`script, this`received, this`log
      ensures Recording() && TxBytes(log) == old(TxBytes(log))
      ensures r.Good? ==> 2 <= |received| && 5 <= |received| + r.value <= 256
      ensures (&& old(Clean(script)) && ModbusCrc.WithCrc(p) <= old(Stream(script))
               && Answer(p, slave, code, value, payload)) ==>
                r == Good(|p| + 2 - |received|) && Clean(script) && received + Stream(script) == old(Stream(script))
    {
      hide IsException, Payload, Recording, TxBytes, Budget, Clean, Stream, ModbusCrc.VerifyCrc,
        ModbusCrc.WithCrc, Answer, Flagged;
      ghost var stream := Stream(script);
      ghost var good := Clean(script) && ModbusCrc.WithCrc(p) <= stream && Answer(p, slave, code, value, payload);
      if good {
        AnswerHead(p, slave, code, value, payload);
        AnswerStarts(p, stream);
      }
      FlaggedCode(code);
      var prefix := ReadCaptured(2);
      if prefix.Bad? { return Bad(prefix.error); }
      assert received == prefix.value;
      if prefix.value[0] != slave { return Bad(SlaveMismatch); }
      var got := prefix.value[1];
      if got != code && got != Flagged(code) { return Bad(FunctionMismatch); }
      if got == Flagged(code) {
        return Good(3);
      } else if got == 3 {
        r := ReadCount(value, stream);
      } else if got == 6 {
        return Good(6);
      } else {
        return Bad(FunctionMismatch);
      }
    }

    /** The RTU half of exchange: the head of the answer first, then as much as it announces. */
    method ReceiveRtu(code: bv8, value: bv16, ghost payload: seq<bv8>, ghost p: seq<bv8>) returns (r: Outcome<seq<bv8>>)
      requires Recording() && received == [] && protocol == Rtu
      requires ((code == 3 && 1 <= value as nat <= 100) || code == 6) && |payload| == 6
      modifies this`script, this`received, this`log
      ensures Recording() && TxBytes(log) == old(TxBytes(log))
      ensures r.Good? ==> |received| <= 256 && Payload(received, Rtu) == Some(r.value) && |r.value| >= 2
      ensures (&& old(Clean(script)) && ModbusCrc.WithCrc(p) <= old(Stream(script))
               && Answer(p, slave, code, value, payload)) ==>
                r == Good(p)
    {
      hide IsException, Payload, Recording, TxBytes, Budget, Clean, Stream, ModbusCrc.VerifyCrc;
      ghost var stream, frame := Stream(script), ModbusCrc.WithCrc(p);
      ghost var good := Clean(script) && frame <= stream && Answer(p, slave, code, value, payload);
      if good {
        AnswerStarts(p, stream);
      }
      var tailLen := ReadHead(code, value, payload, p);
      if tailLen.Bad? { return Bad(tailLen.error); }
      ghost var before := received;
      hide Answer;
      var tail := ReadCaptured(tailLen.value);
      if tail.Bad? { return tail; }
      if good {
        Onward(before, tail.value, Stream(script), stream);
        SamePrefix(frame, received, stream);
      }
      match ModbusCrc.VerifyCrc(received) {
        case Accepted =>
          RtuPayload(received);
          return Good(received[..|received| - 2]);
        case TooShort => return Bad(InvalidResponse);
        case CrcError => return Bad(CrcError);
      }
    }

    /** The ASCII half of exchange: byte by byte up to the line feed. */
    method ReceiveAscii(ghost p: seq<bv8>) returns (r: Outcome<seq<bv8>>)
      requires Recording() && received == [] && protocol == Ascii
      modifies this`script, this`received, this`log
      ensures Recording() && TxBytes(log) == old(TxBytes(log))
      ensures r.Good? ==> |received| <= 513 && Payload(received, Ascii) == Some(r.value) && |r.value| >= 2
      ensures old(Clean(script)) && 2 <= |p| <= 254 && ModbusAscii.AsciiFrame(p) <= old(Stream(script)) ==> r == Good(p)
    {
      hide TxBytes, Budget, Clean, Stream, ModbusAscii.DecodeAscii, ModbusAscii.AsciiFrame, Recording;
      ghost var stream, frame := Stream(script), ModbusAscii.AsciiFrame(p);
      ghost var good := Clean(script) && 2 <= |p| <= 254 && frame <= stream;
      while true
        invariant Recording() && TxBytes(log) == old(TxBytes(log)) && |received| <= 512
        invariant good ==> |received| < |frame| && received <= frame <= stream
        invariant good ==> Clean(script) && received + Stream(script) == stream
        decreases Budget(script)
      {
        ghost var before := received;
        var next := ReadCaptured(1);
        if good {
          NextAscii(p, before, next.value, Stream(script), stream);
        }
        if next.Bad? { return next; }
        if |received| == 1 && next.value[0] != ModbusAscii.COLON { return Bad(InvalidResponse); }
        if next.value[0] == ModbusAscii.LF {
          break;
        }
        if |received| >= 513 { return Bad(InvalidResponse); }
      }
      assert good ==> received == frame;
      ModbusAscii.AsciiRoundTrip(p);
      match ModbusAscii.DecodeAscii(received) {
        case Decoded(p) => return Good(p);
        case LrcError => return Bad(LrcError);
        case _ => return Bad(InvalidResponse);
      }
    }

    /** What exchange checks of a response whose checksum is right. */
    method CheckResponse(response: seq<bv8>, code: bv8, value: bv16, payload: seq<bv8>) returns (r: Outcome<seq<bv8>>)
      requires |response| >= 2
      ensures r.Good? ==> r.value == response && response[0] == slave && response[1] == code
      ensures r.Good? && code == 3 ==> |response| == 3 + 2 * (value as nat) && response[2] as nat == 2 * (value as nat)
      ensures r.Good? && code == 6 ==> response == payload
      ensures (code == 3 || code == 6) && Answer(response, slave, code, value, payload) ==> r == Verdict(response, code)
    {
      if response[0] != slave { return Bad(SlaveMismatch); }
      if response[1] == Flagged(code) {
        if |response| != 3 { return Bad(InvalidResponse); }
        return Bad(Exception(response[2]));
      }
      if response[1] != code { return Bad(FunctionMismatch); }
      if code == 3 {
        var count := value as nat;
        if |response| != 3 + 2 * count || response[2] as nat != 2 * count { return Bad(InvalidResponse); }
      } else if code == 6 && response != payload {
        return Bad(InvalidResponse);
      }
      return Good(response);
    }

    /** The part of exchange whose result is recorded. */
    method Transfer(code: bv8, value: bv16, payload: seq<bv8>, clearOk: bool, flushOk: bool, ghost p: seq<bv8>)
      returns (r: Outcome<seq<bv8>>)
      requires Recording() && received == [] && TxBytes(log) == [] && protocol != NotModbus
      requires ((code == 3 && 1 <= value as nat <= 100) || code == 6) && |payload| == 6
      modifies this`script, this`writes, this`received, this`log
      ensures Recording()
      ensures r.Good? ==> TxBytes(log) == Framed(payload, protocol)
      ensures r.Good? ==> Answers(received, r.value, protocol, slave, code, value, payload)
      ensures (&& clearOk && flushOk && old(Delivers(script, writes, p, protocol))
               && Answer(p, slave, code, value, payload)) ==>
                r == Verdict(p, code)
    {
      hide Payload, Framed, TxBytes, RxBytes, Ended, Failed, Stream, Clean, WritesClean;
      FramedIs(p, protocol);
      Emit(Event, [], Note);
      if !clearOk { return Bad(OtherIo); }
      var request := Framed(payload, protocol);
      var written := WriteAll(request);
      if written.Bad? { return Bad(written.error); }
      Emit(Event, [], Note);
      if !flushOk { return Bad(OtherIo); }
      if protocol == Ascii {
        r := ReceiveAscii(p);
      } else {
        r := ReceiveRtu(code, value, payload, p);
      }
      if r.Good? {
        r := CheckResponse(r.value, code, value, payload);
      }
    }

    /** exchange. A success leaves a complete recording of it, which the offline decoder reads the
        same way: as a match with the same registers, unless the addresses run past 65535. If the port
        works and brings a well-formed answer p, the exchange succeeds with it, or reports its exception. */
    method Exchange(code: bv8, address: bv16, value: bv16, clearOk: bool, flushOk: bool, restored: bool,
                    ghost p: seq<bv8>)
      returns (r: Outcome<seq<bv8>>)
      requires protocol != NotModbus
      requires (code == 3 && 1 <= value as nat <= 100) || code == 6
      modifies this
      ensures transaction == old(transaction) + 1 && Ended(log) && Failed(log) == r.Bad?
      ensures r.Good? ==>
                Answers(received, r.value, protocol, slave, code, value, RequestPayload(slave, code, address, value))
      ensures r.Good? ==> Decode(log).Ok? && Agrees(Decode(log).value, code, address, value, r.value)
      ensures (&& clearOk && flushOk && restored && old(Delivers(script, writes, p, protocol))
               && Answer(p, slave, code, value, RequestPayload(slave, code, address, value))) ==> r == Verdict(p, code)
    {
      hide Answers, Decode, Agrees, Framed, Delivers, Answer;
      transaction := transaction + 1;
      received, log := [], [];
      Nothing();
      var payload := RequestPayload(slave, code, address, value);
      r := Transfer(code, value, payload, clearOk, flushOk, p);
      if !restored && r.Good? {
        r := Bad(OtherIo);
      }
      Emit(Event, [], Finished(r.Bad?));
      if r.Good? {
        AnswerLength(received, r.value, protocol, slave, code, value, payload);
        OfflineAgrees(log, received, r.value, protocol, slave, code, address, value);
        AgreesIf(Decode(log).value, code, address, value, r.value);
      }
    }

    /** read_once: the registers of a successful read are those the offline decoder reports. */
    method ReadOnce(address: bv16, count: bv16, clearOk: bool, flushOk: bool, restored: bool, ghost p: seq<bv8>)
      returns (r: Outcome<seq<bv16>>)
      requires protocol != NotModbus
      modifies this
      ensures r.Good? ==> 1 <= count as nat <= 100 && |r.value| == count as nat
      ensures !(1 <= count as nat <= 100) ==> r == Bad(InvalidResponse)
      ensures r.Good? ==> Decode(log).Ok? && Decode(log).value.response.values == r.value
      ensures r.Good? ==> (Decode(log).value.outcome == MATCH <==> InRange(address, count as nat))
      ensures (&& clearOk && flushOk && restored && old(Delivers(script, writes, p, protocol))
               && 1 <= count as nat <= 100
               && Answer(p, slave, 3, count, RequestPayload(slave, 3, address, count)) && p[1] == 3) ==>
                r == Good(Registers(p[3..]))
    {
      hide Decode, Registers, Framed, Delivers, Payload;
      if count as nat == 0 || count as nat > 100 { return Bad(InvalidResponse); }
      var response := Exchange(3, address, count, clearOk, flushOk, restored, p);
      match response {
        case Bad(e) => return Bad(e);
        case Good(bytes) => return Good(Registers(bytes[3..]));
      }
    }
  }

  lemma AnswerLength(received: seq<bv8>, response: seq<bv8>, protocol: Protocol, slave: bv8, code: bv8, value: bv16,
                     payload: seq<bv8>)
    requires Answers(received, response, protocol, slave, code, value, payload)
    ensures code == 3 ==> |response| >= 3
  {}

  lemma FramedIs(p: seq<bv8>, protocol: Protocol)
    ensures Framed(p, protocol) == if protocol == Ascii then ModbusAscii.AsciiFrame(p) else ModbusCrc.WithCrc(p)
  {}

  /** What the head of a well-formed answer says. */
  lemma AnswerHead(p: seq<bv8>, slave: bv8, code: bv8, value: bv16, payload: seq<bv8>)
    requires Answer(p, slave, code, value, payload) && (code == 3 || code == 6) && |payload| == 6
    ensures |p| >= 3 && p[0] == slave && (p[1] == Flagged(code) || p[1] == code)
    ensures p[1] == Flagged(code) ==> |p| == 3
    ensures p[1] == code == 3 ==> |p| == 3 + 2 * (value as nat) && p[2] as nat == 2 * (value as nat)
    ensures p[1] == code == 6 ==> |p| == 6
  {
    FlaggedCode(code);
  }

  lemma FlaggedCode(code: bv8)
    requires code == 3 || code == 6
    ensures Flagged(code) != 3 && Flagged(code) != 6
  {}

  lemma Onward(received: seq<bv8>, more: seq<bv8>, rest: seq<bv8>, stream: seq<bv8>)
    requires received + (more + rest) == stream
    ensures received + more + rest == stream && received + more <= stream
    ensures more != [] ==> |stream| > |received| && stream[|received|] == more[0]
  {
    assert received + more + rest == stream;
    assert stream[..|received| + |more|] == received + more;
  }

  lemma NextByte(received: seq<bv8>, next: seq<bv8>, rest: seq<bv8>, frame: seq<bv8>, stream: seq<bv8>)
    requires |next| == 1 && received <= frame <= stream && |received| < |frame|
    requires received + (next + rest) == stream
    ensures received + next <= frame && next[0] == frame[|received|] && received + next + rest == stream
  {
    assert received + next + rest == stream;
    assert stream[|received|] == next[0];
  }

  /** Only the last byte of an ASCII frame is a line feed, and the first is a colon. */
  lemma NextAscii(p: seq<bv8>, received: seq<bv8>, next: seq<bv8>, rest: seq<bv8>, stream: seq<bv8>)
    requires |next| == 1 && received <= ModbusAscii.AsciiFrame(p) <= stream
    requires |received| < |ModbusAscii.AsciiFrame(p)| && received + (next + rest) == stream
    ensures received + next <= ModbusAscii.AsciiFrame(p) && received + next + rest == stream
    ensures next[0] == ModbusAscii.LF <==> |received| + 1 == |ModbusAscii.AsciiFrame(p)|
    ensures received == [] ==> next[0] == ModbusAscii.COLON
  {
    hide ModbusAscii.AsciiFrame;
    ModbusAscii.OneLineFeed(p);
    NextByte(received, next, rest, ModbusAscii.AsciiFrame(p), stream);
  }

  lemma AnswerStarts(p: seq<bv8>, stream: seq<bv8>)
    requires |p| >= 3 && ModbusCrc.WithCrc(p) <= stream
    ensures |stream| >= |p| + 2 && stream[0] == p[0] && stream[1] == p[1] && stream[2] == p[2]
    ensures ModbusCrc.VerifyCrc(ModbusCrc.WithCrc(p)) == ModbusCrc.Accepted && ModbusCrc.WithCrc(p)[..|p|] == p
  {
    var frame := ModbusCrc.WithCrc(p);
    assert frame[0] == frame[..|p|][0] && frame[1] == frame[..|p|][1] && frame[2] == frame[..|p|][2];
    assert stream[0] == frame[0] && stream[1] == frame[1] && stream[2] == frame[2];
  }

  lemma SamePrefix(a: seq<bv8>, b: seq<bv8>, all: seq<bv8>)
    requires a <= all && b <= all && |a| == |b|
    ensures a == b
  {}

  lemma RtuPayload(bytes: seq<bv8>)
    requires 4 <= |bytes| <= 256 && ModbusCrc.VerifyCrc(bytes) == ModbusCrc.Accepted
    ensures Payload(bytes, Rtu) == Some(bytes[..|bytes| - 2])
  {}

  /** The offline decoder's view of a successful exchange. */
  predicate Agrees(t: Transaction, code: bv8, address: bv16, value: bv16, response: seq<bv8>) {
    && (t.outcome == MATCH <==> (code == 3 ==> InRange(address, value as nat)))
    && t.response.values == (if code == 3 && |response| >= 3 then Registers(response[3..]) else [value])
    && (t.outcome == MATCH ==> t.response.address == Some(address))
  }

  lemma AgreesIf(t: Transaction, code: bv8, address: bv16, value: bv16, response: seq<bv8>)
    requires t.outcome == Outcome(t.outcome.class_, false, true)
    requires t.outcome.class_ == Match <==> (code == 3 ==> InRange(address, value as nat))
    requires code == 3 ==> |response| >= 3
    requires t.response.values == (if code == 3 then Registers(response[3..]) else [value])
    requires t.outcome.class_ == Match ==> t.response.address == Some(address)
    ensures Agrees(t, code, address, value, response)
  {}
}
