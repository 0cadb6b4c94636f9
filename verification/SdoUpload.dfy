/** SDO upload (ecx_SDOread) against an arbitrary slave; section 5.6.2 of ETG.1000.6. */
module SdoUpload {
  import opened Bytes
  import opened Coe

  /** Work counters of sending and receiving, and what was received. */
  datatype Exchange = Exchange(sendWkc: int, recvWkc: int, mbx: Mailbox) {
    predicate Answered() { sendWkc > 0 && recvWkc > 0 }
  }

  /** Everything outside the master: what a mailbox exchange brings, which may depend on every request so
      far, and whether the transfer timer has expired before the n-th. Any behaviour is allowed. */
  datatype Device = Device(answer: seq<Mailbox> -> Exchange, expired: nat -> bool)

  /** What the master sees of it: its n-th exchange. */
  datatype Slave = Slave(exchange: nat -> Exchange, expired: nat -> bool)

  /** An upload request as it stands in the mailbox buffer. */
  function UploadRequest(command: byte, index: u16, subIndex: byte, count: nat): (m: Mailbox)
    requires count <= 7
  {
    [10, 0, 0, 0, 0, MBXT_COE + count * 0x10, 0, SDOREQ * 0x10, command, index % 0x100, index / 0x100, subIndex]
    + Zeros(EC_MAXMBX - 11)
  }

  /** The first n requests of an upload: the counter moves on, and the toggle bit of the segment requests
      alternates, starting with 0. */
  function Requests(index: u16, subIndex: byte, ca: bool, cnt: nat, n: nat): (requests: seq<Mailbox>)
    requires cnt <= 7
    ensures |requests| == n
  {
    if n == 0 then []
    else
      Requests(index, subIndex, ca, cnt, n - 1)
      + [UploadRequest(RequestCommand(ca, n - 1), index, subIndex, CountAfter(cnt, n))]
  }

  function RequestCommand(ca: bool, k: nat): byte {
    if k == 0 then if ca then SDO_UP_REQ_CA else SDO_UP_REQ
    else SDO_SEG_UP_REQ + if k % 2 == 0 then 0x10 else 0
  }

  ghost function Seen(device: Device, index: u16, subIndex: byte, ca: bool, cnt: nat): Slave
    requires cnt <= 7
  {
    Slave((n: nat) => device.answer(Requests(index, subIndex, ca, cnt, n + 1)), device.expired)
  }

  function RequestedSub(ca: bool, subIndex: byte): byte {
    if ca && subIndex > 1 then 1 else subIndex
  }

  /** The answer to the upload request. */
  predicate InitOk(m: Mailbox, index: u16, sub: byte) {
    && InitSized(m) && Type(m) == MBXT_COE && Service(m) == SDORES
    && Index(m) == index && SubIndex(m) == sub && Specifier(m) == 2
  }

  /** An acceptable segment when `room` bytes are still missing. */
  predicate SegmentOk(m: Mailbox, toggle: bool, room: nat) {
    && Type(m) == MBXT_COE && Service(m) == SDORES && Specifier(m) == 0
    && SegmentSized(m) && Toggle(m) == toggle
    && SegmentSize(m) <= room && (SegmentSize(m) > 0 || Last(m))
  }

  /** The bytes the segments from exchange n on deliver, or None if the transfer fails. */
  function Segments(slave: Slave, n: nat, toggle: bool, room: nat): (r: Option<seq<byte>>)
    ensures r.Some? ==> |r.value| == room
    decreases room
  {
    var m := slave.exchange(n).mbx;
    if slave.expired(n) || !slave.exchange(n).Answered() || !SegmentOk(m, toggle, room) then None
    else if Last(m) then
      if SegmentSize(m) == room then Some(SegmentData(m)) else None
    else
      match Segments(slave, n + 1, !toggle, room - SegmentSize(m))
      case None => None
      case Some(rest) => Some(SegmentData(m) + rest)
  }

  /** The bytes a whole upload delivers into a buffer of `capacity` bytes. */
  function Upload(slave: Slave, index: u16, sub: byte, capacity: nat): (r: Option<seq<byte>>)
    ensures r.Some? ==> |r.value| <= capacity
  {
    var m := slave.exchange(0).mbx;
    if !slave.exchange(0).Answered() || !InitOk(m, index, sub) then None
    else if Expedited(m) then
      if ExpeditedSize(m) <= capacity then Some(ExpeditedData(m)) else None
    else if Announced(m) > capacity || Announced(m) >= 0x8000_0000 then None
    else if Length(m) - 10 < Announced(m) then
      match Segments(slave, 1, false, Announced(m) - (Length(m) - 10))
      case None => None
      case Some(rest) => Some(FirstData(m) + rest)
    else Some(FirstData(m))
  }

  class Master {
    var mbx_cnt: nat
    const device: Device

    constructor (device: Device)
      ensures this.device == device && mbx_cnt == 0
    {
      this.device, mbx_cnt := device, 0;
    }

    /** The fields of a request, under a new mailbox counter. */
    method PutRequest(m: array<byte>, command: byte, index: u16, subIndex: byte)
      requires m.Length == EC_MAXMBX + 1 && m[12..] == Zeros(EC_MAXMBX - 11) && mbx_cnt <= 7
      modifies m, this`mbx_cnt
      ensures mbx_cnt == NextCount(old(mbx_cnt)) && m[..] == UploadRequest(command, index, subIndex, mbx_cnt)
      ensures m[12..] == Zeros(EC_MAXMBX - 11)
    {
      PutWord(m, 0, 10);
      PutWord(m, 2, 0);
      m[4] := 0;
      mbx_cnt := NextCount(mbx_cnt);
      m[5] := MBXT_COE + mbx_cnt * 0x10;
      PutWord(m, 6, SDOREQ * 0x1000);
      m[8] := command;
      PutWord(m, 9, index);
      m[11] := subIndex;
      assert m[..] == m[..12] + m[12..];
    }

    /** Check one received segment and copy it behind the `psize` bytes already in place. */
    method TakeSegment(m: Mailbox, toggle: bool, p: array<byte>, size: nat, sdolen: nat, capacity: nat)
      returns (ok: bool, psize: nat)
      requires size <= sdolen <= capacity <= p.Length
      modifies p
      ensures ok == SegmentOk(m, toggle, sdolen - size) && (ok ==> SegmentSized(m))
      ensures if ok then
                psize == size + SegmentSize(m) <= sdolen && p[..] == old(p[..size]) + SegmentData(m) + old(p[psize..])
              else psize == size && p[..] == old(p[..])
    {
      ok, psize := false, size;
      if Type(m) == MBXT_COE && Service(m) == SDORES && Specifier(m) == 0 {
        if Length(m) < 3 || Length(m) > EC_MAXMBX - 6 || Toggle(m) != toggle { return; }
        var framedatasize := Length(m) - 3;
        if framedatasize == 7 && Last(m) {
          framedatasize := framedatasize - Command(m) / 2 % 8;
        }
        if framedatasize > capacity - size || framedatasize > sdolen - size || (framedatasize == 0 && !Last(m)) {
          return;
        }
        Copy(p, size, m[9..9 + framedatasize]);
        ok, psize := true, size + framedatasize;
      }
    }

    /** One turn of the segment loop: request, exchange, check, copy. */
    method Turn(out: array<byte>, asked: seq<Mailbox>, toggle: bool, p: array<byte>, size: nat, sdolen: nat,
                capacity: nat, index: u16, subIndex: byte, ghost ca: bool, ghost cnt: nat)
      returns (wkc: int, psize: nat, last: bool, requests: seq<Mailbox>)
      requires size <= sdolen <= capacity <= p.Length && out != p
      requires out.Length == EC_MAXMBX + 1 && out[12..] == Zeros(EC_MAXMBX - 11)
      requires cnt <= 7 && asked != [] && asked == Requests(index, subIndex, ca, cnt, |asked|)
      requires mbx_cnt == CountAfter(cnt, |asked|) && toggle == (|asked| % 2 == 0)
      modifies this`mbx_cnt, p, out
      ensures out[12..] == Zeros(EC_MAXMBX - 11)
      ensures requests == Requests(index, subIndex, ca, cnt, |requests|) && asked <= requests
      ensures mbx_cnt == CountAfter(cnt, |requests|) && |asked| <= |requests| <= |asked| + 1
      ensures wkc > 0 ==> |requests| == |asked| + 1
      ensures var s := Seen(device, index, subIndex, ca, cnt); var n := |asked|; var m := s.exchange(n).mbx;
              if !s.expired(n) && s.exchange(n).Answered() && SegmentOk(m, toggle, sdolen - size)
              then wkc > 0 && SegmentSized(m) && last == Last(m) && psize == size + SegmentSize(m) <= sdolen
                   && p[..] == old(p[..size]) + SegmentData(m) + old(p[psize..])
              else wkc <= 0 && !last && psize == size && p[..] == old(p[..])
    {
      hide SegmentOk, SegmentSize, SegmentData, UploadRequest, SegmentSized, Last;
      wkc, psize, last, requests := 0, size, false, asked;
      if device.expired(|asked|) { return; }
      PutRequest(out, SDO_SEG_UP_REQ + (if toggle then 0x10 else 0), index, subIndex);
      requests := asked + [out[..]];
      NextRequest(index, subIndex, ca, cnt, |asked|);
      var x := device.answer(requests);
      assert x == Seen(device, index, subIndex, ca, cnt).exchange(|asked|);
      wkc := x.sendWkc;
      if wkc > 0 {
        wkc := x.recvWkc;
        if wkc > 0 {
          var ok;
          ok, psize := TakeSegment(x.mbx, toggle, p, size, sdolen, capacity);
          last := ok && Last(x.mbx);
          if !ok {
            wkc := 0;
          }
        }
      }
    }

    /** The segment loop, entered with the first `size` of `sdolen` bytes in place. */
    method ReadSegments(out: array<byte>, p: array<byte>, size: nat, sdolen: nat, capacity: nat, index: u16,
                        subIndex: byte, asked: seq<Mailbox>, ghost ca: bool, ghost cnt: nat)
      returns (wkc: int, psize: nat, requests: seq<Mailbox>)
      requires size < sdolen <= capacity <= p.Length && out != p
      requires out.Length == EC_MAXMBX + 1 && out[12..] == Zeros(EC_MAXMBX - 11)
      requires cnt <= 7 && |asked| == 1 && asked == Requests(index, subIndex, ca, cnt, 1)
      requires mbx_cnt == CountAfter(cnt, 1)
      modifies this`mbx_cnt, p, out
      ensures p[..size] == old(p[..size]) && p[sdolen..] == old(p[sdolen..]) && psize <= sdolen
      ensures var r := Segments(Seen(device, index, subIndex, ca, cnt), 1, false, sdolen - size);
              && (wkc > 0 <==> r.Some?)
              && (r.Some? ==> psize == sdolen && p[size..sdolen] == r.value)
      ensures requests == Requests(index, subIndex, ca, cnt, |requests|) && |requests| <= sdolen - size + 2
      ensures mbx_cnt == CountAfter(cnt, |requests|) && requests != []
    {
      hide SegmentOk, SegmentSize, SegmentData, SegmentSized, Last, Requests, CountAfter, Seen, Pending, Segments;
      psize, requests, wkc := size, asked, 1;
      var notLast, toggle := true, false;
      ghost var slave := Seen(device, index, subIndex, ca, cnt);
      ghost var all := Segments(slave, 1, false, sdolen - size);
      PendingStart(slave, sdolen - size, p[size..psize]);
      while notLast && wkc > 0
        invariant size <= psize <= sdolen && requests != [] && out[12..] == Zeros(EC_MAXMBX - 11)
        invariant requests == Requests(index, subIndex, ca, cnt, |requests|) && mbx_cnt == CountAfter(cnt, |requests|)
        invariant p[..size] == old(p[..size]) && p[sdolen..] == old(p[sdolen..])
        invariant |requests| - 1 <= psize - size + if notLast && wkc > 0 then 0 else 1
        invariant toggle == (|requests| % 2 == 0) || !(notLast && wkc > 0)
        invariant notLast && wkc > 0 ==> Pending(slave, |requests|, toggle, sdolen - psize, p[size..psize], all)
        invariant notLast && wkc <= 0 ==> all == None
        invariant !notLast ==> wkc > 0 && all == if psize == sdolen then Some(p[size..psize]) else None
        decreases notLast && wkc > 0, sdolen - psize
      {
        var last, before, n := false, psize, |requests|;
        ghost var done := p[size..psize];
        wkc, psize, last, requests := Turn(out, requests, toggle, p, psize, sdolen, capacity, index, subIndex, ca, cnt);
        PendingStep(slave, n, toggle, sdolen - before, done, all);
        assert wkc > 0 ==>
          SegmentSized(slave.exchange(n).mbx) && p[size..psize] == done + SegmentData(slave.exchange(n).mbx);
        notLast := !last;
        toggle := !toggle;
      }
      if psize != sdolen {
        wkc := 0;
      }
    }

    /** ecx_SDOread. The upload succeeds exactly when `Upload` is defined, leaves exactly those bytes
        at the front of the buffer, and never writes past the capacity the caller gave. A slave that holds
        a value in the object asked for is read exactly. */
    method Read(index: u16, subIndex: byte, ca: bool, p: array<byte>, capacity: nat, ghost v: seq<byte>,
                ghost how: Transfer)
      returns (wkc: int, psize: nat, requests: seq<Mailbox>)
      requires capacity <= p.Length && capacity < 0x8000_0000 && mbx_cnt <= 7
      modifies this`mbx_cnt, p
      ensures mbx_cnt <= 7 && p[capacity..] == old(p[capacity..])
      ensures var r := Upload(Seen(device, index, RequestedSub(ca, subIndex), ca, old(mbx_cnt)), index,
                              RequestedSub(ca, subIndex), capacity);
              && (wkc > 0 <==> r.Some?)
              && (r.Some? ==> psize == |r.value| && p[..psize] == r.value && p[psize..] == old(p[psize..]))
      ensures requests == Requests(index, RequestedSub(ca, subIndex), ca, old(mbx_cnt), |requests|)
      ensures 1 <= |requests| <= capacity + 2
      ensures Holds(device, index, if ca && subIndex > 1 then 1 else subIndex, ca, v, how) && |v| <= capacity ==>
                wkc > 0 && psize == |v| && p[..psize] == v
    {
      hide SegmentOk, FirstData, ExpeditedData, ExpeditedSize, Segments, Holds, UploadRequest, Requests, CountAfter,
        InitSized, Seen, Expedited, Type, Service, Index, SubIndex, Specifier, Announced, Length, RequestedSub;
      psize := capacity;
      var sub := RequestedSub(ca, subIndex);
      ghost var cnt := mbx_cnt;
      SameSub(ca, subIndex);
      ghost var slave := Seen(device, index, sub, ca, cnt);
      if Holds(device, index, sub, ca, v, how) && |v| <= capacity {
        HeldIsRead(device, index, sub, ca, cnt, v, how, capacity);
      }
      FirstRequest(index, sub, ca, cnt);
      var out := new byte[EC_MAXMBX + 1](_ => 0);
      assert out[12..] == Zeros(EC_MAXMBX - 11);
      PutRequest(out, if ca then SDO_UP_REQ_CA else SDO_UP_REQ, index, sub);
      requests := [out[..]];
      var x := device.answer(requests);
      FirstSeen(device, index, sub, ca, cnt);
      var m := x.mbx;
      wkc := x.sendWkc;
      if wkc > 0 {
        wkc := x.recvWkc;
        if wkc > 0 {
          if InitSized(m) && Type(m) == MBXT_COE && Service(m) == SDORES && Index(m) == index && SubIndex(m) == sub
             && Specifier(m) == 2 {
            if Expedited(m) {
              if capacity >= ExpeditedSize(m) {
                Copy(p, 0, m[12..12 + ExpeditedSize(m)]);
                psize := ExpeditedSize(m);
                ExpeditedIs(m);
              } else {
                wkc := 0;
              }
            } else {
              wkc, psize, requests := ReadNormal(out, m, p, capacity, wkc, index, sub, requests, ca, cnt);
            }
          } else {
            wkc := 0;
          }
        }
      }
    }

    /** The answer is not expedited: all the data at once, or the first part of a segmented transfer. */
    method ReadNormal(out: array<byte>, m: Mailbox, p: array<byte>, capacity: nat, received: int, index: u16, sub: byte,
                      asked: seq<Mailbox>, ghost ca: bool, ghost cnt: nat)
      returns (wkc: int, psize: nat, requests: seq<Mailbox>)
      requires capacity <= p.Length && capacity < 0x8000_0000 && InitSized(m) && received > 0 && out != p
      requires out.Length == EC_MAXMBX + 1 && out[12..] == Zeros(EC_MAXMBX - 11)
      requires cnt <= 7 && |asked| == 1 && asked == Requests(index, sub, ca, cnt, 1)
      requires mbx_cnt == CountAfter(cnt, 1)
      modifies this`mbx_cnt, p, out
      ensures mbx_cnt <= 7 && p[capacity..] == old(p[capacity..])
      ensures var r := if Announced(m) > capacity then None
                       else if Length(m) - 10 >= Announced(m) then Some(FirstData(m))
                       else var rest := Segments(Seen(device, index, sub, ca, cnt), 1, false,
                                                 Announced(m) - (Length(m) - 10));
                            if rest.Some? then Some(FirstData(m) + rest.value) else None;
              && (wkc > 0 <==> r.Some?)
              && (r.Some? ==> psize == |r.value| && p[..psize] == r.value && p[psize..] == old(p[psize..]))
      ensures requests == Requests(index, sub, ca, cnt, |requests|) && 1 <= |requests| <= capacity + 2
    {
      hide Segments, Requests, CountAfter, Seen;
      wkc, psize, requests := received, capacity, asked;
      var sdolen := Announced(m);
      if sdolen < 0x8000_0000 && sdolen <= capacity {
        var framedatasize := Length(m) - 10;
        if framedatasize < sdolen {
          Copy(p, 0, m[16..16 + framedatasize]);
          ghost var before := p[..];
          wkc, psize, requests := ReadSegments(out, p, framedatasize, sdolen, capacity, index, sub, asked, ca, cnt);
          assert p[..sdolen] == p[..framedatasize] + p[framedatasize..sdolen];
          assert p[..framedatasize] == before[..framedatasize] == FirstData(m);
          assert before[sdolen..] == old(p[..])[sdolen..];
          assert p[capacity..] == p[sdolen..][capacity - sdolen..];
        } else {
          Copy(p, 0, m[16..16 + sdolen]);
          psize := sdolen;
        }
      } else {
        wkc := 0;
      }
    }
  }

  /** `all` is what was received so far followed by what the remaining exchanges deliver. */
  ghost predicate Pending(slave: Slave, n: nat, toggle: bool, room: nat, done: seq<byte>, all: Option<seq<byte>>) {
    var rest := Segments(slave, n, toggle, room);
    all == if rest.Some? then Some(done + rest.value) else None
  }

  lemma PendingStart(slave: Slave, room: nat, done: seq<byte>)
    requires done == []
    ensures Pending(slave, 1, false, room, done, Segments(slave, 1, false, room))
  {
    var all := Segments(slave, 1, false, room);
    assert all.Some? ==> done + all.value == all.value;
  }

  lemma PendingStep(slave: Slave, n: nat, toggle: bool, room: nat, done: seq<byte>, all: Option<seq<byte>>)
    requires Pending(slave, n, toggle, room, done, all)
    ensures var m := slave.exchange(n).mbx;
            if slave.expired(n) || !slave.exchange(n).Answered() || !SegmentOk(m, toggle, room) then all == None
            else if Last(m) then all == if SegmentSize(m) == room then Some(done + SegmentData(m)) else None
            else SegmentSize(m) > 0 && Pending(slave, n + 1, !toggle, room - SegmentSize(m), done + SegmentData(m), all)
  {
    var m := slave.exchange(n).mbx;
    if SegmentOk(m, toggle, room) && !Last(m) {
      var rest := Segments(slave, n + 1, !toggle, room - SegmentSize(m));
      if rest.Some? {
        assert done + (SegmentData(m) + rest.value) == done + SegmentData(m) + rest.value;
      }
    }
  }

  lemma ExpeditedIs(m: Mailbox)
    ensures ExpeditedData(m) == m[12..12 + ExpeditedSize(m)]
  {}

  /** The wire view of a segmented upload: from exchange n on the slave sends `parts`, one a segment,
      with alternating toggle, only the last one flagged as last and only that one possibly empty. */
  ghost predicate Sends(slave: Slave, n: nat, toggle: bool, parts: seq<seq<byte>>)
    decreases |parts|
  {
    var m := slave.exchange(n).mbx;
    && parts != []
    && !slave.expired(n) && slave.exchange(n).Answered()
    && Type(m) == MBXT_COE && Service(m) == SDORES && Specifier(m) == 0
    && SegmentSized(m) && Toggle(m) == toggle && SegmentData(m) == parts[0]
    && Last(m) == (|parts| == 1)
    && (|parts| > 1 ==> parts[0] != [] && Sends(slave, n + 1, !toggle, parts[1..]))
  }

  lemma {:induction false} SegmentsSound(slave: Slave, n: nat, toggle: bool, room: nat) returns (parts: seq<seq<byte>>)
    requires Segments(slave, n, toggle, room).Some?
    ensures Sends(slave, n, toggle, parts) && Concat(parts) == Segments(slave, n, toggle, room).value
    decreases room
  {
    var m := slave.exchange(n).mbx;
    if Last(m) {
      parts := [SegmentData(m)];
      assert parts[1..] == [];
    } else {
      var rest := SegmentsSound(slave, n + 1, !toggle, room - SegmentSize(m));
      parts := [SegmentData(m)] + rest;
      assert parts[1..] == rest;
    }
  }

  lemma {:induction false} SegmentsComplete(slave: Slave, n: nat, toggle: bool, room: nat, parts: seq<seq<byte>>)
    requires Sends(slave, n, toggle, parts) && |Concat(parts)| == room
    ensures Segments(slave, n, toggle, room) == Some(Concat(parts))
    decreases |parts|
  {
    if |parts| > 1 {
      SegmentsComplete(slave, n + 1, !toggle, room - |parts[0]|, parts[1..]);
    } else {
      assert parts[1..] == [];
      assert Concat(parts) == parts[0];
    }
  }

  lemma FirstLength(m: Mailbox)
    requires InitSized(m) && Length(m) - 10 < Announced(m)
    ensures |FirstData(m)| == Length(m) - 10 >= 0
  {}

  /** A segmented upload delivers `data` if and only if the slave sends it, in segments that continue
      the first answer, in exactly the announced length. */
  lemma SegmentedUploadIff(slave: Slave, index: u16, sub: byte, capacity: nat, data: seq<byte>)
    requires slave.exchange(0).Answered() && InitOk(slave.exchange(0).mbx, index, sub)
    requires var m := slave.exchange(0).mbx; !Expedited(m) && Length(m) - 10 < Announced(m) < 0x8000_0000
    ensures var m := slave.exchange(0).mbx;
            Upload(slave, index, sub, capacity) == Some(data) <==>
              && |data| == Announced(m) <= capacity
              && exists parts :: Sends(slave, 1, false, parts) && FirstData(m) + Concat(parts) == data
  {
    hide Type, Service, Index, SubIndex, Specifier, Announced, Length, Expedited, FirstData, Segments, Sends, Concat,
      InitSized;
    var m := slave.exchange(0).mbx;
    FirstLength(m);
    var first, room := FirstData(m), Announced(m) - (Length(m) - 10);
    if Upload(slave, index, sub, capacity) == Some(data) {
      var parts := SegmentsSound(slave, 1, false, room);
    }
    if |data| == Announced(m) <= capacity
       && exists parts :: Sends(slave, 1, false, parts) && first + Concat(parts) == data {
      var parts :| Sends(slave, 1, false, parts) && first + Concat(parts) == data;
      SegmentsComplete(slave, 1, false, room, parts);
    }
  }

  // ---- a slave that holds a value ----

  /** How a slave sends a value: in the answer itself, behind it, or in parts. */
  datatype Transfer = Small | Whole | InParts(first: seq<byte>, parts: seq<seq<byte>>)

  /** A request of this command for an object, byte by byte. */
  predicate Asks(m: Mailbox, command: byte, index: u16, sub: byte) {
    && m[0] == 10 && m[1] == 0 && m[5] % 16 == 3 && m[6] == 0 && m[7] == 0x20 && m[8] == command
    && m[9] == index % 256 && m[10] == index / 256 && m[11] == sub
  }

  /** What was asked: an upload of the object, then n segments with alternating toggle bits. */
  predicate AskedFor(asked: seq<Mailbox>, index: u16, sub: byte, ca: bool, n: nat) {
    && |asked| == n + 1 && Asks(asked[0], if ca then 0x50 else 0x40, index, sub)
    && forall k :: 1 <= k <= n ==> Asks(asked[k], if k % 2 == 1 then 0x60 else 0x70, index, sub)
  }

  /** The head of an answer about an object: a CoE SDO response of so many bytes. */
  predicate AnswerHead(m: Mailbox, length: nat, command: nat) {
    && m[0] as int + 256 * m[1] as int == length && m[5] % 16 == 3 && m[7] / 16 == 3 && m[8] / 32 == command
  }

  predicate About(m: Mailbox, index: u16, sub: byte) {
    m[9] == index % 256 && m[10] == index / 256 && m[11] == sub
  }

  /** Up to four bytes in the answer itself. */
  predicate SmallAnswer(m: Mailbox, index: u16, sub: byte, v: seq<byte>) {
    && 1 <= |v| <= 4 && AnswerHead(m, 10, 2) && About(m, index, sub)
    && m[8] / 2 % 2 == 1 && m[8] / 4 % 4 == 4 - |v| && m[12..12 + |v|] == v
  }

  /** The length of the value and its first bytes. */
  predicate FirstAnswer(m: Mailbox, index: u16, sub: byte, total: nat, first: seq<byte>) {
    && |first| <= 1470 && AnswerHead(m, 10 + |first|, 2) && About(m, index, sub) && m[8] / 2 % 2 == 0
    && m[12] as int + 0x100 * m[13] as int + 0x1_0000 * m[14] as int + 0x100_0000 * m[15] as int == total
    && m[16..16 + |first|] == first
  }

  /** One more part; fewer than seven bytes are padded, and the last segment says how many are unused. */
  predicate SegmentAnswer(m: Mailbox, toggle: bool, part: seq<byte>, last: bool) {
    && |part| <= 1477 && (|part| >= 7 || last)
    && AnswerHead(m, if |part| < 7 then 10 else 3 + |part|, 0)
    && m[8] / 16 % 2 == (if toggle then 1 else 0) && m[8] % 2 == (if last then 1 else 0)
    && (last && |part| <= 7 ==> m[8] / 2 % 8 == 7 - |part|)
    && m[9..9 + |part|] == part
  }

  /** A slave that holds v in an object: whoever asks for it properly gets it, in one of the three ways. */
  ghost predicate Holds(device: Device, index: u16, sub: byte, ca: bool, v: seq<byte>, how: Transfer) {
    && (forall n :: !device.expired(n))
    && match how
       case Small => forall asked :: AskedFor(asked, index, sub, ca, 0) ==>
         device.answer(asked).Answered() && SmallAnswer(device.answer(asked).mbx, index, sub, v)
       case Whole => forall asked :: AskedFor(asked, index, sub, ca, 0) ==>
         device.answer(asked).Answered() && FirstAnswer(device.answer(asked).mbx, index, sub, |v|, v)
       case InParts(first, parts) =>
         && parts != [] && v == first + Concat(parts) && |first| < |v|
         && (forall k :: 0 <= k < |parts| - 1 ==> parts[k] != [])
         && (forall asked :: AskedFor(asked, index, sub, ca, 0) ==>
               device.answer(asked).Answered() && FirstAnswer(device.answer(asked).mbx, index, sub, |v|, first))
         && (forall asked, n: nat :: n < |parts| && AskedFor(asked, index, sub, ca, n + 1) ==>
               && device.answer(asked).Answered()
               && SegmentAnswer(device.answer(asked).mbx, n % 2 == 1, parts[n], n == |parts| - 1))
  }

  lemma FirstRequest(index: u16, sub: byte, ca: bool, cnt: nat)
    requires cnt <= 7
    ensures CountAfter(cnt, 1) == NextCount(cnt) <= 7
    ensures Requests(index, sub, ca, cnt, 1) ==
            [UploadRequest(if ca then SDO_UP_REQ_CA else SDO_UP_REQ, index, sub, NextCount(cnt))]
  {
    hide UploadRequest;
    assert CountAfter(cnt, 0) == cnt;
    assert Requests(index, sub, ca, cnt, 0) == [];
  }

  lemma FirstSeen(device: Device, index: u16, sub: byte, ca: bool, cnt: nat)
    requires cnt <= 7
    ensures Seen(device, index, sub, ca, cnt).exchange(0) == device.answer(Requests(index, sub, ca, cnt, 1))
  {}

  lemma SameSub(ca: bool, subIndex: byte)
    ensures RequestedSub(ca, subIndex) == if ca && subIndex > 1 then 1 else subIndex
  {}

  lemma NextRequest(index: u16, sub: byte, ca: bool, cnt: nat, n: nat)
    requires cnt <= 7 && n > 0
    ensures CountAfter(cnt, n + 1) == NextCount(CountAfter(cnt, n)) <= 7
    ensures Requests(index, sub, ca, cnt, n + 1) ==
            Requests(index, sub, ca, cnt, n)
            + [UploadRequest(SDO_SEG_UP_REQ + if n % 2 == 0 then 0x10 else 0, index, sub, CountAfter(cnt, n + 1))]
  {
    hide UploadRequest;
  }

  lemma RequestAsks(command: byte, index: u16, sub: byte, count: nat)
    requires count <= 7
    ensures Asks(UploadRequest(command, index, sub, count), command, index, sub)
  {}

  lemma {:induction false} RequestAt(index: u16, sub: byte, ca: bool, cnt: nat, n: nat, k: nat)
    requires cnt <= 7 && k < n
    ensures Asks(Requests(index, sub, ca, cnt, n)[k], RequestCommand(ca, k), index, sub)
  {
    hide UploadRequest, Asks, CountAfter, RequestCommand;
    if k == n - 1 {
      RequestAsks(RequestCommand(ca, k), index, sub, CountAfter(cnt, n));
    } else {
      RequestAt(index, sub, ca, cnt, n - 1, k);
    }
  }

  /** The master asks properly. */
  lemma RequestsAsk(index: u16, sub: byte, ca: bool, cnt: nat, n: nat)
    requires cnt <= 7
    ensures AskedFor(Requests(index, sub, ca, cnt, n + 1), index, sub, ca, n)
  {
    hide Requests, Asks;
    forall k: nat | k <= n
      ensures Asks(Requests(index, sub, ca, cnt, n + 1)[k], RequestCommand(ca, k), index, sub)
    {
      RequestAt(index, sub, ca, cnt, n + 1, k);
    }
    var asked := Requests(index, sub, ca, cnt, n + 1);
    assert Asks(asked[0], RequestCommand(ca, 0), index, sub);
    forall k | 1 <= k <= n ensures Asks(asked[k], if k % 2 == 1 then 0x60 else 0x70, index, sub) {
      assert Asks(asked[k], RequestCommand(ca, k), index, sub);
    }
  }

  lemma SmallMeans(m: Mailbox, index: u16, sub: byte, v: seq<byte>)
    requires SmallAnswer(m, index, sub, v)
    ensures InitOk(m, index, sub) && Expedited(m) && ExpeditedSize(m) == |v| && ExpeditedData(m) == v
  {}

  lemma FirstMeans(m: Mailbox, index: u16, sub: byte, total: nat, first: seq<byte>)
    requires FirstAnswer(m, index, sub, total, first) && |first| <= total
    ensures InitOk(m, index, sub) && !Expedited(m) && Announced(m) == total && Length(m) - 10 == |first|
    ensures FirstData(m) == first
  {}

  lemma SegmentMeans(m: Mailbox, toggle: bool, part: seq<byte>, last: bool)
    requires SegmentAnswer(m, toggle, part, last)
    ensures Type(m) == MBXT_COE && Service(m) == SDORES && Specifier(m) == 0 && SegmentSized(m)
    ensures Toggle(m) == toggle && Last(m) == last && SegmentData(m) == part
  {}

  lemma {:induction false} PartsSent(device: Device, index: u16, sub: byte, ca: bool, cnt: nat, v: seq<byte>,
                                     first: seq<byte>, parts: seq<seq<byte>>, n: nat)
    requires cnt <= 7 && Holds(device, index, sub, ca, v, InParts(first, parts)) && n < |parts|
    ensures Sends(Seen(device, index, sub, ca, cnt), n + 1, n % 2 == 1, parts[n..])
    decreases |parts| - n
  {
    hide SegmentAnswer, FirstAnswer, AskedFor, Type, Service, Specifier, SegmentSized, Toggle, SegmentData, Last,
      Concat, Requests;
    var asked := Requests(index, sub, ca, cnt, n + 2);
    RequestsAsk(index, sub, ca, cnt, n + 1);
    SegmentMeans(device.answer(asked).mbx, n % 2 == 1, parts[n], n == |parts| - 1);
    if n < |parts| - 1 {
      PartsSent(device, index, sub, ca, cnt, v, first, parts, n + 1);
      assert parts[n..][1..] == parts[n + 1..];
    }
  }

  /** What a slave holds is what the upload delivers. */
  lemma HeldIsRead(device: Device, index: u16, sub: byte, ca: bool, cnt: nat, v: seq<byte>, how: Transfer,
                   capacity: nat)
    requires cnt <= 7 && Holds(device, index, sub, ca, v, how) && |v| <= capacity < 0x8000_0000
    ensures Upload(Seen(device, index, sub, ca, cnt), index, sub, capacity) == Some(v)
  {
    hide SmallAnswer, FirstAnswer, SegmentAnswer, AskedFor, InitOk, Expedited, ExpeditedSize, ExpeditedData, Announced,
      FirstData, Length, Segments, Concat, Requests;
    RequestsAsk(index, sub, ca, cnt, 0);
    var m := device.answer(Requests(index, sub, ca, cnt, 1)).mbx;
    match how
    case Small => SmallMeans(m, index, sub, v);
    case Whole => FirstMeans(m, index, sub, |v|, v);
    case InParts(first, parts) =>
      FirstMeans(m, index, sub, |v|, first);
      PartsSent(device, index, sub, ca, cnt, v, first, parts, 0);
      assert parts[0..] == parts;
      SegmentsComplete(Seen(device, index, sub, ca, cnt), 1, false, |v| - |first|, parts);
  }
}
