/** What the frame decoder shows of any EtherCAT mailbox, field by field (section 5.6 of ETG.1000.6). */
module MailboxMeaning {
  import opened Bytes
  import opened Coe
  import opened MailboxDecode

  /** The header of a mailbox; the top bit of its last byte is reserved. */
  function Header(length: u16, address: u16, channel: nat, priority: nat, kind: nat, counter: nat, reserved: nat)
    : (h: seq<byte>)
    requires channel < 64 && priority < 4 && kind < 16 && counter < 8 && reserved < 2
    ensures |h| == 6
  {
    [length % 256, length / 256, address % 256, address / 256, channel + 64 * priority,
     kind + 16 * counter + 128 * reserved]
  }

  lemma HeaderBits(length: u16, address: u16, channel: nat, priority: nat, kind: nat, counter: nat, reserved: nat)
    requires channel < 64 && priority < 4 && kind < 16 && counter < 8 && reserved < 2
    ensures length % 256 + length / 256 * 256 == length && address % 256 + address / 256 * 256 == address
    ensures var b := channel + 64 * priority; b % 64 == channel && b / 64 == priority
    ensures var b := kind + 16 * counter + 128 * reserved; b % 16 == kind && b / 16 % 8 == counter
  {}

  /** A mailbox with its payload, whatever follows it. */
  lemma MailboxMeans(address: u16, channel: nat, priority: nat, kind: nat, counter: nat, reserved: nat,
                     payload: seq<byte>, rest: seq<byte>)
    requires channel < 64 && priority < 4 && kind < 16 && counter < 8 && reserved < 2 && |payload| < 0x1_0000
    ensures Decode(Header(|payload|, address, channel, priority, kind, counter, reserved) + payload + rest) ==
            Decoded.Mailbox(kind, |payload|, address, channel, priority, counter, payload,
                            if kind == 3 && |payload| >= 2 then CoeBody(payload) else NotCoe)
  {
    hide CoeBody;
    var h := Header(|payload|, address, channel, priority, kind, counter, reserved);
    HeaderBits(|payload|, address, channel, priority, kind, counter, reserved);
    var data := h + payload + rest;
    assert data[..6] == h && data[6..6 + |payload|] == payload;
    assert data[0] == h[0] && data[1] == h[1] && data[2] == h[2];
    assert data[3] == h[3] && data[4] == h[4] && data[5] == h[5];
  }

  /** A mailbox that is cut off. */
  lemma CutOff(data: seq<byte>)
    ensures Decode(data) == HeaderTruncated <==> |data| < 6
    ensures Decode(data) == PayloadTruncated <==> |data| >= 6 && data[0] as int + 256 * data[1] as int > |data| - 6
  {}

  /** The CoE header: nine bits of number, three reserved, four of service. Services 2 and 3 are SDO requests and
      responses. */
  lemma CoeMeans(service: nat, number: nat, reserved: nat, body: seq<byte>)
    requires service < 16 && number < 512 && reserved < 8
    ensures var payload: seq<byte> := [number % 256, number / 256 + 2 * reserved + 16 * service] + body;
            CoeBody(payload) == if (service == 2 || service == 3) && body != [] then
                                  CoeSdo(service, number, SdoOf(service, payload))
                                else CoeOnly(service, number)
  {
    hide SdoOf;
    var header := number % 256 + (number / 256 + 2 * reserved + 16 * service) * 256;
    assert header == number + 512 * reserved + 4096 * service;
    assert header / 4096 == service && header % 512 == number;
  }

  function Little(b: seq<byte>, at: nat): nat
    requires at + 4 <= |b|
  {
    b[at] as int + 256 * b[at + 1] as int + 65536 * b[at + 2] as int + 16777216 * b[at + 3] as int
  }

  /** Commands that name an object: aborts (4), download and upload requests (1 and 2), upload and download responses
      (2 and 3). */
  predicate NamesObject(service: nat, command: nat) {
    command == 4 || (service == 2 && 1 <= command <= 2) || (service == 3 && 2 <= command <= 3)
  }

  /** An SDO: its object if it names one, the code of an abort, and what a download request or an upload response
      carries: the value of an expedited transfer, the size of a normal one if it is indicated. */
  lemma SdoMeans(service: nat, p: seq<byte>)
    requires |p| >= 3
    ensures var s, h := SdoOf(service, p), p[2]; var command := h / 32;
            && s.command == command && s.header == h
            && (s.Indexed? <==> |p| >= 6 && NamesObject(service, command))
            && (s.Segmented? ==> s.segment == Segment(h / 16 % 2 == 1, h % 2 == 1, p[3..]))
            && (s.Indexed? ==>
                  var t := s.target;
                  var carries := |p| >= 10 && ((service == 2 && command == 1) || (service == 3 && command == 2));
                  && t.index == p[3] as int + 256 * p[4] as int && t.subIndex == p[5]
                  && t.abortCode == (if |p| >= 10 && command == 4 then Some(Little(p, 6)) else None)
                  && t.expedited == (if carries then Some(h / 2 % 2 == 1) else None)
                  && t.valueBytes == (if carries && h / 2 % 2 == 1 then
                                        Some(p[6..if h % 2 == 1 then 10 - h / 4 % 4 else 10])
                                      else None)
                  && t.totalSize == (if carries && h / 2 % 2 == 0 && h % 2 == 1 then Some(Little(p, 6)) else None))
  {}
}
