/** The frame decoder's view of a CoE mailbox (mailbox in src/ethercat.rs) against the rules by which
    the master itself reads and writes SDO mailboxes (native/soem/soem/ethercatcoe.c). */
module MailboxDecode {
  import opened Bytes
  import opened Coe
  import SdoDownload

  datatype Segment = Segment(toggle: bool, last: bool, raw: seq<byte>)

  datatype Addressed = Addressed(index: u16, subIndex: byte, abortCode: Option<u32>, expedited: Option<bool>,
                                 valueBytes: Option<seq<byte>>, totalSize: Option<u32>)

  datatype Sdo = Indexed(command: nat, header: byte, target: Addressed)
    | Segmented(command: nat, header: byte, segment: Segment)

  datatype Body = NotCoe | CoeOnly(service: nat, number: nat) | CoeSdo(service: nat, number: nat, sdo: Sdo)

  datatype Decoded = HeaderTruncated | PayloadTruncated
    | Mailbox(kind: nat, length: u16, address: u16, channel: nat, priority: nat, counter: nat, payload: seq<byte>,
              body: Body)

  /** mailbox: the six-byte header, then the payload by protocol. */
  function Decode(data: seq<byte>): Decoded {
    if |data| < 6 then HeaderTruncated
    else
      var len := Word(data, 0);
      if len > |data| - 6 then PayloadTruncated
      else
        var kind, payload := data[5] % 0x10, data[6..6 + len];
        Decoded.Mailbox(kind, len, Word(data, 2), data[4] % 0x40, data[4] / 0x40, data[5] / 0x10 % 8, payload,
                        if kind == MBXT_COE && len >= 2 then CoeBody(payload) else NotCoe)
  }

  function CoeBody(payload: seq<byte>): Body
    requires |payload| >= 2
  {
    var header := Word(payload, 0);
    var service, number := header / 0x1000, header % 0x200;
    if (service == SDOREQ || service == SDORES) && |payload| >= 3 then CoeSdo(service, number, SdoOf(service, payload))
    else CoeOnly(service, number)
  }

  /** Whether a command carries an index; the others are segments. */
  predicate HasIndex(service: nat, command: nat) {
    || command == 4
    || (service == SDOREQ && (command == 1 || command == 2))
    || (service == SDORES && (command == 2 || command == 3))
  }

  function SdoOf(service: nat, payload: seq<byte>): Sdo
    requires |payload| >= 3
  {
    var h := payload[2];
    var command := h / 0x20;
    if HasIndex(service, command) && |payload| >= 6 then Indexed(command, h, AddressedOf(service, payload))
    else Segmented(command, h, Segment(h / 0x10 % 2 == 1, h % 2 == 1, payload[3..]))
  }

  function AddressedOf(service: nat, payload: seq<byte>): Addressed
    requires |payload| >= 6
  {
    var h := payload[2];
    var command := h / 0x20;
    var target := Addressed(Word(payload, 3), payload[5], None, None, None, None);
    if command == 4 && |payload| >= 10 then target.(abortCode := Some(Long(payload, 6)))
    else if Initiates(service, command) && |payload| >= 10 then
      if h / 2 % 2 == 1 then
        var n := if h % 2 == 1 then 4 - h / 4 % 4 else 4;
        target.(expedited := Some(true), valueBytes := Some(payload[6..6 + n]))
      else target.(expedited := Some(false), totalSize := if h % 2 == 1 then Some(Long(payload, 6)) else None)
    else target
  }

  /** A download request, or the response that starts an upload. */
  predicate Initiates(service: nat, command: nat) {
    (service == SDOREQ && command == 1) || (service == SDORES && command == 2)
  }

  /** A mailbox of the master that starts a transfer. */
  predicate Initiate(m: Coe.Mailbox) {
    && Type(m) == MBXT_COE && 10 <= Length(m) <= EC_MAXMBX - 6 && Initiates(Service(m), Specifier(m))
  }

  predicate Shown(d: Decoded) {
    d.Mailbox? && d.body.CoeSdo?
  }

  /** The decoder shows the mailbox counter, service, command, index and subindex the master uses. */
  lemma HeaderAgrees(m: Coe.Mailbox)
    requires Initiate(m)
    ensures Shown(Decode(m)) && Decode(m).body.sdo.Indexed?
    ensures var d := Decode(m);
            (&& d.length == Length(m) && d.counter == Counter(m) && d.body.service == Service(m)
             && d.body.sdo.command == Specifier(m) && d.body.sdo.target.index == Index(m)
             && d.body.sdo.target.subIndex == SubIndex(m) && d.body.sdo.target.expedited == Some(Expedited(m)))
  {
    PayloadAt(m);
  }

  lemma PayloadAt(m: Coe.Mailbox)
    requires Length(m) <= EC_MAXMBX - 6
    ensures var p := m[6..6 + Length(m)]; |p| == Length(m) && forall k :: 0 <= k < |p| ==> p[k] == m[6 + k]
  {}

  /** The decoder shows what the master transfers - the value of an expedited transfer, the total size
      of a normal one - exactly when the size is indicated, or four bytes are expedited: the master's
      own rule does not look at the size bit. */
  lemma TransferShownIff(m: Coe.Mailbox)
    requires Initiate(m)
    ensures Shown(Decode(m)) && Decode(m).body.sdo.Indexed?
    ensures var t := Decode(m).body.sdo.target;
            if Expedited(m) then
              t.valueBytes == Some(ExpeditedData(m)) <==> SizeIndicated(m) || ExpeditedSize(m) == 4
            else
              t.totalSize == Some(Announced(m)) <==> SizeIndicated(m)
  {
    PayloadAt(m);
    var p := m[6..6 + Length(m)];
    if Expedited(m) {
      var n := if Command(m) % 2 == 1 then ExpeditedSize(m) else 4;
      assert p[6..6 + n] == m[12..12 + n];
      assert |ExpeditedData(m)| == ExpeditedSize(m);
    }
  }

  /** The first frame of every download the master writes is shown with its counter, its object, and
      its value or its size. */
  lemma DownloadShown(m: Coe.Mailbox)
    requires DownloadRequest(m)
    ensures Shown(Decode(m)) && Decode(m).body.sdo.Indexed?
    ensures Decode(m).counter == Counter(m) && Decode(m).body.service == SDOREQ
    ensures var t := Decode(m).body.sdo.target;
            (&& t.index == Index(m) && t.subIndex == SubIndex(m) && t.expedited == Some(Expedited(m))
             && if Expedited(m) then t.valueBytes == Some(ExpeditedData(m)) else t.totalSize == Some(Announced(m)))
  {
    hide Decode;
    HeaderAgrees(m);
    TransferShownIff(m);
  }

  /** One segment as the decoder shows it. */
  predicate SegmentShown(m: Coe.Mailbox, toggle: bool, last: bool, data: seq<byte>) {
    var d := Decode(m);
    && Shown(d) && d.body.sdo.Segmented?
    && d.body.sdo.segment.toggle == toggle && d.body.sdo.segment.last == last && data <= d.body.sdo.segment.raw
  }

  lemma OneSegmentShown(m: Coe.Mailbox, toggle: bool, last: bool)
    requires SdoDownload.SegmentOk(m, toggle, last)
    ensures SegmentShown(m, toggle, last, SegmentData(m))
  {
    PayloadAt(m);
    var p := m[6..6 + Length(m)];
    assert p[3..] == m[9..6 + Length(m)];
  }

  /** The segments of a whole download, as the decoder shows them: toggles alternate from clear, only
      the final one is the last, and cutting each one's raw bytes to the size it carries gives back
      the data of the download. */
  lemma {:induction false} SegmentsShown(segs: seq<Coe.Mailbox>, closed: bool) returns (parts: seq<seq<byte>>)
    requires SdoDownload.SegmentsOk(segs, closed)
    ensures |parts| == |segs| && SdoDownload.Flat(parts) == SdoDownload.Joined(segs)
    ensures forall k :: 0 <= k < |segs| ==>
              parts[k] != [] && SegmentShown(segs[k], k % 2 == 1, closed && k == |segs| - 1, parts[k])
  {
    hide Decode, SegmentSize, SegmentData, SegmentShown, SegmentSized;
    if segs == [] {
      return [];
    }
    var n := |segs| - 1;
    var m := segs[n];
    SdoDownload.Shorter(segs, closed);
    var before := SegmentsShown(segs[..n], false);
    parts := before + [SegmentData(m)];
    assert parts[..n] == before;
    forall k | 0 <= k < |segs|
      ensures parts[k] != [] && SegmentShown(segs[k], k % 2 == 1, closed && k == |segs| - 1, parts[k])
    {
      if k == n {
        OneSegmentShown(m, n % 2 == 1, closed);
      } else {
        assert segs[..n][k] == segs[k];
      }
    }
  }
}
