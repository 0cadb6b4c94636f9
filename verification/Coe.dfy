/** The CoE mailbox layout and the size rules both SDO directions share (ec_SDOt in SOEM). */
module Coe {
  import opened Bytes

  const EC_MAXMBX := 1486
  const MBXT_COE := 3
  const SDOREQ := 2
  const SDORES := 3
  const SDO_DOWN_INIT := 0x21
  const SDO_DOWN_EXP := 0x23
  const SDO_DOWN_INIT_CA := 0x31
  const SDO_UP_REQ := 0x40
  const SDO_UP_REQ_CA := 0x50
  const SDO_SEG_UP_REQ := 0x60

  datatype Option<+T> = None | Some(value: T)

  function Word(m: seq<byte>, at: nat): u16
    requires at + 2 <= |m|
  {
    m[at] as int + m[at + 1] as int * 0x100
  }

  function Long(m: seq<byte>, at: nat): u32
    requires at + 4 <= |m|
  {
    m[at] as int + m[at + 1] as int * 0x100 + m[at + 2] as int * 0x1_0000 + m[at + 3] as int * 0x100_0000
  }

  /** A mailbox buffer as the master holds it: mailbox header (6), CANopen header (2), SDO command,
      index, subindex and data. */
  type Mailbox = m: seq<byte> | |m| == EC_MAXMBX + 1 witness Zeros(EC_MAXMBX + 1)

  function Length(m: Mailbox): u16 { Word(m, 0) }
  function Type(m: Mailbox): nat { m[5] % 0x10 }
  function Counter(m: Mailbox): nat { m[5] / 0x10 % 8 }
  function Service(m: Mailbox): nat { Word(m, 6) / 0x1000 }
  function Command(m: Mailbox): byte { m[8] }
  function Index(m: Mailbox): u16 { Word(m, 9) }
  function SubIndex(m: Mailbox): byte { m[11] }

  /** Command specifier: the top three bits. */
  function Specifier(m: Mailbox): nat { Command(m) / 0x20 }
  predicate Toggle(m: Mailbox) { Command(m) / 0x10 % 2 == 1 }
  predicate Last(m: Mailbox) { Command(m) % 2 == 1 }

  predicate SizeIndicated(m: Mailbox) { Command(m) % 2 == 1 }

  /** The header of the first frame of a download, with its size. */
  predicate DownloadHeader(m: Mailbox) {
    && Type(m) == MBXT_COE && Service(m) == SDOREQ && Specifier(m) == 1 && SizeIndicated(m)
    && 10 <= Length(m)
  }

  predicate DownloadRequest(m: Mailbox) {
    DownloadHeader(m) && Length(m) <= EC_MAXMBX - 6
  }

  // Expedited transfers: up to four bytes behind the subindex.
  predicate Expedited(m: Mailbox) { Command(m) / 2 % 2 == 1 }
  function ExpeditedSize(m: Mailbox): (n: nat)
    ensures 1 <= n <= 4
  {
    4 - Command(m) / 4 % 4
  }
  function ExpeditedData(m: Mailbox): seq<byte> { m[12..12 + ExpeditedSize(m)] }

  // Normal transfers: announced size, then as much data as the mailbox length leaves.
  predicate InitSized(m: Mailbox) { 10 <= Length(m) <= EC_MAXMBX - 6 }
  function Announced(m: Mailbox): u32 { Long(m, 12) }
  function FirstData(m: Mailbox): seq<byte>
    requires InitSized(m)
  {
    m[16..16 + if Length(m) - 10 < Announced(m) then Length(m) - 10 else Announced(m)]
  }

  // Segments: at least seven octets, of which the last segment may leave some unused.
  predicate SegmentSized(m: Mailbox) { 3 <= Length(m) <= EC_MAXMBX - 6 }
  function SegmentSize(m: Mailbox): (n: nat)
    requires SegmentSized(m)
    ensures 9 + n <= EC_MAXMBX
  {
    var n := Length(m) - 3;
    if n == 7 && Last(m) then n - Command(m) / 2 % 8 else n
  }
  function SegmentData(m: Mailbox): (d: seq<byte>)
    requires SegmentSized(m)
    ensures |d| == SegmentSize(m)
  {
    m[9..9 + SegmentSize(m)]
  }

  function NextCount(cnt: nat): nat {
    if cnt + 1 > 7 then 1 else cnt + 1
  }

  /** The mailbox counter after n more mailboxes. */
  function CountAfter(cnt: nat, n: nat): (c: nat)
    ensures cnt <= 7 ==> c <= 7
  {
    if n == 0 then cnt else NextCount(CountAfter(cnt, n - 1))
  }

  method PutWord(m: array<byte>, at: nat, w: u16)
    requires at + 2 <= m.Length
    modifies m
    ensures m[..] == old(m[..])[at := w % 0x100][at + 1 := w / 0x100]
  {
    m[at] := w % 0x100;
    m[at + 1] := w / 0x100;
  }

  /** memcpy. */
  method Copy(m: array<byte>, at: nat, data: seq<byte>)
    requires at + |data| <= m.Length
    modifies m
    ensures m[..] == old(m[..at]) + data + old(m[at + |data|..])
  {
    forall k | 0 <= k < |data| {
      m[at + k] := data[k];
    }
  }

  function Concat(parts: seq<seq<byte>>): seq<byte> {
    if parts == [] then [] else parts[0] + Concat(parts[1..])
  }
}
