/** SDO download (ecx_SDOwrite): expedited, normal and segmented; section 5.6.2 of ETG.1000.6. */
module SdoDownload {
  import opened Bytes
  import opened Coe

  /** What the slave does with the n-th frame: work counters, and whether it acknowledges it. */
  datatype Answer = Answer(sendWkc: int, recvWkc: int, accepted: bool) {
    predicate Ok() { sendWkc > 0 && recvWkc > 0 && accepted }

    predicate Refuses() { sendWkc > 0 && recvWkc > 0 && !accepted }
  }

  /** No exchange was answered by a refusal; a lost one is not noticed. */
  ghost predicate NoneRefused(answers: nat -> Answer, from: nat, to: nat) {
    forall k :: from <= k < to ==> !answers(k).Refuses()
  }

  /** A frame the master sent carries these header fields. */
  predicate Header(f: Mailbox, command: byte) {
    && Type(f) == MBXT_COE && Service(f) == SDOREQ && Command(f) == command
    && Word(f, 2) == 0 && f[4] == 0
  }

  predicate Addressed(f: Mailbox, index: u16, subIndex: byte) {
    Index(f) == index && SubIndex(f) == subIndex
  }

  /** Segments in order: alternating toggle, non-empty, `last` on the final one only if `closed`. */
  predicate SegmentsOk(segs: seq<Mailbox>, closed: bool) {
    forall k :: 0 <= k < |segs| ==> SegmentOk(segs[k], k % 2 == 1, closed && k == |segs| - 1)
  }

  predicate SegmentOk(m: Mailbox, toggle: bool, last: bool) {
    && Type(m) == MBXT_COE && Service(m) == SDOREQ && Specifier(m) == 0
    && SegmentSized(m) && SegmentSize(m) > 0 && Toggle(m) == toggle && Last(m) == last
  }

  /** The bytes the segments carry, by the size rules of the upload side. */
  function Joined(segs: seq<Mailbox>): seq<byte>
    requires forall m :: m in segs ==> SegmentSized(m)
  {
    if segs == [] then [] else Joined(segs[..|segs| - 1]) + SegmentData(segs[|segs| - 1])
  }

  function Flat(parts: seq<seq<byte>>): seq<byte> {
    if parts == [] then [] else Flat(parts[..|parts| - 1]) + parts[|parts| - 1]
  }

  lemma Shorter(segs: seq<Mailbox>, closed: bool)
    requires SegmentsOk(segs, closed) && segs != []
    ensures SegmentsOk(segs[..|segs| - 1], false)
    ensures SegmentOk(segs[|segs| - 1], |segs| % 2 == 0, closed)
  {
    var front := segs[..|segs| - 1];
    forall k | 0 <= k < |front| ensures SegmentOk(front[k], k % 2 == 1, false && k == |front| - 1) {
      assert SegmentOk(segs[k], k % 2 == 1, closed && k == |segs| - 1);
    }
  }

  /** What a slave that applies those rules makes of the frames of one download. */
  function Decode(frames: seq<Mailbox>): Option<seq<byte>> {
    if frames == [] || Specifier(frames[0]) != 1 then None
    else if Expedited(frames[0]) then
      if |frames| == 1 then Some(ExpeditedData(frames[0])) else None
    else if !InitSized(frames[0]) || !SegmentsOk(frames[1..], true) then None
    else
      var data := FirstData(frames[0]) + Joined(frames[1..]);
      if |data| == Announced(frames[0]) then Some(data) else None
  }

  // ---- the first copy ----

  /** The part of the data in the first frame of a normal transfer, a 16-bit number: a mailbox of fewer
      than 16 bytes makes maxdata negative. */
  function FirstPart(size: u16, mbx_l: u16): u16 {
    var maxdata := mbx_l - 0x10;
    if size > maxdata then maxdata % 0x1_0000 else size
  }

  /** The mailboxes for which it stays inside the buffer, to whose offset 16 it is copied. */
  predicate CopyInside(size: u16, mbx_l: u16) {
    mbx_l >= 16 && (mbx_l <= EC_MAXMBX + 1 || 16 + size <= EC_MAXMBX + 1)
  }

  /** The source copies before ecx_mbxsend checks the mailbox: it is exact that this is inside. */
  lemma FirstCopyInsideIff(size: u16, mbx_l: u16)
    ensures 16 + FirstPart(size, mbx_l) <= EC_MAXMBX + 1 <==> CopyInside(size, mbx_l)
  {
    if mbx_l < 16 {
      assert (mbx_l - 0x10) % 0x1_0000 == mbx_l - 0x10 + 0x1_0000;
    }
  }

  /** A mailbox of 2000 bytes takes 1984 of 4096 bytes in the first frame, and the buffer 1471. */
  lemma LargeMailboxOverruns()
    ensures FirstPart(4096, 2000) == 1984 && 16 + 1984 > EC_MAXMBX + 1 && !CopyInside(4096, 2000)
  {}

  // ---- the frames byte by byte ----

  /** A CoE SDO request of so many bytes. */
  predicate FrameHead(m: Mailbox, length: nat, command: byte, count: nat) {
    && m[0] as int == length % 256 && m[1] as int == length / 256 && m[2] == m[3] == m[4] == 0
    && m[5] as int == 3 + 16 * count && m[6] == 0 && m[7] == 0x20 && m[8] == command
  }

  predicate About(m: Mailbox, index: u16, sub: byte) {
    m[9] == index % 256 && m[10] == index / 256 && m[11] == sub
  }

  /** Up to four bytes in the request itself. */
  predicate SmallFrame(m: Mailbox, index: u16, sub: byte, v: seq<byte>, count: nat) {
    |v| <= 4 && FrameHead(m, 10, 0x23 + 4 * ((4 - |v|) % 4), count) && About(m, index, sub) && m[12..12 + |v|] == v
  }

  /** The size and the first bytes; complete access has its own command. */
  predicate FirstFrame(m: Mailbox, index: u16, sub: byte, ca: bool, total: nat, first: seq<byte>, count: nat) {
    && |first| <= EC_MAXMBX - 15 && FrameHead(m, 10 + |first|, if ca then 0x31 else 0x21, count) && About(m, index, sub)
    && m[12] as int == total % 256 && m[13] as int == total / 256 && m[14] == m[15] == 0
    && m[16..16 + |first|] == first
  }

  /** One part; the last one says so, and how many of seven bytes are unused. */
  predicate SegmentFrame(m: Mailbox, toggle: bool, part: seq<byte>, last: bool, count: nat) {
    && 0 < |part| <= EC_MAXMBX - 9
    && FrameHead(m, if |part| < 7 then 10 else 3 + |part|,
                 (if last then 1 else 0) + (if last && |part| < 7 then 2 * (7 - |part|) else 0)
                 + (if toggle then 16 else 0), count)
    && m[9..9 + |part|] == part
  }

  predicate SegmentsCarry(segs: seq<Mailbox>, parts: seq<seq<byte>>, cnt: nat, closed: bool) {
    && |segs| == |parts|
    && forall k :: 0 <= k < |segs| ==>
      SegmentFrame(segs[k], k % 2 == 1, parts[k], closed && k == |segs| - 1, CountAfter(cnt, k + 2))
  }

  /** The frames of one download of v: one frame for up to four bytes, else a first one and its segments. */
  ghost predicate Carries(frames: seq<Mailbox>, index: u16, sub: byte, ca: bool, v: seq<byte>, cnt: nat) {
    if |v| <= 4 && !ca then |frames| == 1 && SmallFrame(frames[0], index, sub, v, CountAfter(cnt, 1))
    else exists first, parts :: CarriesParts(frames, index, sub, ca, v, cnt, first, parts)
  }

  predicate CarriesParts(frames: seq<Mailbox>, index: u16, sub: byte, ca: bool, v: seq<byte>, cnt: nat,
                         first: seq<byte>, parts: seq<seq<byte>>) {
    && frames != [] && v == first + Flat(parts)
    && FirstFrame(frames[0], index, sub, ca, |v|, first, CountAfter(cnt, 1))
    && SegmentsCarry(frames[1..], parts, cnt, true)
  }

  lemma NothingCarried(cnt: nat)
    ensures SegmentsCarry([], [], cnt, false) && SegmentsCarry([], [], cnt, true) && Flat([]) == []
  {}

  lemma OneMoreCount(cnt: nat, n: nat)
    ensures CountAfter(cnt, n + 1) == NextCount(CountAfter(cnt, n)) && CountAfter(cnt, 0) == cnt
  {}

  lemma SegmentsMore(segs: seq<Mailbox>, parts: seq<seq<byte>>, cnt: nat, m: Mailbox, part: seq<byte>, last: bool)
    requires SegmentsCarry(segs, parts, cnt, false)
    requires SegmentFrame(m, |segs| % 2 == 1, part, last, CountAfter(cnt, |segs| + 2))
    ensures SegmentsCarry(segs + [m], parts + [part], cnt, last)
    ensures Flat(parts + [part]) == Flat(parts) + part
  {
    hide SegmentFrame;
    assert (parts + [part])[..|parts|] == parts;
  }

  /** Proper segments that carry exactly these bytes. */
  predicate Joins(segs: seq<Mailbox>, closed: bool, data: seq<byte>) {
    SegmentsOk(segs, closed) && Joined(segs) == data
  }

  lemma NothingJoined(closed: bool)
    ensures Joins([], closed, [])
  {}

  lemma JoinsMore(segs: seq<Mailbox>, data: seq<byte>, m: Mailbox, part: seq<byte>, last: bool)
    requires Joins(segs, false, data) && SegmentOk(m, |segs| % 2 == 1, last) && SegmentData(m) == part
    ensures Joins(segs + [m], last, data + part)
  {
    hide SegmentsOk, SegmentOk;
    Appended(segs, m, last);
  }

  lemma OneMoreAnswer(answers: nat -> Answer, n: nat)
    ensures NoneRefused(answers, 1, 0) && NoneRefused(answers, 1, 1)
    ensures NoneRefused(answers, 1, n + 2) == (NoneRefused(answers, 1, n + 1) && !answers(n + 1).Refuses())
  {}

  class Master {
    const mbx_l: u16
    var mbx_cnt: nat

    constructor (mbx_l: u16)
      ensures this.mbx_l == mbx_l && mbx_cnt == 0
    {
      this.mbx_l, mbx_cnt := mbx_l, 0;
    }

    /** The fields every request starts with, under a new mailbox counter. */
    method PutHeader(m: array<byte>, length: u16, command: byte)
      requires m.Length == EC_MAXMBX + 1 && mbx_cnt <= 7
      modifies m, this`mbx_cnt
      ensures mbx_cnt == NextCount(old(mbx_cnt))
      ensures Header(m[..], command) && Length(m[..]) == length && FrameHead(m[..], length, command, mbx_cnt)
      ensures m[9..] == old(m[9..])
    {
      PutWord(m, 0, length);
      PutWord(m, 2, 0);
      m[4] := 0;
      mbx_cnt := NextCount(mbx_cnt);
      m[5] := MBXT_COE + mbx_cnt * 0x10;
      PutWord(m, 6, SDOREQ * 0x1000);
      m[8] := command;
    }

    /** Header, index and subindex. */
    method PutRequest(m: array<byte>, length: u16, command: byte, index: u16, subIndex: byte)
      requires m.Length == EC_MAXMBX + 1 && mbx_cnt <= 7
      modifies m, this`mbx_cnt
      ensures mbx_cnt <= 7 && Header(m[..], command) && Length(m[..]) == length && Addressed(m[..], index, subIndex)
      ensures mbx_cnt == NextCount(old(mbx_cnt))
      ensures FrameHead(m[..], length, command, mbx_cnt) && About(m[..], index, subIndex)
      ensures m[12..] == old(m[12..])
    {
      PutHeader(m, length, command);
      PutWord(m, 9, index);
      m[11] := subIndex;
    }

    method PutExpedited(m: array<byte>, index: u16, subIndex: byte, p: seq<byte>)
      requires m.Length == EC_MAXMBX + 1 && mbx_cnt <= 7 && |p| <= 4
      modifies m, this`mbx_cnt
      ensures mbx_cnt <= 7 && Length(m[..]) == 10 && Specifier(m[..]) == 1 && Expedited(m[..])
      ensures DownloadRequest(m[..]) && Addressed(m[..], index, subIndex)
      ensures mbx_cnt == NextCount(old(mbx_cnt)) && SmallFrame(m[..], index, subIndex, p, mbx_cnt)
      ensures ExpeditedSize(m[..]) == if p == [] then 4 else |p|
      ensures m[12..12 + |p|] == p && m[12 + |p|..] == old(m[12 + |p|..])
    {
      hide Length, Type, Service, Index, SubIndex;
      var command := SDO_DOWN_EXP + (4 - |p|) % 4 * 4;
      assert command / 0x20 == 1 && command % 2 == 1 && command / 2 % 2 == 1 && command / 4 % 4 == (4 - |p|) % 4;
      ghost var was := m[12..];
      PutRequest(m, 10, command, index, subIndex);
      ghost var b := m[..];
      Copy(m, 12, p);
      CopyKeeps(b, m[..], 12, p);
      assert b[12 + |p|..] == b[12..][|p|..] && b[12..] == was;
      assert was[|p|..] == old(m[12 + |p|..]);
    }

    method PutInit(m: array<byte>, index: u16, subIndex: byte, ca: bool, total: nat, data: seq<byte>)
      requires m.Length == EC_MAXMBX + 1 && mbx_cnt <= 7
      requires |data| <= total < 0x1_0000 && 16 + |data| <= EC_MAXMBX + 1
      modifies m, this`mbx_cnt
      ensures mbx_cnt <= 7 && Length(m[..]) == 10 + |data| && Specifier(m[..]) == 1 && !Expedited(m[..])
      ensures DownloadHeader(m[..]) && Addressed(m[..], index, if ca && subIndex > 1 then 1 else subIndex)
      ensures Announced(m[..]) == total && m[16..16 + |data|] == data && mbx_cnt == NextCount(old(mbx_cnt))
      ensures FirstFrame(m[..], index, if ca && subIndex > 1 then 1 else subIndex, ca, total, data, mbx_cnt)
    {
      hide Length, Type, Service, Index, SubIndex;
      PutRequest(m, 10 + |data|, if ca then SDO_DOWN_INIT_CA else SDO_DOWN_INIT, index,
                 if ca && subIndex > 1 then 1 else subIndex);
      ghost var b := m[..];
      PutTotal(m, total);
      TotalKeeps(b, m[..], total);
      ghost var c := m[..];
      Copy(m, 16, data);
      CopyKeeps(c, m[..], 16, data);
    }

    static method PutTotal(m: array<byte>, total: u16)
      requires m.Length >= 16
      modifies m
      ensures m[..] == old(m[..])[12 := total % 0x100][13 := total / 0x100][14 := 0][15 := 0]
    {
      PutWord(m, 12, total);
      PutWord(m, 14, 0);
    }

    /** One segment: a short last one is padded to the minimum size and says how much of it is unused. */
    method PutSegment(m: array<byte>, data: seq<byte>, last: bool, toggle: bool)
      requires m.Length == EC_MAXMBX + 1 && mbx_cnt <= 7
      requires 0 < |data| && 9 + |data| <= EC_MAXMBX && (last || |data| >= 7)
      modifies m, this`mbx_cnt
      ensures mbx_cnt <= 7 && Type(m[..]) == MBXT_COE && Service(m[..]) == SDOREQ && Specifier(m[..]) == 0
      ensures Toggle(m[..]) == toggle && Last(m[..]) == last
      ensures Length(m[..]) == if |data| < 7 then 10 else 3 + |data|
      ensures SegmentSized(m[..]) && SegmentData(m[..]) == data
      ensures mbx_cnt == NextCount(old(mbx_cnt)) && SegmentFrame(m[..], toggle, data, last, mbx_cnt)
    {
      var command, length := if last then 1 else 0, 3 + |data|;
      if last && |data| < 7 {
        length := 10;
        command := 1 + (7 - |data|) * 2;
      }
      ghost var unused := if last && |data| < 7 then 7 - |data| else 0;
      var full := command + if toggle then 0x10 else 0;
      assert full % 2 == (if last then 1 else 0) && full / 2 % 8 == unused && full / 0x20 == 0;
      assert (full / 0x10 % 2 == 1) == toggle;
      PutHeader(m, length, full);
      Copy(m, 9, data);
      assert m[..][9..9 + |data|] == data;
    }

    /** The next segment: what is left, or as much as the mailbox holds. */
    method PutNext(m: array<byte>, p: seq<byte>, off: nat, toggle: bool) returns (framedatasize: nat, notLast: bool)
      requires m.Length == EC_MAXMBX + 1 && mbx_cnt <= 7 && 16 <= mbx_l <= EC_MAXMBX && off < |p|
      modifies m, this`mbx_cnt
      ensures 0 < framedatasize && off + framedatasize <= |p| && (notLast <==> off + framedatasize < |p|)
      ensures mbx_cnt <= 7 && 6 + Length(m[..]) <= mbx_l
      ensures SegmentOk(m[..], toggle, !notLast) && SegmentData(m[..]) == p[off..off + framedatasize]
      ensures mbx_cnt == NextCount(old(mbx_cnt))
      ensures SegmentFrame(m[..], toggle, p[off..off + framedatasize], !notLast, mbx_cnt)
    {
      hide SegmentFrame, SegmentSize, SegmentData, Last, Toggle, Type, Service, Specifier, Length;
      var maxdata: nat := mbx_l - 0x10 + 7;
      framedatasize := |p| - off;
      notLast := false;
      if framedatasize > maxdata {
        framedatasize := maxdata;
        notLast := true;
      }
      PutSegment(m, p[off..off + framedatasize], !notLast, toggle);
    }

    /** The segment loop, entered behind the first `start` bytes. A segment the slave refuses ends it; a lost one
        does not, and the result is that of the last exchange. */
    method WriteSegments(m: array<byte>, p: seq<byte>, start: nat, received: int, answers: nat -> Answer,
                         ghost cnt: nat)
      returns (wkc: int, segs: seq<Mailbox>, ghost parts: seq<seq<byte>>)
      requires m.Length == EC_MAXMBX + 1 && mbx_cnt <= 7 && 16 <= mbx_l <= EC_MAXMBX
      requires start < |p| && received > 0 && mbx_cnt == CountAfter(cnt, 1)
      modifies m, this`mbx_cnt
      ensures segs != [] && (wkc > 0 <==> answers(|segs|).Ok())
      ensures NoneRefused(answers, 1, |segs|)
      ensures forall k :: 0 <= k < |segs| ==> 6 + Length(segs[k]) <= mbx_l
      ensures !answers(|segs|).Refuses() ==>
                SegmentsCarry(segs, parts, cnt, true) && Flat(parts) == p[start..] && Joins(segs, true, p[start..])
    {
      hide Joins, SegmentOk, SegmentData, SegmentSized, Length, SegmentFrame, SegmentsCarry, CountAfter, Flat,
        NoneRefused;
      wkc, segs, parts := received, [], [];
      NothingCarried(cnt);
      NothingJoined(false);
      assert p[start..start] == [];
      OneMoreAnswer(answers, 0);
      var notLast, toggle, off := true, false, start;
      while notLast
        invariant start <= off <= |p| && mbx_cnt <= 7 && (notLast ==> off < |p|) && toggle == (|segs| % 2 == 1)
        invariant Joins(segs, off == |p|, p[start..off])
        invariant SegmentsCarry(segs, parts, cnt, off == |p|) && Flat(parts) == p[start..off] && |parts| == |segs|
        invariant mbx_cnt == CountAfter(cnt, |segs| + 1)
        invariant forall k :: 0 <= k < |segs| ==> 6 + Length(segs[k]) <= mbx_l
        invariant NoneRefused(answers, 1, |segs|) && (notLast ==> NoneRefused(answers, 1, |segs| + 1))
        invariant !notLast ==> segs != [] && (off == |p| || answers(|segs|).Refuses())
        invariant segs != [] ==> (wkc > 0 <==> answers(|segs|).Ok())
        decreases notLast, |p| - off
      {
        var framedatasize;
        framedatasize, notLast := PutNext(m, p, off, toggle);
        OneMoreCount(cnt, |segs| + 1);
        OneMoreAnswer(answers, |segs|);
        SegmentsMore(segs, parts, cnt, m[..], p[off..off + framedatasize], !notLast);
        JoinsMore(segs, p[start..off], m[..], p[off..off + framedatasize], !notLast);
        segs, parts := segs + [m[..]], parts + [p[off..off + framedatasize]];
        assert p[start..off] + p[off..off + framedatasize] == p[start..off + framedatasize];
        off := off + framedatasize;
        var answer := answers(|segs|);
        wkc := answer.sendWkc;
        if wkc > 0 {
          wkc := answer.recvWkc;
          if wkc > 0 && !answer.accepted {
            wkc := 0;
            notLast := false;
          }
        }
        toggle := !toggle;
      }
      assert p[start..|p|] == p[start..];
    }

    /** The first frame: all the data, or what the mailbox holds of it. */
    method PutFirst(m: array<byte>, index: u16, subIndex: byte, ca: bool, p: seq<byte>) returns (framedatasize: nat)
      requires m.Length == EC_MAXMBX + 1 && m[12..] == Zeros(EC_MAXMBX - 11)
      requires mbx_cnt <= 7 && |p| < 0x1_0000 && ((|p| <= 4 && !ca) || CopyInside(|p|, mbx_l))
      modifies m, this`mbx_cnt
      ensures mbx_cnt <= 7 && framedatasize <= |p| && (framedatasize < |p| ==> mbx_l >= 16)
      ensures mbx_cnt == NextCount(old(mbx_cnt))
      ensures if |p| <= 4 && !ca then SmallFrame(m[..], index, subIndex, p, mbx_cnt)
              else FirstFrame(m[..], index, if ca && subIndex > 1 then 1 else subIndex, ca, |p|, p[..framedatasize],
                              mbx_cnt)
      ensures Specifier(m[..]) == 1 && DownloadHeader(m[..])
      ensures mbx_l >= 16 ==> 6 + Length(m[..]) <= mbx_l
      ensures mbx_l <= EC_MAXMBX ==> DownloadRequest(m[..])
      ensures Addressed(m[..], index, if ca && subIndex > 1 then 1 else subIndex)
      ensures Expedited(m[..]) <==> |p| <= 4 && !ca
      ensures Expedited(m[..]) ==> framedatasize == |p| && ExpeditedData(m[..]) == if p == [] then [0, 0, 0, 0] else p
      ensures !Expedited(m[..]) ==>
                && 16 + framedatasize <= EC_MAXMBX + 1 && Announced(m[..]) == |p|
                && m[16..16 + framedatasize] == p[..framedatasize]
      ensures !Expedited(m[..]) && mbx_l <= EC_MAXMBX ==>
                InitSized(m[..]) && FirstData(m[..]) == p[..framedatasize]
    {
      framedatasize := |p|;
      if |p| <= 4 && !ca {
        PutExpedited(m, index, subIndex, p);
        if p == [] {
          assert m[12..] == Zeros(EC_MAXMBX - 11);
          assert m[..][12..16] == m[12..][..4] == [0, 0, 0, 0];
        }
      } else {
        var maxdata: nat := mbx_l - 0x10;
        if framedatasize > maxdata {
          framedatasize := maxdata;
        }
        PutInit(m, index, subIndex, ca, |p|, p[..framedatasize]);
      }
    }

    /** ecx_SDOwrite, whenever its copies stay inside the buffer. Every frame fits the slave's mailbox. It
        succeeds exactly if the first and the last exchange do, and only a refusal ends it early. Otherwise the
        frames carry all of the data: a slave that applies the upload side's size rules to them recovers the
        bytes that were written, unless there were none to write: an empty expedited download reads as four
        zero bytes. Nothing goes out of a mailbox that is larger than the buffer. */
    method Write(index: u16, subIndex: byte, ca: bool, p: seq<byte>, answers: nat -> Answer)
      returns (wkc: int, frames: seq<Mailbox>)
      requires mbx_cnt <= 7 && |p| < 0x1_0000 && ((|p| <= 4 && !ca) || CopyInside(|p|, mbx_l))
      modifies this`mbx_cnt
      ensures frames != [] && (mbx_l >= 16 ==> forall k :: 0 <= k < |frames| ==> 6 + Length(frames[k]) <= mbx_l)
      ensures mbx_l <= EC_MAXMBX ==> DownloadRequest(frames[0])
      ensures DownloadHeader(frames[0]) && Addressed(frames[0], index, if ca && subIndex > 1 then 1 else subIndex)
      ensures Expedited(frames[0]) <==> |p| <= 4 && !ca
      ensures wkc > 0 <==> 0 < mbx_l <= 1486 && answers(0).Ok() && answers(|frames| - 1).Ok()
      ensures !(0 < mbx_l <= 1486 && answers(0).Ok()) ==> |frames| == 1
      ensures NoneRefused(answers, 0, |frames| - 1)
      ensures 16 <= mbx_l <= 1486 && answers(0).Ok() && !answers(|frames| - 1).Refuses() ==>
                && Carries(frames, index, if ca && subIndex > 1 then 1 else subIndex, ca, p, old(mbx_cnt))
                && Decode(frames) == Some(if |p| == 0 && !ca then [0, 0, 0, 0] else p)
    {
      hide Carries, SmallFrame, FirstFrame, SegmentsCarry, Flat, CountAfter, Length, Specifier, Expedited,
        ExpeditedData, Announced, FirstData, InitSized, SegmentsOk, Addressed, Decode, DownloadRequest, DownloadHeader;
      var m := new byte[EC_MAXMBX + 1](_ => 0);
      var framedatasize := PutFirst(m, index, subIndex, ca, p);
      var first: Mailbox := m[..];
      ghost var cnt, sub: byte := old(mbx_cnt), if ca && subIndex > 1 then 1 else subIndex;
      OneMoreCount(cnt, 0);
      frames := [first];
      wkc := if 0 < mbx_l <= EC_MAXMBX then answers(0).sendWkc else 0;
      if wkc > 0 {
        wkc := answers(0).recvWkc;
        if wkc > 0 {
          if !answers(0).accepted {
            wkc := 0;
          } else if framedatasize < |p| {
            var segs;
            ghost var parts;
            wkc, segs, parts := WriteSegments(m, p, framedatasize, wkc, answers, cnt);
            frames := frames + segs;
            if !answers(|segs|).Refuses() {
              DecodeSegmented(first, segs, p, framedatasize);
              SegmentedCarries(first, segs, parts, index, sub, ca, p, framedatasize, cnt);
            }
          } else {
            DecodeSingle(first, p);
            SingleCarries(first, index, sub, ca, p, cnt);
          }
        }
      }
    }
  }

  lemma SegmentedCarries(first: Mailbox, segs: seq<Mailbox>, parts: seq<seq<byte>>, index: u16, sub: byte, ca: bool,
                         p: seq<byte>, n: nat, cnt: nat)
    requires n <= |p| && !(|p| <= 4 && !ca) && FirstFrame(first, index, sub, ca, |p|, p[..n], CountAfter(cnt, 1))
    requires SegmentsCarry(segs, parts, cnt, true) && Flat(parts) == p[n..]
    ensures Carries([first] + segs, index, sub, ca, p, cnt)
  {
    hide FirstFrame, SegmentsCarry, Flat;
    assert ([first] + segs)[1..] == segs;
    assert p == p[..n] + Flat(parts);
    assert CarriesParts([first] + segs, index, sub, ca, p, cnt, p[..n], parts);
  }

  lemma SingleCarries(first: Mailbox, index: u16, sub: byte, ca: bool, p: seq<byte>, cnt: nat)
    requires if |p| <= 4 && !ca then SmallFrame(first, index, sub, p, CountAfter(cnt, 1))
             else FirstFrame(first, index, sub, ca, |p|, p[..|p|], CountAfter(cnt, 1))
    ensures Carries([first], index, sub, ca, p, cnt)
  {
    hide FirstFrame, SmallFrame;
    NothingCarried(cnt);
    assert p[..|p|] == p && [first][1..] == [];
    assert p == p[..|p|] + Flat([]);
    assert !(|p| <= 4 && !ca) ==> CarriesParts([first], index, sub, ca, p, cnt, p, []);
  }

  lemma DecodeSegmented(first: Mailbox, segs: seq<Mailbox>, p: seq<byte>, n: nat)
    requires Specifier(first) == 1 && !Expedited(first) && InitSized(first)
    requires n <= |p| && Announced(first) == |p| && FirstData(first) == p[..n]
    requires SegmentsOk(segs, true) && Joined(segs) == p[n..]
    ensures Decode([first] + segs) == Some(p)
  {
    assert ([first] + segs)[1..] == segs;
    assert p[..n] + p[n..] == p;
  }

  lemma DecodeSingle(first: Mailbox, p: seq<byte>)
    requires Specifier(first) == 1 && (!Expedited(first) ==> InitSized(first))
    requires !Expedited(first) ==> Announced(first) == |p| && FirstData(first) == p[..|p|]
    ensures Decode([first]) == Some(if Expedited(first) then ExpeditedData(first) else p)
  {
    assert [first][1..] == [] && p[..|p|] == p;
    assert !Expedited(first) ==> FirstData(first) + Joined([]) == p;
  }

  lemma SegmentsSized(segs: seq<Mailbox>, closed: bool)
    requires SegmentsOk(segs, closed)
    ensures forall m :: m in segs ==> SegmentSized(m)
  {
    hide SegmentSized, SegmentOk;
    forall m | m in segs ensures SegmentSized(m) {
      var k :| 0 <= k < |segs| && segs[k] == m;
      SegmentIsSized(m, k % 2 == 1, closed && k == |segs| - 1);
    }
  }

  lemma SegmentIsSized(m: Mailbox, toggle: bool, last: bool)
    requires SegmentOk(m, toggle, last)
    ensures SegmentSized(m)
  {}

  lemma OneMoreSegment(segs: seq<Mailbox>, m: Mailbox, last: bool)
    requires SegmentsOk(segs, false) && SegmentOk(m, |segs| % 2 == 1, last)
    ensures SegmentsOk(segs + [m], last)
  {
    hide SegmentOk;
    var all := segs + [m];
    forall k | 0 <= k < |all| ensures SegmentOk(all[k], k % 2 == 1, last && k == |all| - 1) {
      assert k < |segs| ==> SegmentOk(segs[k], k % 2 == 1, false && k == |segs| - 1);
    }
  }

  lemma Appended(segs: seq<Mailbox>, m: Mailbox, last: bool)
    requires SegmentsOk(segs, false) && SegmentOk(m, |segs| % 2 == 1, last)
    ensures SegmentsOk(segs + [m], last)
    ensures forall s :: s in segs + [m] ==> SegmentSized(s)
    ensures Joined(segs + [m]) == Joined(segs) + SegmentData(m)
  {
    hide SegmentsOk, SegmentOk, SegmentSized, SegmentSize;
    OneMoreSegment(segs, m, last);
    SegmentsSized(segs, false);
    SegmentIsSized(m, |segs| % 2 == 1, last);
    assert (segs + [m])[..|segs|] == segs;
  }

  lemma CopyKeeps(b: Mailbox, a: seq<byte>, at: nat, data: seq<byte>)
    requires 12 <= at && at + |data| <= |b| && a == b[..at] + data + b[at + |data|..]
    ensures |a| == |b|
    ensures Length(a) == Length(b) && Type(a) == Type(b) && Service(a) == Service(b) && Command(a) == Command(b)
    ensures Index(a) == Index(b) && SubIndex(a) == SubIndex(b)
    ensures at >= 16 ==> Announced(a) == Announced(b)
    ensures a[at..at + |data|] == data && a[at + |data|..] == b[at + |data|..]
  {}

  lemma TotalKeeps(b: Mailbox, a: Mailbox, total: u16)
    requires a == b[12 := total % 0x100][13 := total / 0x100][14 := 0][15 := 0]
    ensures Length(a) == Length(b) && Type(a) == Type(b) && Service(a) == Service(b) && Command(a) == Command(b)
    ensures Index(a) == Index(b) && SubIndex(a) == SubIndex(b) && Announced(a) == total
  {}
}
