/** Ethernet over EtherCAT: fragmentation (ecx_EOEsend) against reassembly (ecx_EOEreadfragment),
    as in section 5.7 of ETG.1000.6. */
module Eoe {
  import opened Bytes
  import opened Coe

  const MBXT_EOE := 2
  const PACKET_ERROR := -3       // -EC_ERR_TYPE_PACKET_ERROR
  const INVALID_RX_DATA := -11   // -EC_ERR_TYPE_EOE_INVALID_RX_DATA

  /** A mailbox holding one fragment: the header fields and the data area behind them. */
  datatype Fragment = Fragment(length: u16, mbxtype: byte, frameinfo1: u16, frameinfo2: u16, data: seq<byte>) {
    function LastFragment(): bool { frameinfo1 / 0x100 % 2 == 1 }
    function TimeAppend(): bool { frameinfo1 / 0x200 % 2 == 1 }
    function FragNo(): nat { frameinfo2 % 0x40 }
    function Offset(): nat { frameinfo2 / 0x40 % 0x40 }
    function FrameNo(): nat { frameinfo2 / 0x1000 % 0x10 }
    /** eoedatasize, a 16-bit subtraction. */
    function DataSize(): u16 { (length - 4) % 0x1_0000 }
  }

  function Info1(last: bool, port: byte): u16 {
    (if last then 0x100 else 0) + port % 0x10 * 0x10
  }

  function Info2(fragno: nat, offset: nat, frameno: nat): u16 {
    fragno % 0x40 + offset % 0x40 * 0x40 + frameno % 0x10 * 0x1000
  }

  lemma InfoRoundTrip(last: bool, port: byte, fragno: nat, offset: nat, frameno: nat, f: Fragment)
    requires f.frameinfo1 == Info1(last, port) && f.frameinfo2 == Info2(fragno, offset, frameno)
    ensures f.LastFragment() == last && !f.TimeAppend()
    ensures f.FragNo() == fragno % 0x40 && f.Offset() == offset % 0x40 && f.FrameNo() == frameno % 0x10
  {
  }

  // ---- sending ----

  /** Size of the fragment that starts at `off`: whole 32-octet blocks unless the rest fits. */
  function TxSize(total: nat, maxdata: nat, off: nat): (size: nat)
    requires off <= total
    ensures size <= total - off
  {
    if total - off > maxdata then maxdata / 32 * 32 else total - off
  }

  /** What the first turn copies to offset 10 of the mailbox buffer, truncated to 16 bits; a mailbox
      of fewer than 10 bytes makes maxdata negative. */
  function FirstCopy(total: nat, mbx_l: u16): u16
    requires total < 0x1_0000 - 4
  {
    var maxdata := mbx_l - 10;
    if total > maxdata then maxdata / 32 * 32 % 0x1_0000 else total
  }

  /** Turn n copies and, for n > 0, is made: a mailbox larger than the buffer is never sent. */
  ghost predicate Inbounds(total: nat, mbx_l: u16, n: nat)
    requires mbx_l >= 10
  {
    n == 0 || (mbx_l <= EC_MAXMBX && OffsetAfter(total, mbx_l - 10, n) < total) ==>
      10 + TxSize(total, mbx_l - 10, OffsetAfter(total, mbx_l - 10, n)) <= EC_MAXMBX + 1
  }

  /** The sender's copies stay inside its buffer for these mailboxes only (see CopyFitsIff). */
  predicate CopyFits(total: nat, mbx_l: u16): (fits: bool)
    ensures fits ==> mbx_l >= 10
  {
    mbx_l >= 10 && (total <= EC_MAXMBX - 9 || (mbx_l - 10 < total && mbx_l - 10 < 47 * 32))
  }

  lemma CopyFitsIff(total: nat, mbx_l: u16)
    requires total < 0x1_0000 - 4
    ensures CopyFits(total, mbx_l) <==> 10 + FirstCopy(total, mbx_l) <= EC_MAXMBX + 1
    ensures CopyFits(total, mbx_l) ==> forall n: nat :: Inbounds(total, mbx_l, n)
  {
    if mbx_l < 10 {
      assert (mbx_l - 10) / 32 * 32 == -32;
    } else if CopyFits(total, mbx_l) {
      assert OffsetAfter(total, mbx_l - 10, 0) == 0;
    }
  }

  lemma TurnFits(total: nat, mbx_l: u16, n: nat)
    requires CopyFits(total, mbx_l) && total < 0x1_0000 - 4
    requires n > 0 ==> mbx_l <= EC_MAXMBX && OffsetAfter(total, mbx_l - 10, n) < total
    ensures 10 + TxSize(total, mbx_l - 10, OffsetAfter(total, mbx_l - 10, n)) <= EC_MAXMBX + 1
  {
    CopyFitsIff(total, mbx_l);
    assert Inbounds(total, mbx_l, n);
  }

  predicate Sendable(total: nat, maxdata: nat) {
    maxdata >= 32 || total <= maxdata
  }

  /** The fragment a turn sends: `no` turns came before it, `frameno` is the frame number of the first. The
      fragment number has 8 bits; each time it is 0 the size is sent again, under the next frame number. */
  function MakeFragment(payload: seq<byte>, port: byte, frameno: nat, cnt: nat, maxdata: nat, off: nat,
                        no: nat): Fragment
    requires off <= |payload| && |payload| < 0x1_0000 - 4 && cnt <= 7
  {
    var size := TxSize(|payload|, maxdata, off);
    Fragment(4 + size, MBXT_EOE + cnt * 0x10, Info1(off + size == |payload|, port),
             Info2(no, if no % 0x100 > 0 then off / 32 else (|payload| + 31) / 32, frameno + no / 0x100),
             payload[off..off + size])
  }

  /** A fragment on the wire: length, mailbox type and counter, port and last bit, and in six, six and four
      bits the fragment number, the size of the frame in blocks or the offset, and the frame number. */
  lemma FragmentBytes(payload: seq<byte>, port: byte, frameno: nat, cnt: nat, maxdata: nat, off: nat, no: nat)
    requires off <= |payload| && |payload| < 0x1_0000 - 4 && cnt <= 7
    ensures var f := MakeFragment(payload, port, frameno, cnt, maxdata, off, no);
            var size := if |payload| - off > maxdata then maxdata - maxdata % 32 else |payload| - off;
            && f.length == 4 + size && f.mbxtype == 2 + 16 * cnt
            && f.frameinfo1 == port % 16 * 16 + (if off + size == |payload| then 256 else 0)
            && f.frameinfo2 % 64 == no % 64
            && f.frameinfo2 / 64 % 64 == (if no % 256 > 0 then off / 32 else (|payload| + 31) / 32) % 64
            && f.frameinfo2 / 4096 == (frameno + no / 256) % 16
            && f.data == payload[off..off + size]
  {}

  /** What a receiver reads from the two words. */
  lemma FragmentFields(f: Fragment)
    ensures f.LastFragment() == (f.frameinfo1 / 256 % 2 == 1) && f.TimeAppend() == (f.frameinfo1 / 512 % 2 == 1)
    ensures f.FragNo() == f.frameinfo2 % 64 && f.Offset() == f.frameinfo2 / 64 % 64
    ensures f.FrameNo() == f.frameinfo2 / 4096 % 16
  {}

  /** The fragments from offset `off` on. */
  function FragmentsFrom(payload: seq<byte>, port: byte, frameno: nat, cnt: nat, maxdata: nat, off: nat, no: nat)
    : (frags: seq<Fragment>)
    requires off <= |payload| && |payload| < 0x1_0000 - 4 && Sendable(|payload|, maxdata) && cnt <= 7
    ensures frags != []
    decreases |payload| - off
  {
    var size := TxSize(|payload|, maxdata, off);
    var f := MakeFragment(payload, port, frameno, cnt, maxdata, off, no);
    if off + size == |payload| then [f]
    else [f] + FragmentsFrom(payload, port, frameno, NextCount(cnt), maxdata, off + size, no + 1)
  }

  /** Where the sender's loop stands after n successful sends. */
  function OffsetAfter(total: nat, maxdata: nat, n: nat): (off: nat)
    ensures off <= total
  {
    if n == 0 then 0
    else
      var off := OffsetAfter(total, maxdata, n - 1);
      off + TxSize(total, maxdata, off)
  }

  lemma {:induction false} StuckAtZero(total: nat, maxdata: nat, n: nat)
    requires !Sendable(total, maxdata)
    ensures OffsetAfter(total, maxdata, n) == 0
  {
    if n > 0 {
      StuckAtZero(total, maxdata, n - 1);
    }
  }

  lemma {:induction false} ReachesEnd(total: nat, maxdata: nat, n: nat)
    requires Sendable(total, maxdata)
    ensures OffsetAfter(total, maxdata, n) == total || OffsetAfter(total, maxdata, n) >= n
  {
    if n > 0 {
      ReachesEnd(total, maxdata, n - 1);
    }
  }

  lemma {:induction false} StaysAtEnd(total: nat, maxdata: nat, n: nat, m: nat)
    requires n <= m && OffsetAfter(total, maxdata, n) == total
    ensures OffsetAfter(total, maxdata, m) == total
    decreases m
  {
    if n < m {
      StaysAtEnd(total, maxdata, n, m - 1);
    }
  }

  /** What n successful turns of the sender's loop send, for any mailbox; cnt counts the first one. */
  function SentIn(payload: seq<byte>, port: byte, frameno: nat, cnt: nat, maxdata: nat, n: nat): (sent: seq<Fragment>)
    requires |payload| < 0x1_0000 - 4 && cnt <= 7
    ensures |sent| == n
  {
    if n == 0 then []
    else
      SentIn(payload, port, frameno, cnt, maxdata, n - 1)
      + [MakeFragment(payload, port, frameno, CountAfter(cnt, n - 1), maxdata,
                      OffsetAfter(|payload|, maxdata, n - 1), n - 1)]
  }

  lemma {:induction false} SentFit(payload: seq<byte>, port: byte, frameno: nat, cnt: nat, maxdata: nat, n: nat)
    requires |payload| < 0x1_0000 - 4 && cnt <= 7
    ensures forall f :: f in SentIn(payload, port, frameno, cnt, maxdata, n) ==> f.length <= 4 + maxdata
  {
    if n > 0 {
      SentFit(payload, port, frameno, cnt, maxdata, n - 1);
    }
  }

  lemma NothingSent(payload: seq<byte>, port: byte, frameno: nat, cnt: nat, maxdata: nat)
    requires |payload| < 0x1_0000 - 4 && cnt <= 7
    ensures CountAfter(cnt, 0) == cnt && OffsetAfter(|payload|, maxdata, 0) == 0
    ensures SentIn(payload, port, frameno, cnt, maxdata, 0) == []
  {}

  lemma OneTurn(payload: seq<byte>, port: byte, frameno: nat, cnt: nat, maxdata: nat, n: nat)
    requires |payload| < 0x1_0000 - 4 && cnt <= 7
    ensures CountAfter(cnt, n + 1) == NextCount(CountAfter(cnt, n))
    ensures OffsetAfter(|payload|, maxdata, n + 1) ==
            OffsetAfter(|payload|, maxdata, n) + TxSize(|payload|, maxdata, OffsetAfter(|payload|, maxdata, n))
    ensures SentIn(payload, port, frameno, cnt, maxdata, n + 1) ==
            SentIn(payload, port, frameno, cnt, maxdata, n)
            + [MakeFragment(payload, port, frameno, CountAfter(cnt, n), maxdata, OffsetAfter(|payload|, maxdata, n), n)]
  {
    hide MakeFragment, TxSize;
  }

  /** If the loop ends, its turns send the fragments of the payload. */
  lemma {:induction false} SentAreFragments(payload: seq<byte>, port: byte, frameno: nat, cnt: nat, maxdata: nat,
                                            n: nat)
    requires |payload| < 0x1_0000 - 4 && cnt <= 7 && Sendable(|payload|, maxdata)
    requires n > 0 ==> OffsetAfter(|payload|, maxdata, n - 1) < |payload| || n == 1
    ensures var all := FragmentsFrom(payload, port, frameno, cnt, maxdata, 0, 0);
            var off := OffsetAfter(|payload|, maxdata, n);
            all == SentIn(payload, port, frameno, cnt, maxdata, n)
                   + if n > 0 && off == |payload| then []
                     else FragmentsFrom(payload, port, frameno, CountAfter(cnt, n), maxdata, off, n)
  {
    hide MakeFragment, TxSize;
    if n > 0 {
      var off := OffsetAfter(|payload|, maxdata, n - 1);
      if n > 1 {
        Climbs(|payload|, maxdata, n - 1);
      }
      SentAreFragments(payload, port, frameno, cnt, maxdata, n - 1);
      var f := MakeFragment(payload, port, frameno, CountAfter(cnt, n - 1), maxdata, off, n - 1);
      var rest := FragmentsFrom(payload, port, frameno, CountAfter(cnt, n - 1), maxdata, off, n - 1);
      assert rest == [f] + rest[1..];
    }
  }

  /** While the end is not reached, earlier turns had not reached it. */
  lemma Climbs(total: nat, maxdata: nat, n: nat)
    requires n > 0 && OffsetAfter(total, maxdata, n) < total
    ensures OffsetAfter(total, maxdata, n - 1) < total
  {}

  // ---- fragment and frame numbers ----

  function FragmentNumber(n: nat): byte { n % 0x100 }

  lemma NextFragment(n: nat)
    ensures FragmentNumber(n + 1) == (FragmentNumber(n) + 1) % 0x100
  {}

  /** txframeno after n turns: it moves on whenever the 8-bit fragment number is 0. */
  function FrameNumber(before: byte, n: nat): byte {
    if n == 0 then before else (before + 1 + (n - 1) / 0x100) % 0x100
  }

  lemma NumberBefore(before: byte)
    ensures FrameNumber(before, 0) == before && FragmentNumber(0) == 0
  {}

  lemma NextNumber(before: byte, no: nat)
    ensures FrameNumber(before, no + 1) ==
            if no % 0x100 == 0 then (FrameNumber(before, no) + 1) % 0x100 else FrameNumber(before, no)
  {
    if no > 0 {
      OneBack(no);
      WrappedNext(before + no / 0x100);
    }
  }

  lemma OneBack(n: nat)
    requires n > 0
    ensures (n - 1) / 0x100 == if n % 0x100 == 0 then n / 0x100 - 1 else n / 0x100
  {}

  lemma WrappedNext(n: nat)
    ensures (n + 1) % 0x100 == (n % 0x100 + 1) % 0x100
  {}

  /** The bytes the sender keeps give the same header as the numbers they are the remainders of. */
  lemma InfoNumbers(before: byte, no: nat, offset: nat)
    ensures Info2(no % 0x100, offset, FrameNumber(before, no + 1)) == Info2(no, offset, before + 1 + no / 0x100)
  {
    LowSix(no);
    LowFour(before + 1 + no / 0x100);
  }

  lemma LowSix(n: nat)
    ensures n % 0x100 % 0x40 == n % 0x40
  {}

  lemma LowFour(n: nat)
    ensures n % 0x100 % 0x10 == n % 0x10
  {}

  /** Every fragment carries this frame number. */
  predicate Numbered(frags: seq<Fragment>, number: nat) {
    forall k :: 0 <= k < |frags| ==> frags[k].FrameNo() == number
  }

  lemma FragmentNumbers(payload: seq<byte>, port: byte, frameno: nat, cnt: nat, maxdata: nat, off: nat, no: nat)
    requires off <= |payload| < 0x1_0000 - 4 && cnt <= 7
    ensures MakeFragment(payload, port, frameno, cnt, maxdata, off, no).FrameNo() == (frameno + no / 0x100) % 0x10
  {
    var f := MakeFragment(payload, port, frameno, cnt, maxdata, off, no);
    InfoRoundTrip(off + TxSize(|payload|, maxdata, off) == |payload|, port, no,
                  if no % 0x100 > 0 then off / 32 else (|payload| + 31) / 32, frameno + no / 0x100, f);
  }

  lemma {:induction false} FragmentNumbersFrom(payload: seq<byte>, port: byte, frameno: nat, cnt: nat, maxdata: nat,
                                               off: nat, no: nat, k: nat)
    requires off <= |payload| < 0x1_0000 - 4 && Sendable(|payload|, maxdata) && cnt <= 7
    requires k < |FragmentsFrom(payload, port, frameno, cnt, maxdata, off, no)|
    ensures FragmentsFrom(payload, port, frameno, cnt, maxdata, off, no)[k].FrameNo() ==
            (frameno + (no + k) / 0x100) % 0x10
    decreases k
  {
    FragmentNumbers(payload, port, frameno, cnt, maxdata, off, no);
    hide MakeFragment;
    if k > 0 {
      var next := off + TxSize(|payload|, maxdata, off);
      FragmentNumbersFrom(payload, port, frameno, NextCount(cnt), maxdata, next, no + 1, k - 1);
      assert no + 1 + (k - 1) == no + k;
    }
  }

  /** How many fragments a payload takes: every one but the last carries whole blocks. */
  lemma {:induction false} FragmentCount(payload: seq<byte>, port: byte, frameno: nat, cnt: nat, maxdata: nat,
                                         off: nat, no: nat, m: nat)
    requires off <= |payload| < 0x1_0000 - 4 && Sendable(|payload|, maxdata) && cnt <= 7
    ensures |FragmentsFrom(payload, port, frameno, cnt, maxdata, off, no)| <= m + 1 <==>
            |payload| - off <= maxdata + m * (maxdata / 32 * 32)
    decreases m
  {
    hide MakeFragment;
    var block := maxdata / 32 * 32;
    if |payload| - off > maxdata && m > 0 {
      FragmentCount(payload, port, frameno, NextCount(cnt), maxdata, off + block, no + 1, m - 1);
      assert m * block == (m - 1) * block + block;
    }
  }

  /** A frame goes out under one frame number exactly when it takes at most 256 fragments. */
  lemma OneFrameIff(payload: seq<byte>, port: byte, frameno: nat, cnt: nat, maxdata: nat)
    requires |payload| < 0x1_0000 - 4 && Sendable(|payload|, maxdata) && cnt <= 7
    ensures Numbered(FragmentsFrom(payload, port, frameno, cnt, maxdata, 0, 0), frameno % 0x10) <==>
            |payload| <= maxdata + 255 * (maxdata / 32 * 32)
  {
    var all := FragmentsFrom(payload, port, frameno, cnt, maxdata, 0, 0);
    FragmentCount(payload, port, frameno, cnt, maxdata, 0, 0, 255);
    hide FragmentsFrom;
    forall k: nat | k < |all| ensures all[k].FrameNo() == (frameno + k / 0x100) % 0x10 {
      FragmentNumbersFrom(payload, port, frameno, cnt, maxdata, 0, 0, k);
    }
    if |all| > 0x100 {
      assert all[0x100].FrameNo() == (frameno + 1) % 0x10 != frameno % 0x10;
      assert !Numbered(all, frameno % 0x10);
    }
  }

  class Sender {
    const mbx_l: u16
    var txframeno: byte
    var mbx_cnt: nat

    constructor (mbx_l: u16, txframeno: byte, mbx_cnt: nat)
      ensures this.mbx_l == mbx_l && this.txframeno == txframeno && this.mbx_cnt == mbx_cnt
    {
      this.mbx_l, this.txframeno, this.mbx_cnt := mbx_l, txframeno, mbx_cnt;
    }

    /** One turn of the loop up to the mailbox send; `no` turns came before it. */
    method Prepare(port: byte, payload: seq<byte>, txframeoffset: nat, txfragmentno: byte, ghost before: byte,
                   ghost no: nat)
      returns (f: Fragment, last: bool)
      requires mbx_l >= 10 && mbx_cnt <= 7 && txframeoffset <= |payload| < 0x1_0000 - 4
      requires txfragmentno == FragmentNumber(no) && txframeno == FrameNumber(before, no)
      requires 10 + TxSize(|payload|, mbx_l - 10, txframeoffset) <= EC_MAXMBX + 1
      modifies this`mbx_cnt, this`txframeno
      ensures mbx_cnt == NextCount(old(mbx_cnt)) && txframeno == FrameNumber(before, no + 1)
      ensures f == MakeFragment(payload, port, before + 1, mbx_cnt, mbx_l - 10, txframeoffset, no)
      ensures |f.data| == TxSize(|payload|, mbx_l - 10, txframeoffset)
      ensures last == (txframeoffset + TxSize(|payload|, mbx_l - 10, txframeoffset) == |payload|)
      ensures 6 + f.length <= mbx_l
    {
      hide Info2, FrameNumber;
      var maxdata: nat := mbx_l - 10;
      var txframesize: nat := |payload| - txframeoffset;
      if txframesize > maxdata {
        txframesize := maxdata / 32 * 32;
      }
      var frameinfo1, offset;
      last := txframesize == |payload| - txframeoffset;
      if last {
        frameinfo1 := Info1(true, port);
      } else {
        frameinfo1 := Info1(false, port);
      }
      if txfragmentno > 0 {
        offset := txframeoffset / 32;
      } else {
        offset := (|payload| + 31) / 32;
        txframeno := (txframeno + 1) % 0x100;
      }
      NextNumber(before, no);
      InfoNumbers(before, no, offset);
      var frameinfo2 := Info2(txfragmentno, offset, txframeno);
      mbx_cnt := NextCount(mbx_cnt);
      f := Fragment(4 + txframesize, MBXT_EOE + mbx_cnt * 0x10, frameinfo1, frameinfo2,
                    payload[txframeoffset..txframeoffset + txframesize]);
    }

    /** ecx_mbxsend: nothing is sent from a mailbox larger than the buffer. */
    function Posted(link: nat -> int, n: nat): (wkc: int)
      ensures wkc > 0 ==> mbx_l <= EC_MAXMBX
    {
      if 0 < mbx_l <= EC_MAXMBX then link(n) else 0
    }

    /** The loop of ecx_EOEsend, for at most `turns` turns and for any mailbox that keeps the copies inside
        the buffer; `link` gives the work counter of the n-th mailbox send, and a failed send ends the frame.
        With no failed send it is finished exactly when so many turns reach the end of the payload. */
    method SendFor(turns: nat, port: byte, payload: seq<byte>, link: nat -> int)
      returns (wkc: int, sent: seq<Fragment>, finished: bool)
      requires mbx_cnt <= 7 && |payload| < 0x1_0000 - 4 && CopyFits(|payload|, mbx_l)
      modifies this
      ensures mbx_cnt <= 7 && txframeno == FrameNumber(old(txframeno), |sent|) && |sent| <= turns
      ensures finished || wkc <= 0 || |sent| == turns
      ensures sent == [] ==> wkc == 1 && !finished
      ensures sent != [] ==> wkc == Posted(link, |sent| - 1)
      ensures forall k :: 0 <= k < |sent| - 1 ==> Posted(link, k) > 0
      ensures forall f :: f in sent ==> 6 + f.length <= mbx_l
      ensures sent == SentIn(payload, port, old(txframeno) + 1, NextCount(old(mbx_cnt)), mbx_l - 10, |sent|)
      ensures |sent| > 1 ==> OffsetAfter(|payload|, mbx_l - 10, |sent| - 1) < |payload|
      ensures finished <==> sent != [] && OffsetAfter(|payload|, mbx_l - 10, |sent|) == |payload|
      ensures wkc > 0 ==> (finished <==> turns > 0 && OffsetAfter(|payload|, mbx_l - 10, turns) == |payload|)
    {
      hide MakeFragment, TxSize, FrameNumber, FragmentNumber, CopyFits, SentIn, CountAfter, OffsetAfter, Posted;
      var txfragmentno: byte, txframeoffset: nat, notLast := 0, 0, true;
      sent, wkc := [], 1;
      ghost var cnt, maxdata: nat, before: byte := NextCount(mbx_cnt), mbx_l - 10, txframeno;
      NumberBefore(before);
      NothingSent(payload, port, before + 1, cnt, maxdata);
      while notLast && wkc > 0 && |sent| < turns
        invariant mbx_cnt <= 7 && |sent| <= turns && txframeno == FrameNumber(before, |sent|)
        invariant sent == SentIn(payload, port, before + 1, cnt, maxdata, |sent|)
        invariant NextCount(mbx_cnt) == CountAfter(cnt, |sent|)
        invariant notLast && wkc > 0 ==>
                    txfragmentno == FragmentNumber(|sent|) && txframeoffset == OffsetAfter(|payload|, maxdata, |sent|)
        invariant |sent| > 1 ==> OffsetAfter(|payload|, maxdata, |sent| - 1) < |payload|
        invariant notLast <==> sent == [] || OffsetAfter(|payload|, maxdata, |sent|) != |payload|
        invariant sent == [] ==> wkc == 1
        invariant sent != [] ==> wkc == Posted(link, |sent| - 1)
        invariant forall k :: 0 <= k < |sent| - 1 ==> Posted(link, k) > 0
        decreases turns - |sent|
      {
        TurnFits(|payload|, mbx_l, |sent|);
        OneTurn(payload, port, before + 1, cnt, maxdata, |sent|);
        var f, last := Prepare(port, payload, txframeoffset, txfragmentno, before, |sent|);
        notLast := !last;
        wkc := Posted(link, |sent|);
        NextFragment(|sent|);
        sent := sent + [f];
        if notLast && wkc > 0 {
          txframeoffset := txframeoffset + |f.data|;
          txfragmentno := (txfragmentno + 1) % 0x100;
        }
      }
      finished := !notLast;
      SentFit(payload, port, before + 1, cnt, maxdata, |sent|);
      if finished && wkc > 0 {
        StaysAtEnd(|payload|, maxdata, |sent|, turns);
      }
    }

    /** ecx_EOEsend, for a payload whose loop ends: a prefix of its fragments is sent, all of them if
        no send fails. */
    method Send(port: byte, payload: seq<byte>, link: nat -> int) returns (wkc: int, sent: seq<Fragment>)
      requires mbx_cnt <= 7 && |payload| < 0x1_0000 - 4 && CopyFits(|payload|, mbx_l)
      requires Sendable(|payload|, mbx_l - 10)
      modifies this
      ensures mbx_cnt <= 7 && txframeno == FrameNumber(old(txframeno), |sent|)
      ensures var all := FragmentsFrom(payload, port, old(txframeno) + 1, NextCount(old(mbx_cnt)), mbx_l - 10, 0, 0);
              && sent != [] && sent <= all
              && (|sent| > 1 ==> mbx_l <= 1486) && (forall k :: 0 <= k < |sent| - 1 ==> link(k) > 0)
              && wkc == (if mbx_l <= 1486 then link(|sent| - 1) else 0) && (wkc > 0 ==> sent == all)
      ensures forall f :: f in sent ==> 6 + f.length <= mbx_l
    {
      hide FragmentsFrom, SentIn, OffsetAfter, TxSize;
      ghost var finished;
      ReachesEnd(|payload|, mbx_l - 10, |payload| + 1);
      wkc, sent, finished := SendFor(|payload| + 1, port, payload, link);
      assert |sent| > 1 ==> Posted(link, 0) > 0;
      forall k | 0 <= k < |sent| - 1 ensures link(k) > 0 {
        assert Posted(link, k) > 0;
      }
      SentAreFragments(payload, port, old(txframeno) + 1, NextCount(old(mbx_cnt)), mbx_l - 10, |sent|);
    }
  }

  // ---- receiving ----

  /** The working variables of a frame under reassembly, and the caller's buffer. */
  datatype Rx = Rx(fragmentno: byte, framesize: u16, frameoffset: u16, frameno: u16, psize: int, buf: seq<byte>) {
    function Reset(): Rx {
      this.(fragmentno := 0, framesize := 0, frameoffset := 0, frameno := 0)
    }
    /** The first fragment of a frame. */
    function Begin(f: Fragment): Rx {
      this.(fragmentno := 0, framesize := f.Offset() * 32, frameoffset := 0, frameno := f.FrameNo())
    }
  }

  function Receive(rx: Rx, f: Fragment): (r: (Rx, int))
    requires rx.psize <= |rx.buf| && f.DataSize() <= |f.data|
    ensures |r.0.buf| == |rx.buf| && (r.1 == 0 ==> r.0.psize == rx.psize)
  {
    if f.mbxtype % 0x10 != MBXT_EOE then (rx, PACKET_ERROR)
    else if rx.fragmentno != f.FragNo() && f.FragNo() > 0 then
      (if rx.fragmentno != 0 then rx.Reset() else rx, INVALID_RX_DATA)
    else if rx.fragmentno == f.FragNo() != 0 && (rx.frameno != f.FrameNo() || rx.frameoffset != f.Offset() * 32) then
      (rx.Reset(), INVALID_RX_DATA)
    else
      Store(if f.FragNo() == 0 then rx.Begin(f) else rx, f)
  }

  /** The second half of the reader: copy if the fragment is inside the frame, finish on the last. */
  function Store(rx: Rx, f: Fragment): (r: (Rx, int))
    requires rx.psize <= |rx.buf| && f.DataSize() <= |f.data|
    ensures |r.0.buf| == |rx.buf| && (r.1 == 0 ==> r.0.psize == rx.psize)
  {
    var off, size := rx.frameoffset, f.DataSize();
    var rx1 :=
      if off + size <= rx.framesize && off + size <= rx.psize then
        rx.(buf := rx.buf[..off] + f.data[..size] + rx.buf[off + size..],
            frameoffset := off + size, fragmentno := (rx.fragmentno + 1) % 0x100)
      else rx;
    if f.LastFragment() then
      (rx1.Reset().(psize := if f.TimeAppend() then (rx1.frameoffset - 4) % 0x1_0000 else rx1.frameoffset), 1)
    else (rx1, 0)
  }

  class Receiver {
    var rxfragmentno: byte
    var rxframesize: u16
    var rxframeoffset: u16
    var rxframeno: u16
    var psize: int
    const buf: array<byte>

    ghost function View(): Rx
      reads this, buf
    {
      Rx(rxfragmentno, rxframesize, rxframeoffset, rxframeno, psize, buf[..])
    }

    constructor (buf: array<byte>, psize: int, stale: Rx)
      ensures this.buf == buf && View() == stale.(psize := psize, buf := buf[..])
    {
      this.buf, this.psize := buf, psize;
      rxfragmentno, rxframesize, rxframeoffset, rxframeno :=
        stale.fragmentno, stale.framesize, stale.frameoffset, stale.frameno;
    }

    method Restart()
      modifies this
      ensures View() == old(View()).Reset()
    {
      rxfragmentno, rxframesize, rxframeoffset, rxframeno := 0, 0, 0, 0;
    }

    /** ecx_EOEreadfragment. */
    method ReadFragment(f: Fragment) returns (wkc: int)
      requires psize <= buf.Length && f.DataSize() <= |f.data|
      modifies this, buf
      ensures View() == Receive(old(View()), f).0 && wkc == Receive(old(View()), f).1
    {
      if f.mbxtype % 0x10 != MBXT_EOE {
        return PACKET_ERROR;
      }
      var eoedatasize := f.DataSize();
      if rxfragmentno != f.FragNo() {
        if rxfragmentno != 0 {
          Restart();
        }
        if f.FragNo() > 0 {
          return INVALID_RX_DATA;
        }
      }
      if rxfragmentno == 0 {
        rxframesize := f.Offset() * 32;
        rxframeoffset := 0;
        rxframeno := f.FrameNo();
      } else if rxframeno != f.FrameNo() || rxframeoffset != f.Offset() * 32 {
        Restart();
        return INVALID_RX_DATA;
      }
      wkc := Finish(f, eoedatasize);
    }

    method Copy(data: seq<byte>)
      requires rxframeoffset + |data| <= buf.Length
      modifies buf
      ensures buf[..] == old(buf[..rxframeoffset]) + data + old(buf[rxframeoffset + |data|..])
    {
      forall k | 0 <= k < |data| {
        buf[rxframeoffset + k] := data[k];
      }
    }

    method Finish(f: Fragment, eoedatasize: u16) returns (wkc: int)
      requires psize <= buf.Length && eoedatasize == f.DataSize() <= |f.data|
      modifies this, buf
      ensures View() == Store(old(View()), f).0 && wkc == Store(old(View()), f).1
    {
      wkc := 0;
      if rxframeoffset + eoedatasize <= rxframesize && rxframeoffset + eoedatasize <= psize {
        Copy(f.data[..eoedatasize]);
        rxframeoffset := rxframeoffset + eoedatasize;
        rxfragmentno := (rxfragmentno + 1) % 0x100;
      }
      if f.LastFragment() {
        if f.TimeAppend() {
          rxframeoffset := (rxframeoffset - 4) % 0x1_0000;
        }
        psize := rxframeoffset;
        Restart();
        wkc := 1;
      }
    }
  }

  // ---- reassembly ----

  /** The reader fed with a sequence of fragments: final state, and whether exactly the last
      fragment completed a frame. */
  function ReceiveAll(rx: Rx, frags: seq<Fragment>): (r: (Rx, bool))
    requires rx.psize <= |rx.buf| && forall f :: f in frags ==> f.DataSize() <= |f.data|
    requires frags != []
    ensures |r.0.buf| == |rx.buf|
    decreases |frags|
  {
    var (rx1, wkc) := Receive(rx, frags[0]);
    if |frags| == 1 then (rx1, wkc == 1)
    else if wkc != 0 then (rx1, false)
    else ReceiveAll(rx1, frags[1..])
  }

  /** The reader is inside the frame: everything before `off` is in place. */
  ghost predicate Inside(rx: Rx, payload: seq<byte>, frameno: nat, off: nat, no: nat, capacity: int) {
    && rx.psize == capacity <= |rx.buf| && |payload| <= capacity
    && off <= |payload| && off % 32 == 0
    && rx.fragmentno == no && no * 32 <= off && rx.frameoffset == off && rx.frameno == frameno % 0x10
    && rx.framesize == (|payload| + 31) / 32 * 32
    && rx.buf[..off] == payload[..off]
  }

  lemma StoreFits(rx: Rx, f: Fragment, payload: seq<byte>, frameno: nat, off: nat, no: nat, capacity: int)
    requires Inside(rx, payload, frameno, off, no, capacity) && |payload| <= 2016
    requires f.DataSize() == |f.data| && !f.TimeAppend() && f.mbxtype % 0x10 == MBXT_EOE
    requires off + |f.data| <= |payload| && f.data == payload[off..off + |f.data|]
    ensures var (rx1, wkc) := Store(rx, f);
            var end := off + |f.data|;
            if f.LastFragment() then wkc == 1 && rx1.psize == end && rx1.buf[..end] == payload[..end]
            else wkc == 0 && rx1 == rx.(buf := rx1.buf, frameoffset := off + |f.data|, fragmentno := no + 1) &&
                 rx1.buf[..off + |f.data|] == payload[..off + |f.data|]
  {
    var size := |f.data|;
    var buf := rx.buf[..off] + f.data[..size] + rx.buf[off + size..];
    assert buf[..off + size] == payload[..off] + payload[off..off + size] == payload[..off + size];
  }

  lemma FragmentShape(payload: seq<byte>, port: byte, frameno: nat, cnt: nat, maxdata: nat, off: nat, no: nat)
    requires |payload| <= 2016 && Sendable(|payload|, maxdata) && cnt <= 7
    requires off <= |payload| && off % 32 == 0 && no * 32 <= off
    ensures var f := MakeFragment(payload, port, frameno, cnt, maxdata, off, no);
            && f.DataSize() == |f.data| && !f.TimeAppend() && f.mbxtype % 0x10 == MBXT_EOE
            && f.LastFragment() == (off + |f.data| == |payload|)
            && (!f.LastFragment() ==> |f.data| >= 32 && |f.data| % 32 == 0)
            && f.FragNo() == no && f.FrameNo() == frameno % 0x10
            && f.Offset() * 32 == if no > 0 then off else (|payload| + 31) / 32 * 32
  {
    var f := MakeFragment(payload, port, frameno, cnt, maxdata, off, no);
    var size := TxSize(|payload|, maxdata, off);
    SmallNumbers(|payload|, off, no);
    InfoRoundTrip(off + size == |payload|, port, no, if no > 0 then off / 32 else (|payload| + 31) / 32, frameno, f);
  }

  lemma SmallNumbers(total: nat, off: nat, no: nat)
    requires off <= total <= 2016 && off % 32 == 0 && no * 32 <= off
    ensures no % 0x40 == no % 0x100 == no && no / 0x100 == 0
    ensures off / 32 % 0x40 * 32 == off && (total + 31) / 32 % 0x40 == (total + 31) / 32
  {}

  /** The fragment a sender makes for offset `off` takes the reader to the Store step of a frame
      that is in place up to `off`: the first one from any state, the later ones from inside. */
  lemma FragmentAccepted(rx: Rx, payload: seq<byte>, port: byte, frameno: nat, cnt: nat, maxdata: nat, off: nat,
                         no: nat, capacity: int)
    returns (at: Rx)
    requires |payload| <= 2016 && Sendable(|payload|, maxdata) && cnt <= 7
    requires off <= |payload| && (no > 0 ==> off < |payload|)
    requires rx.psize == capacity <= |rx.buf| && |payload| <= capacity
    requires if no == 0 then off == 0 else Inside(rx, payload, frameno, off, no, capacity)
    ensures var f := MakeFragment(payload, port, frameno, cnt, maxdata, off, no);
            && Inside(at, payload, frameno, off, no, capacity) && |at.buf| == |rx.buf| && at.psize == capacity
            && f.DataSize() == |f.data| && Receive(rx, f) == Store(at, f)
            && !f.TimeAppend() && f.mbxtype % 0x10 == MBXT_EOE
            && f.LastFragment() == (off + |f.data| == |payload|)
            && (!f.LastFragment() ==> |f.data| >= 32 && |f.data| % 32 == 0)
  {
    hide MakeFragment, Store;
    var f := MakeFragment(payload, port, frameno, cnt, maxdata, off, no);
    FragmentShape(payload, port, frameno, cnt, maxdata, off, no);
    at := if no == 0 then rx.Begin(f) else rx;
    assert rx.buf[..0] == payload[..0] == [];
  }

  lemma {:induction false} ReassembledFrom(rx: Rx, payload: seq<byte>, port: byte, frameno: nat, cnt: nat, maxdata: nat,
                                           off: nat, no: nat, capacity: int)
    requires |payload| <= 2016 && Sendable(|payload|, maxdata) && cnt <= 7
    requires off <= |payload| && (no > 0 ==> off < |payload|)
    requires rx.psize == capacity <= |rx.buf| && |payload| <= capacity
    requires if no == 0 then off == 0 else Inside(rx, payload, frameno, off, no, capacity)
    ensures var frags := FragmentsFrom(payload, port, frameno, cnt, maxdata, off, no);
            && (forall f :: f in frags ==> f.DataSize() <= |f.data|)
            && var (end, done) := ReceiveAll(rx, frags);
               done && end.psize == |payload| && end.buf[..|payload|] == payload
    decreases |payload| - off
  {
    hide MakeFragment, Receive, Store, Inside;
    var at := FragmentAccepted(rx, payload, port, frameno, cnt, maxdata, off, no, capacity);
    var f := MakeFragment(payload, port, frameno, cnt, maxdata, off, no);
    var frags := FragmentsFrom(payload, port, frameno, cnt, maxdata, off, no);
    FragmentData(payload, port, frameno, cnt, maxdata, off, no);
    StoreFits(at, f, payload, frameno, off, no, capacity);
    var (rx1, wkc) := Store(at, f);
    if f.LastFragment() {
      assert frags == [f];
      assert payload[..|payload|] == payload;
    } else {
      var next := off + |f.data|;
      InsideNext(at, rx1, payload, frameno, off, no, |f.data|, capacity);
      ReassembledFrom(rx1, payload, port, frameno, NextCount(cnt), maxdata, next, no + 1, capacity);
      assert frags[0] == f;
      assert frags[1..] == FragmentsFrom(payload, port, frameno, NextCount(cnt), maxdata, next, no + 1);
    }
  }

  lemma FragmentData(payload: seq<byte>, port: byte, frameno: nat, cnt: nat, maxdata: nat, off: nat, no: nat)
    requires off <= |payload| <= 2016 && Sendable(|payload|, maxdata) && cnt <= 7
    ensures var f := MakeFragment(payload, port, frameno, cnt, maxdata, off, no);
            |f.data| == TxSize(|payload|, maxdata, off) && f.data == payload[off..off + |f.data|]
  {}

  lemma InsideNext(at: Rx, rx1: Rx, payload: seq<byte>, frameno: nat, off: nat, no: nat, size: nat, capacity: int)
    requires Inside(at, payload, frameno, off, no, capacity) && size >= 32 && size % 32 == 0
    requires off + size <= |payload| <= 2016
    requires |rx1.buf| == |at.buf| && rx1 == at.(buf := rx1.buf, frameoffset := off + size, fragmentno := no + 1)
    requires rx1.buf[..off + size] == payload[..off + size]
    ensures Inside(rx1, payload, frameno, off + size, no + 1, capacity)
  {}

  /** From every receiver state an abandoned frame can leave, and for every mailbox with at least
      32 data bytes (or a payload that fits one fragment), the frame that was sent is delivered. */
  lemma Reassembled(stale: Rx, payload: seq<byte>, port: byte, frameno: nat, cnt: nat, maxdata: nat)
    requires |payload| <= 2016 && Sendable(|payload|, maxdata) && cnt <= 7
    requires |payload| <= stale.psize <= |stale.buf|
    ensures var frags := FragmentsFrom(payload, port, frameno, cnt, maxdata, 0, 0);
            && (forall f :: f in frags ==> f.DataSize() <= |f.data|)
            && var (end, done) := ReceiveAll(stale, frags);
               done && end.psize == |payload| && end.buf[..|payload|] == payload
  {
    ReassembledFrom(stale, payload, port, frameno, cnt, maxdata, 0, 0, stale.psize);
  }

  // ---- the limits of the promise ----

  /** The 6-bit size field covers at most 63 blocks. */
  predicate Bounded(rx: Rx) {
    rx.frameoffset <= rx.framesize <= 2016
  }

  lemma ReceiveBounded(rx: Rx, f: Fragment)
    requires Bounded(rx) && rx.psize <= |rx.buf| && f.DataSize() <= |f.data|
    ensures Bounded(Receive(rx, f).0)
    ensures Receive(rx, f).1 == 1 && !f.TimeAppend() ==> Receive(rx, f).0.psize <= 2016
  {}

  lemma {:induction false} ReceiveAllBounded(rx: Rx, frags: seq<Fragment>)
    requires Bounded(rx) && rx.psize <= |rx.buf| && frags != []
    requires forall f :: f in frags ==> f.DataSize() <= |f.data| && !f.TimeAppend()
    ensures ReceiveAll(rx, frags).1 ==> ReceiveAll(rx, frags).0.psize <= 2016
    decreases |frags|
  {
    hide Receive;
    ReceiveBounded(rx, frags[0]);
    var (rx1, wkc) := Receive(rx, frags[0]);
    if |frags| > 1 && wkc == 0 {
      ReceiveAllBounded(rx1, frags[1..]);
    }
  }

  lemma PlainFragment(payload: seq<byte>, port: byte, frameno: nat, cnt: nat, maxdata: nat, off: nat, no: nat)
    requires off <= |payload| < 0x1_0000 - 4 && cnt <= 7
    ensures var f := MakeFragment(payload, port, frameno, cnt, maxdata, off, no);
            f.DataSize() <= |f.data| && !f.TimeAppend()
  {
    hide Info2;
  }

  lemma {:induction false} FragmentsPlain(payload: seq<byte>, port: byte, frameno: nat, cnt: nat, maxdata: nat,
                                          off: nat, no: nat)
    requires off <= |payload| && |payload| < 0x1_0000 - 4 && Sendable(|payload|, maxdata) && cnt <= 7
    ensures forall f :: f in FragmentsFrom(payload, port, frameno, cnt, maxdata, off, no) ==>
              f.DataSize() <= |f.data| && !f.TimeAppend()
    decreases |payload| - off
  {
    hide MakeFragment;
    PlainFragment(payload, port, frameno, cnt, maxdata, off, no);
    var size := TxSize(|payload|, maxdata, off);
    if off + size < |payload| {
      FragmentsPlain(payload, port, frameno, NextCount(cnt), maxdata, off + size, no + 1);
    }
  }

  /** Delivery is exact: a frame that is sent arrives whole if and only if it has at most 2016 bytes. */
  lemma DeliveredIff(stale: Rx, payload: seq<byte>, port: byte, frameno: nat, cnt: nat, maxdata: nat)
    requires |payload| < 0x1_0000 - 4 && Sendable(|payload|, maxdata) && cnt <= 7
    requires Bounded(stale) && |payload| <= stale.psize <= |stale.buf|
    ensures var frags := FragmentsFrom(payload, port, frameno, cnt, maxdata, 0, 0);
            && (forall f :: f in frags ==> f.DataSize() <= |f.data|)
            && var (end, done) := ReceiveAll(stale, frags);
               (done && |payload| == end.psize && payload <= end.buf) <==> |payload| <= 2016
  {
    FragmentsPlain(payload, port, frameno, cnt, maxdata, 0, 0);
    var frags := FragmentsFrom(payload, port, frameno, cnt, maxdata, 0, 0);
    if |payload| <= 2016 {
      Reassembled(stale, payload, port, frameno, cnt, maxdata);
    } else {
      ReceiveAllBounded(stale, frags);
    }
  }

  /** With every mailbox send succeeding, some number of turns of the sender's loop reaches the last
      fragment (see SendFor) if and only if a fragment can carry a 32-octet block or the payload fits
      one fragment. */
  lemma SenderFinishesIff(total: nat, maxdata: nat)
    ensures (exists n: nat :: n > 0 && OffsetAfter(total, maxdata, n) == total) <==> Sendable(total, maxdata)
  {
    if Sendable(total, maxdata) {
      ReachesEnd(total, maxdata, total + 1);
      assert OffsetAfter(total, maxdata, total + 1) == total;
    } else {
      forall n: nat ensures OffsetAfter(total, maxdata, n) == 0 {
        StuckAtZero(total, maxdata, n);
      }
    }
  }
}
