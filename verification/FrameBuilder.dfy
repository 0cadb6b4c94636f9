/** Building EtherCAT frames in place (ecx_setupdatagram, ecx_adddatagram, ecx_FPRD_multi in SOEM),
    and what the two parsers make of them. */
module FrameBuilder {
  import opened Bytes
  import opened FrameParsers

  const ETH_HEADERSIZE := 14
  const EC_HEADERSIZE := 12
  const EC_ELENGTHSIZE := 2
  const EC_WKCSIZE := 2
  const EC_ECATTYPE := 0x1000
  const EC_DATAGRAMFOLLOWS := 0x8000
  const FPRD := 4
  const ECT_REG_ALSTAT := 0x0130
  const ALSTATUS := 6     // size of ec_alstatust

  /** What a caller asks for. */
  datatype Ask = Ask(command: byte, index: byte, adp: u16, ado: u16, data: seq<byte>)

  /** NOP, APRD, FPRD, BRD and LRD carry no data of the master's. */
  predicate IsRead(command: byte) {
    command in {0, 1, 4, 7, 10}
  }

  /** The data area of a fresh datagram. */
  function OnWire(ask: Ask): (d: seq<byte>)
    ensures |d| == |ask.data|
  {
    if IsRead(ask.command) then Zeros(|ask.data|) else ask.data
  }

  /** Where the k-th datagram of a frame starts. */
  function Pos(asks: seq<Ask>, k: nat): (p: nat)
    requires k <= |asks|
    ensures p >= 16 + 12 * k
  {
    if k == 0 then 16 else Pos(asks, k - 1) + 12 + |asks[k - 1].data|
  }

  function Flags(ask: Ask, more: bool): nat {
    |ask.data| + if more then EC_DATAGRAMFOLLOWS else 0
  }

  /** A datagram for `ask` lies at `pos`, not yet processed by any slave. */
  predicate At(b: seq<byte>, pos: nat, ask: Ask, more: bool) {
    && pos + 12 + |ask.data| <= |b| && |ask.data| < 0x800
    && b[pos] == ask.command && b[pos + 1] == ask.index
    && Word(b, pos + 2) == ask.adp && Word(b, pos + 4) == ask.ado
    && Word(b, pos + 6) == Flags(ask, more)
    && b[pos + 10..pos + 10 + |ask.data|] == OnWire(ask)
    && Word(b, pos + 10 + |ask.data|) == 0
  }

  /** The frame so far: headers, and the datagrams for `asks` back to back. Every datagram but the
      last says that another follows; the last one says so if `lastMore`. */
  ghost predicate Built(b: seq<byte>, length: nat, asks: seq<Ask>, lastMore: bool) {
    && asks != [] && length == Pos(asks, |asks|) <= |b| && length <= EC_MAXECATFRAME
    && b[12] == 0x88 && b[13] == 0xa4
    && Word(b, 14) == EC_ECATTYPE + (length - 16)
    && forall k :: 0 <= k < |asks| ==> At(b, Pos(asks, k), asks[k], k < |asks| - 1 || lastMore)
  }

  lemma {:induction false} PosMonotone(asks: seq<Ask>, j: nat, k: nat)
    requires j < k <= |asks|
    ensures Pos(asks, j) + 12 + |asks[j].data| <= Pos(asks, k)
  {
    if j < k - 1 {
      PosMonotone(asks, j, k - 1);
    }
  }

  lemma {:induction false} PosAppend(asks: seq<Ask>, ask: Ask, k: nat)
    requires k <= |asks|
    ensures Pos(asks + [ask], k) == Pos(asks, k)
  {
    if k > 0 {
      PosAppend(asks, ask, k - 1);
    }
  }

  lemma AtKept(b: seq<byte>, c: seq<byte>, pos: nat, ask: Ask, more: bool)
    requires At(b, pos, ask, more) && |c| == |b|
    requires forall i :: pos <= i < pos + 12 + |ask.data| ==> c[i] == b[i]
    ensures At(c, pos, ask, more)
  {
    assert c[pos + 10..pos + 10 + |ask.data|] == b[pos + 10..pos + 10 + |ask.data|];
  }

  /** Raising the "another follows" flag of a datagram changes nothing else of it. */
  lemma AtFlagged(b: seq<byte>, c: seq<byte>, pos: nat, ask: Ask, more: bool)
    requires At(b, pos, ask, more) && |c| == |b|
    requires Word(c, pos + 6) == Flags(ask, true)
    requires forall i :: pos <= i < pos + 12 + |ask.data| && i != pos + 6 && i != pos + 7 ==> c[i] == b[i]
    ensures At(c, pos, ask, true)
  {
    assert c[pos + 10..pos + 10 + |ask.data|] == b[pos + 10..pos + 10 + |ask.data|];
  }

  /** A header with the data and a zero work counter behind it is a datagram. */
  lemma DatagramIn(b: seq<byte>, a: seq<byte>, pos: nat, ask: Ask, more: bool)
    requires pos + 12 + |ask.data| <= |b| && |ask.data| < 0x800
    requires b[pos] == ask.command && b[pos + 1] == ask.index
    requires Word(b, pos + 2) == ask.adp && Word(b, pos + 4) == ask.ado && Word(b, pos + 6) == Flags(ask, more)
    requires a == b[..pos + 10] + OnWire(ask) + [0, 0] + b[pos + 12 + |ask.data|..]
    ensures At(a, pos, ask, more) && a[..pos] == b[..pos]
  {
    hide OnWire, Flags;
    assert a[..pos + 10] == b[..pos + 10];
    assert forall i :: 0 <= i < pos + 10 ==> a[i] == b[i];
    assert a[pos + 10..pos + 10 + |ask.data|] == OnWire(ask);
  }

  class Port {
    const txbuf: array<byte>
    var txbuflength: nat

    constructor ()
      ensures fresh(txbuf) && txbuf.Length == 1518 && txbuf[12] == 0x88 && txbuf[13] == 0xa4
    {
      txbuf := new byte[EC_MAXECATFRAME](i => if i == 12 then 0x88 else if i == 13 then 0xa4 else 0);
      txbuflength := 0;
    }

    method PutWord(at: nat, w: u16)
      requires at + 2 <= txbuf.Length
      modifies txbuf
      ensures txbuf[..] == old(txbuf[..])[at := w % 0x100][at + 1 := w / 0x100]
    {
      txbuf[at] := w % 0x100;
      txbuf[at + 1] := w / 0x100;
    }

    /** ecx_writedatagramdata, and the zero work counter behind the data. */
    method WriteData(at: nat, ask: Ask)
      requires at + |ask.data| + 2 <= txbuf.Length
      modifies txbuf
      ensures txbuf[..] == old(txbuf[..at]) + OnWire(ask) + [0, 0] + old(txbuf[at + |ask.data| + 2..])
    {
      if IsRead(ask.command) {
        forall k | 0 <= k < |ask.data| {
          txbuf[at + k] := 0;
        }
      } else {
        forall k | 0 <= k < |ask.data| {
          txbuf[at + k] := ask.data[k];
        }
      }
      txbuf[at + |ask.data|] := 0;
      txbuf[at + |ask.data| + 1] := 0;
    }

    /** The datagram header behind the length field, the data and the work counter. */
    method WriteDatagram(pos: nat, ask: Ask, more: bool)
      requires pos + 12 + |ask.data| <= txbuf.Length && |ask.data| < 0x800
      modifies txbuf
      ensures At(txbuf[..], pos, ask, more)
      ensures txbuf[..pos] == old(txbuf[..pos])
    {
      hide At, OnWire;
      txbuf[pos] := ask.command;
      txbuf[pos + 1] := ask.index;
      PutWord(pos + 2, ask.adp);
      PutWord(pos + 4, ask.ado);
      PutWord(pos + 6, Flags(ask, more));
      ghost var before := txbuf[..];
      WriteData(pos + 10, ask);
      DatagramIn(before, txbuf[..], pos, ask, more);
    }

    /** ecx_setupdatagram: the first datagram of a frame. */
    method SetupDatagram(ask: Ask)
      requires txbuf.Length == 1518 && txbuf[12] == 0x88 && txbuf[13] == 0xa4
      requires 16 + 12 + |ask.data| <= 1518
      modifies this, txbuf
      ensures Built(txbuf[..], txbuflength, [ask], false) && txbuflength == 28 + |ask.data|
    {
      PutWord(ETH_HEADERSIZE, EC_ECATTYPE + EC_HEADERSIZE + |ask.data|);
      ghost var before := txbuf[..];
      WriteDatagram(ETH_HEADERSIZE + EC_ELENGTHSIZE, ask, false);
      assert forall i :: 0 <= i < 16 ==> txbuf[i] == txbuf[..16][i] == before[i];
      txbuflength := ETH_HEADERSIZE + EC_HEADERSIZE + EC_WKCSIZE + |ask.data|;
      assert Pos([ask], 1) == 28 + |ask.data|;
    }

    /** Lengthen the frame and say that a datagram follows the first one. */
    method Lengthen(extra: nat, ghost ask: Ask, ghost more: bool)
      requires txbuf.Length == 1518 && Word(txbuf[..], 14) + extra < 0x1_0000
      requires Word(txbuf[..], 22) == Flags(ask, more) && |ask.data| < 0x800
      modifies txbuf
      ensures Untouched(old(txbuf[..]), txbuf[..], 1518)
      ensures Word(txbuf[..], 14) == old(Word(txbuf[..], 14)) + extra && Word(txbuf[..], 22) == Flags(ask, true)
    {
      var elength := txbuf[14] as int + txbuf[15] as int * 0x100;
      PutWord(14, elength + extra);
      var first := txbuf[22] as int + txbuf[23] as int * 0x100;
      if first / EC_DATAGRAMFOLLOWS == 0 {
        first := first + EC_DATAGRAMFOLLOWS;
      }
      PutWord(22, first);
    }

    /** ecx_adddatagram: append a datagram and return where its data will be in the received frame,
        whose Ethernet header is stripped. */
    method AddDatagram(ask: Ask, more: bool, ghost asks: seq<Ask>, ghost lastMore: bool) returns (offset: nat)
      requires txbuf.Length == 1518 && Built(txbuf[..], txbuflength, asks, lastMore)
      requires |asks| == 1 || lastMore
      requires txbuflength + 12 + |ask.data| <= 1518
      modifies this, txbuf
      ensures Built(txbuf[..], txbuflength, asks + [ask], more)
      ensures txbuflength == old(txbuflength) + 12 + |ask.data|
      ensures ETH_HEADERSIZE + offset == old(txbuflength) + 10
    {
      hide Flags;
      var prevlength := txbuflength;
      ghost var b := txbuf[..];
      assert At(b, Pos(asks, 0), asks[0], 0 < |asks| - 1 || lastMore);
      Lengthen(EC_HEADERSIZE + |ask.data|, asks[0], 0 < |asks| - 1 || lastMore);
      ghost var c := txbuf[..];
      WriteDatagram(prevlength, ask, more);
      txbuflength := prevlength + EC_HEADERSIZE - EC_ELENGTHSIZE + EC_WKCSIZE + |ask.data|;
      offset := prevlength + EC_HEADERSIZE - EC_ELENGTHSIZE - ETH_HEADERSIZE;
      KeptBelow(b, c, txbuf[..], prevlength);
      BuiltStep(b, txbuf[..], prevlength, asks, lastMore, ask, more);
    }
  }

  lemma KeptBelow(b: seq<byte>, c: seq<byte>, d: seq<byte>, n: nat)
    requires 28 <= n <= |b| == |c| == |d| && Untouched(b, c, |b|) && d[..n] == c[..n]
    ensures Untouched(b, d, n) && Word(d, 14) == Word(c, 14) && Word(d, 22) == Word(c, 22)
  {
    assert forall i :: 0 <= i < n ==> d[i] == d[..n][i] == c[..n][i] == c[i];
  }

  /** Nothing but the frame length and the first datagram's flags has changed below n. */
  ghost predicate Untouched(b: seq<byte>, d: seq<byte>, n: nat)
    requires n <= |b| == |d|
  {
    forall i :: 0 <= i < n && (i < 14 || 16 <= i < 22 || 24 <= i) ==> d[i] == b[i]
  }

  /** One more datagram behind a frame, given what was written where. */
  lemma BuiltStep(b: seq<byte>, d: seq<byte>, length: nat, asks: seq<Ask>, lastMore: bool, ask: Ask, more: bool)
    requires Built(b, length, asks, lastMore) && (|asks| == 1 || lastMore)
    requires |d| == |b| && length + 12 + |ask.data| <= 1518 <= |b|
    requires Untouched(b, d, length)
    requires Word(d, 14) == Word(b, 14) + 12 + |ask.data|
    requires Word(d, 22) == Flags(asks[0], true)
    requires At(d, length, ask, more)
    ensures Built(d, length + 12 + |ask.data|, asks + [ask], more)
  {
    hide At, Flags, Untouched;
    var all := asks + [ask];
    PosAppend(asks, ask, |asks|);
    forall k | 0 <= k < |all| ensures At(d, Pos(all, k), all[k], k < |all| - 1 || more) {
      if k < |asks| {
        PosAppend(asks, ask, k);
        PosMonotone(asks, k, |asks|);
        KeptAt(b, d, length, Pos(asks, k), asks[k], k < |asks| - 1 || lastMore, k == 0);
      }
    }
    assert d[12] == b[12] && d[13] == b[13] by { FirstBytes(b, d, length); }
  }

  lemma FirstBytes(b: seq<byte>, d: seq<byte>, n: nat)
    requires 16 <= n <= |b| == |d| && Untouched(b, d, n)
    ensures d[12] == b[12] && d[13] == b[13]
  {}

  lemma KeptAt(b: seq<byte>, d: seq<byte>, n: nat, pos: nat, ask: Ask, more: bool, first: bool)
    requires n <= |b| == |d| && Untouched(b, d, n)
    requires At(b, pos, ask, more) && pos + 12 + |ask.data| <= n
    requires if first then pos == 16 && Word(d, 22) == Flags(ask, true) else pos >= 28 && more
    ensures At(d, pos, ask, true)
  {
    if first {
      AtFlagged(b, d, pos, ask, more);
    } else {
      AtKept(b, d, pos, ask, more);
    }
  }

  // ---- what the parsers make of a finished frame ----

  /** The decoder reports exactly what was asked for, with fresh data, in place. */
  predicate Reports(d: Datagram, ask: Ask, pos: nat, more: bool) {
    && d.command == ask.command && d.index == ask.index && d.adp == ask.adp && d.ado == ask.ado
    && d.data == OnWire(ask) && d.wkc == 0 && d.more == more && !d.circulating && d.offset == pos
  }

  lemma AtDecodes(b: seq<byte>, pos: nat, ask: Ask, more: bool)
    requires At(b, pos, ask, more)
    ensures Count(b, pos) == |ask.data| && More(b, pos) == more
    ensures Reports(DatagramAt(b, pos), ask, pos, more)
  {}

  predicate AllReport(ds: seq<Datagram>, asks: seq<Ask>, k: nat) {
    && |ds| + k == |asks|
    && forall j :: k <= j < |asks| ==> Reports(ds[j - k], asks[j], Pos(asks, j), j < |asks| - 1)
  }

  lemma AllReportFirst(d: Datagram, ds: seq<Datagram>, asks: seq<Ask>, k: nat)
    requires k < |asks| && AllReport(ds, asks, k + 1)
    requires Reports(d, asks[k], Pos(asks, k), k < |asks| - 1)
    ensures AllReport([d] + ds, asks, k)
  {
    hide Reports, Pos;
    forall j | k < j < |asks| ensures Reports(([d] + ds)[j - k], asks[j], Pos(asks, j), j < |asks| - 1) {
      assert ([d] + ds)[j - k] == ds[j - (k + 1)];
    }
  }

  ghost predicate AllAt(b: seq<byte>, asks: seq<Ask>) {
    && asks != [] && Pos(asks, |asks|) == |b|
    && forall j :: 0 <= j < |asks| ==> At(b, Pos(asks, j), asks[j], j < |asks| - 1)
  }

  /** One turn of the decoder's loop over a datagram that matches `ask`. */
  lemma ChainTurn(b: seq<byte>, pos: nat, ask: Ask, more: bool)
    requires At(b, pos, ask, more) && more == (pos + 12 + |ask.data| < |b|)
    ensures pos + 12 + |ask.data| <= |b| && Count(b, pos) == |ask.data|
    ensures Reports(DatagramAt(b, pos), ask, pos, more)
    ensures DecodeChain(b, pos, |b|) ==
            if more then Behind([DatagramAt(b, pos)], DecodeChain(b, pos + 12 + |ask.data|, |b|))
                                        else Ok([DatagramAt(b, pos)])
  {
    AtDecodes(b, pos, ask, more);
  }

  lemma PosSteps(asks: seq<Ask>, k: nat)
    requires k < |asks|
    ensures Pos(asks, k + 1) == Pos(asks, k) + 12 + |asks[k].data| <= Pos(asks, |asks|)
    ensures k < |asks| - 1 <==> Pos(asks, k + 1) < Pos(asks, |asks|)
  {
    PosMonotone(asks, k, |asks|);
    if k < |asks| - 1 {
      PosMonotone(asks, k + 1, |asks|);
    }
  }

  lemma Place(b: seq<byte>, asks: seq<Ask>, k: nat)
    requires AllAt(b, asks) && k < |asks|
    ensures At(b, Pos(asks, k), asks[k], k < |asks| - 1) && |b| == Pos(asks, |asks|)
  {
    hide At, Pos;
    assert At(b, Pos(asks, k), asks[k], k < |asks| - 1);
  }

  lemma {:induction false} ChainDecodes(b: seq<byte>, asks: seq<Ask>, k: nat)
    requires AllAt(b, asks) && k < |asks| && Pos(asks, k) <= |b|
    ensures var r := DecodeChain(b, Pos(asks, k), |b|); r.Ok? && AllReport(r.value, asks, k)
    decreases |asks| - k
  {
    hide At, AllAt, Pos, Reports, OnWire, DatagramAt, AllReport, Count, More, DecodeChain;
    Place(b, asks, k);
    PosSteps(asks, k);
    ChainTurn(b, Pos(asks, k), asks[k], k < |asks| - 1);
    if k < |asks| - 1 {
      ChainDecodes(b, asks, k + 1);
      AllReportFirst(DatagramAt(b, Pos(asks, k)), DecodeChain(b, Pos(asks, k + 1), |b|).value, asks, k);
    } else {
      LastReports(DatagramAt(b, Pos(asks, k)), asks);
    }
  }

  lemma LastReports(d: Datagram, asks: seq<Ask>)
    requires asks != [] && Reports(d, asks[|asks| - 1], Pos(asks, |asks| - 1), false)
    ensures AllReport([d], asks, |asks| - 1)
  {}

  lemma FrameAllAt(b: seq<byte>, length: nat, asks: seq<Ask>)
    requires Built(b, length, asks, false)
    ensures 28 <= length <= 1518 && length <= |b| && AllAt(b[..length], asks)
    ensures Word(b[..length], 14) == EC_ECATTYPE + (length - 16) && b[12] == 0x88 && b[13] == 0xa4
  {
    hide At;
    forall k | 0 <= k < |asks| ensures At(b[..length], Pos(asks, k), asks[k], k < |asks| - 1) {
      PosMonotone(asks, k, |asks|);
      assert At(b, Pos(asks, k), asks[k], k < |asks| - 1 || false);
      AtCut(b, length, Pos(asks, k), asks[k], k < |asks| - 1);
    }
    PosMonotone(asks, 0, |asks|);
  }

  /** A finished frame passes the native validator, and the decoder returns exactly its datagrams. */
  lemma BuiltFrameAccepted(b: seq<byte>, length: nat, asks: seq<Ask>)
    requires Built(b, length, asks, false)
    ensures length <= |b| && Valid(b[..length], length)
    ensures Decode(b[..length]).Ok?
    ensures var f := Decode(b[..length]).value; f.ethercat && f.vlans == [] && AllReport(f.datagrams, asks, 0)
  {
    FrameAllAt(b, length, asks);
    hide At, AllAt, AllReport, Built;
    var frame := b[..length];
    HeaderSays(frame, length);
    ChainDecodes(frame, asks, 0);
    assert Pos(asks, 0) == 16;
    SameLanguage(frame);
  }

  lemma HeaderSays(frame: seq<byte>, length: nat)
    requires 28 <= |frame| == length <= 1518
    requires Word(frame, 14) == EC_ECATTYPE + (length - 16) && frame[12] == 0x88 && frame[13] == 0xa4
    ensures 16 + Word(frame, 14) % 0x800 == length && frame[15] / 0x10 == 1
    ensures Decode(frame) == match DecodeChain(frame, 16, length)
                             case Err(e) => Err(e)
                             case Ok(ds) => Ok(Frame(true, [], ds))
  {
    assert SkipVlans(frame, 14) == Ok(([], 14));
  }

  lemma AtCut(b: seq<byte>, length: nat, pos: nat, ask: Ask, more: bool)
    requires At(b, pos, ask, more) && pos + 12 + |ask.data| <= length <= |b|
    ensures At(b[..length], pos, ask, more)
  {
    assert b[..length][pos + 10..pos + 10 + |ask.data|] == b[pos + 10..pos + 10 + |ask.data|];
  }

  // ---- reading a register of many slaves with one frame ----

  function StatusAsk(idx: byte, configadr: u16): Ask {
    Ask(FPRD, idx, configadr, ECT_REG_ALSTAT, Zeros(ALSTATUS))
  }

  function StatusAsks(idx: byte, configlst: seq<u16>): (asks: seq<Ask>)
    ensures |asks| == |configlst|
  {
    seq(|configlst|, k requires 0 <= k < |configlst| => StatusAsk(idx, configlst[k]))
  }

  lemma StatusAsksNext(idx: byte, configlst: seq<u16>, n: nat)
    requires n < |configlst|
    ensures StatusAsks(idx, configlst[..n]) + [StatusAsk(idx, configlst[n])] == StatusAsks(idx, configlst[..n + 1])
  {}

  /** Where the data of the k-th answer is in the stripped frame. */
  function StatusPos(k: nat): nat {
    EC_HEADERSIZE + 18 * k
  }

  /** A received frame of equal datagrams holds the k-th one's data where the positions array says. */
  lemma {:induction false} ChainPositions(b: seq<byte>, pos: nat, end: nat, k: nat)
    requires pos <= end <= |b| && DecodeChain(b, pos, end).Ok?
    requires forall d :: d in DecodeChain(b, pos, end).value ==> |d.data| == ALSTATUS
    requires k < |DecodeChain(b, pos, end).value|
    ensures pos + 18 * k + 16 <= |b|
    ensures DecodeChain(b, pos, end).value[k].data == b[pos + 18 * k + 10..pos + 18 * k + 16]
    decreases end - pos
  {
    var ds := DecodeChain(b, pos, end).value;
    assert ds[0] == DatagramAt(b, pos);
    if k > 0 {
      var rest := DecodeChain(b, pos + 18, end);
      assert ds == [DatagramAt(b, pos)] + rest.value;
      forall d | d in rest.value ensures |d.data| == ALSTATUS {
        assert d in ds;
      }
      ChainPositions(b, pos + 18, end, k - 1);
    }
  }

  /** The building half of ecx_FPRD_multi. */
  method BuildStatusFrame(port: Port, idx: byte, configlst: seq<u16>) returns (sldatapos: seq<nat>)
    requires 0 < |configlst| <= 64
    requires port.txbuf.Length == 1518 && port.txbuf[12] == 0x88 && port.txbuf[13] == 0xa4
    modifies port, port.txbuf
    ensures Built(port.txbuf[..], port.txbuflength, StatusAsks(idx, configlst), false)
    ensures |sldatapos| == |configlst| && forall k :: 0 <= k < |sldatapos| ==> sldatapos[k] == StatusPos(k)
  {
    hide Built, StatusAsks;
    var n := |configlst|;
    sldatapos := [EC_HEADERSIZE];
    StatusAsksNext(idx, configlst, 0);
    NoAsks(idx, configlst[..0]);
    assert [] + [StatusAsk(idx, configlst[0])] == [StatusAsk(idx, configlst[0])];
    port.SetupDatagram(StatusAsk(idx, configlst[0]));
    var slcnt := 1;
    while slcnt < n - 1
      invariant 1 <= slcnt <= n && (slcnt == n ==> n == 1)
      invariant Built(port.txbuf[..], port.txbuflength, StatusAsks(idx, configlst[..slcnt]), slcnt > 1)
      invariant port.txbuflength == 16 + 18 * slcnt
      invariant |sldatapos| == slcnt && forall k :: 0 <= k < slcnt ==> sldatapos[k] == StatusPos(k)
    {
      StatusAsksNext(idx, configlst, slcnt);
      var at := port.AddDatagram(StatusAsk(idx, configlst[slcnt]), true, StatusAsks(idx, configlst[..slcnt]),
                                 slcnt > 1);
      sldatapos := sldatapos + [at];
      slcnt := slcnt + 1;
    }
    if slcnt < n {
      StatusAsksNext(idx, configlst, slcnt);
      var at := port.AddDatagram(StatusAsk(idx, configlst[slcnt]), false, StatusAsks(idx, configlst[..slcnt]),
                                 slcnt > 1);
      sldatapos := sldatapos + [at];
    }
    assert configlst[..n] == configlst;
  }

  lemma NoAsks(idx: byte, none: seq<u16>)
    requires none == []
    ensures StatusAsks(idx, none) == []
  {}

  /** ecx_FPRD_multi. `exchange` is the network: it maps the sent frame to a work counter and the
      stripped received frame. Each slave's status is the data of its own datagram in whatever
      frame came back. */
  method FprdMulti(idx: byte, configlst: seq<u16>, exchange: seq<byte> -> (int, seq<byte>))
    returns (wkc: int, slstatlst: seq<seq<byte>>, sent: seq<byte>)
    requires 0 < |configlst| <= 64
    requires forall f :: |exchange(f).1| == 1518
    ensures Valid(sent, |sent|) && Decode(sent).Ok?
    ensures AllReport(Decode(sent).value.datagrams, StatusAsks(idx, configlst), 0)
    ensures wkc == exchange(sent).0
    ensures wkc >= 0 ==> |slstatlst| == |configlst| && Delivered(exchange(sent).1, slstatlst)
  {
    hide Built, Valid, Decode, AllReport, StatusAsks, Delivered;
    var port := new Port();
    var sldatapos := BuildStatusFrame(port, idx, configlst);
    BuiltFrameAccepted(port.txbuf[..], port.txbuflength, StatusAsks(idx, configlst));
    sent := port.txbuf[..port.txbuflength];
    var rx := exchange(sent).1;
    wkc := exchange(sent).0;
    slstatlst := [];
    if wkc >= 0 {
      slstatlst := CopyStatus(rx, sldatapos);
    }
  }

  method CopyStatus(rx: seq<byte>, sldatapos: seq<nat>) returns (slstatlst: seq<seq<byte>>)
    requires |rx| == 1518 && |sldatapos| <= 64
    requires forall k :: 0 <= k < |sldatapos| ==> sldatapos[k] == StatusPos(k)
    ensures |slstatlst| == |sldatapos| && Delivered(rx, slstatlst)
  {
    slstatlst := [];
    for slcnt := 0 to |sldatapos|
      invariant |slstatlst| == slcnt
      invariant forall k :: 0 <= k < slcnt ==> slstatlst[k] == rx[StatusPos(k)..StatusPos(k) + ALSTATUS]
    {
      slstatlst := slstatlst + [rx[sldatapos[slcnt]..sldatapos[slcnt] + ALSTATUS]];
    }
    DeliveredAll(rx, slstatlst);
  }

  /** Put any Ethernet header of an EtherCAT frame back in front of the stripped frame: if the
      decoder finds one status-sized datagram per slave in it, their data is what was delivered. */
  ghost predicate Delivered(rx: seq<byte>, slstatlst: seq<seq<byte>>) {
    forall header: seq<byte> :: |header| == 14 && header[12..] == [0x88, 0xa4] ==>
      var r := Decode(header + rx);
      (r.Ok? && |r.value.datagrams| == |slstatlst| && forall d :: d in r.value.datagrams ==> |d.data| == ALSTATUS) ==>
        forall k :: 0 <= k < |slstatlst| ==> slstatlst[k] == r.value.datagrams[k].data
  }

  lemma DeliveredAll(rx: seq<byte>, slstatlst: seq<seq<byte>>)
    requires |rx| == 1518 && |slstatlst| <= 64
    requires forall k :: 0 <= k < |slstatlst| ==> slstatlst[k] == rx[StatusPos(k)..StatusPos(k) + ALSTATUS]
    ensures Delivered(rx, slstatlst)
  {
    forall header: seq<byte>, k | |header| == 14 && header[12..] == [0x88, 0xa4] && 0 <= k < |slstatlst|
      && Decode(header + rx).Ok? && |Decode(header + rx).value.datagrams| == |slstatlst|
      && (forall d :: d in Decode(header + rx).value.datagrams ==> |d.data| == ALSTATUS)
      ensures slstatlst[k] == Decode(header + rx).value.datagrams[k].data
    {
      DeliveredOne(header, rx, slstatlst, k);
    }
  }

  lemma DeliveredOne(header: seq<byte>, rx: seq<byte>, slstatlst: seq<seq<byte>>, k: nat)
    requires |rx| == 1518 && k < |slstatlst| <= 64
    requires slstatlst[k] == rx[StatusPos(k)..StatusPos(k) + ALSTATUS]
    requires |header| == 14 && header[12..] == [0x88, 0xa4]
    requires Decode(header + rx).Ok? && |Decode(header + rx).value.datagrams| == |slstatlst|
    requires forall d :: d in Decode(header + rx).value.datagrams ==> |d.data| == ALSTATUS
    ensures slstatlst[k] == Decode(header + rx).value.datagrams[k].data
  {
    var b := header + rx;
    assert b[12] == header[12..][0] && b[13] == header[12..][1];
    assert SkipVlans(b, 14) == Ok(([], 14));
    ChainPositions(b, 16, 16 + Word(b, 14) % 0x800, k);
    assert b[16 + 18 * k + 10..16 + 18 * k + 16] == rx[StatusPos(k)..StatusPos(k) + ALSTATUS];
  }
}
