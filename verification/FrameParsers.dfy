/** The two EtherCAT frame parsers: the native validator inside pcap_next_ex (native/bridge.c) and
    the decoder of src/ethercat.rs; section 5.4 of ETG.1000.4. */
module FrameParsers {
  import opened Bytes

  const EC_MAXECATFRAME := 1518

  function Word(b: seq<byte>, at: nat): u16
    requires at + 2 <= |b|
  {
    b[at] as int + b[at + 1] as int * 0x100
  }

  /** A datagram as the decoder reports it; `offset` is where it starts in the frame. */
  datatype Datagram = Datagram(command: byte, index: byte, adp: u16, ado: u16, circulating: bool, more: bool, irq: u16,
                               data: seq<byte>, wkc: u16, offset: nat)

  datatype FrameError = EthernetTruncated | VlanTruncated | HeaderTruncated | LengthBeyondCapture | ReservedBit
                      | DatagramTruncated | DataBeyondLength | TrailingPayload | MissingDatagram

  datatype Result<+T> = Ok(value: T) | Err(error: FrameError)

  /** ethercat is false for any other ether type or EtherCAT type; then no datagram is reported. */
  datatype Frame = Frame(ethercat: bool, vlans: seq<u16>, datagrams: seq<Datagram>)

  function Count(b: seq<byte>, pos: nat): (n: nat)
    requires pos + 8 <= |b|
    ensures n < 0x800
  {
    Word(b, pos + 6) % 0x800
  }

  predicate More(b: seq<byte>, pos: nat)
    requires pos + 8 <= |b|
  {
    Word(b, pos + 6) / 0x8000 == 1
  }

  function DatagramAt(b: seq<byte>, pos: nat): (d: Datagram)
    requires pos + 12 <= |b| && pos + 12 + Count(b, pos) <= |b|
  {
    var n := Count(b, pos);
    Datagram(b[pos], b[pos + 1], Word(b, pos + 2), Word(b, pos + 4), Word(b, pos + 6) / 0x4000 % 2 == 1, More(b, pos),
             Word(b, pos + 8), b[pos + 10..pos + 10 + n], Word(b, pos + 10 + n), pos)
  }

  /** The decoder's datagram loop as a function of the position. */
  function DecodeChain(b: seq<byte>, pos: nat, end: nat): Result<seq<Datagram>>
    requires pos <= end <= |b|
    decreases end - pos
  {
    if pos == end then Ok([])
    else if end - pos < 12 then Err(DatagramTruncated)
    else
      var next := pos + 12 + Count(b, pos);
      if next > end then Err(DataBeyondLength)
      else if !More(b, pos) then
        if next != end then Err(TrailingPayload) else Ok([DatagramAt(b, pos)])
      else if next == end then Err(MissingDatagram)
      else Behind([DatagramAt(b, pos)], DecodeChain(b, next, end))
  }

  function Behind(first: seq<Datagram>, r: Result<seq<Datagram>>): Result<seq<Datagram>> {
    if r.Err? then r else Ok(first + r.value)
  }

  lemma BehindTwice(a: seq<Datagram>, c: seq<Datagram>, r: Result<seq<Datagram>>)
    ensures Behind(a, Behind(c, r)) == Behind(a + c, r) && Behind([], r) == r
  {
    if r.Ok? {
      assert a + (c + r.value) == a + c + r.value && [] + r.value == r.value;
    }
  }

  function EtherType(b: seq<byte>, pos: nat): u16
    requires 2 <= pos <= |b|
  {
    b[pos - 2] as int * 0x100 + b[pos - 1] as int
  }

  /** The VLAN loop: the tags, and the position behind them, or None if a tag is cut off. */
  function SkipVlans(b: seq<byte>, pos: nat): (r: Result<(seq<u16>, nat)>)
    requires 14 <= pos <= |b|
    ensures r.Ok? ==> 14 <= r.value.1 <= |b|
    decreases |b| - pos
  {
    if EtherType(b, pos) != 0x8100 && EtherType(b, pos) != 0x88a8 then Ok(([], pos))
    else if |b| < pos + 4 then Err(VlanTruncated)
    else Tagged([b[pos] as int * 0x100 + b[pos + 1] as int], SkipVlans(b, pos + 4))
  }

  function Tagged(tags: seq<u16>, r: Result<(seq<u16>, nat)>): Result<(seq<u16>, nat)> {
    if r.Err? then r else Ok((tags + r.value.0, r.value.1))
  }

  lemma TaggedTwice(a: seq<u16>, c: seq<u16>, r: Result<(seq<u16>, nat)>)
    ensures Tagged(a, Tagged(c, r)) == Tagged(a + c, r) && Tagged([], r) == r
  {
    if r.Ok? {
      assert a + (c + r.value.0) == a + c + r.value.0 && [] + r.value.0 == r.value.0;
    }
  }

  /** Behind some tags: one more, a cut one, or the end of the tags. */
  lemma VlanStep(b: seq<byte>, tags: seq<u16>, pos: nat)
    requires 14 <= pos <= |b| && SkipVlans(b, 14) == Tagged(tags, SkipVlans(b, pos))
    ensures var kind := EtherType(b, pos);
            SkipVlans(b, 14) == if kind != 0x8100 && kind != 0x88a8 then Ok((tags, pos))
                                else if |b| < pos + 4 then Err(VlanTruncated)
                                else Tagged(tags + [b[pos] as int * 0x100 + b[pos + 1] as int], SkipVlans(b, pos + 4))
  {
    if |b| >= pos + 4 {
      TaggedTwice(tags, [b[pos] as int * 0x100 + b[pos + 1] as int], SkipVlans(b, pos + 4));
    }
    assert tags + [] == tags;
  }

  /** decode_into. */
  function Decode(b: seq<byte>): Result<Frame> {
    if |b| < 14 then Err(EthernetTruncated)
    else
      match SkipVlans(b, 14)
      case Err(e) => Err(e)
      case Ok((tags, pos)) =>
        if EtherType(b, pos) != 0x88a4 then Ok(Frame(false, tags, []))
        else DecodeBody(b, tags, pos)
  }

  function DecodeBody(b: seq<byte>, tags: seq<u16>, pos: nat): Result<Frame>
    requires pos <= |b|
  {
    if |b| < pos + 2 then Err(HeaderTruncated)
    else
      var header := Word(b, pos);
      var end := pos + 2 + header % 0x800;
      if end > |b| then Err(LengthBeyondCapture)
      else if header / 0x1000 != 1 then Ok(Frame(true, tags, []))
      else if header / 0x800 % 2 == 1 then Err(ReservedBit)
      else
        match DecodeChain(b, pos + 2, end)
        case Err(e) => Err(e)
        case Ok(datagrams) => Ok(Frame(true, tags, datagrams))
  }

  /** decode_into as the loops run it. */
  method DecodeFrame(b: seq<byte>) returns (frame: Frame, error: Result<()>)
    ensures match Decode(b)
            case Err(e) => error == Err(e)
            case Ok(f) => error == Ok(()) && frame == f
  {
    hide SkipVlans, Tagged, DecodeChain, EtherType, Word;
    frame, error := Frame(false, [], []), Ok(());
    if |b| < 14 { error := Err(EthernetTruncated); return; }
    var pos: nat, kind, vlans: seq<u16> := 14, EtherType(b, 14), [];
    TaggedTwice([], [], SkipVlans(b, 14));
    while kind == 0x8100 || kind == 0x88a8
      invariant 14 <= pos <= |b| && kind == EtherType(b, pos)
      invariant SkipVlans(b, 14) == Tagged(vlans, SkipVlans(b, pos))
      decreases |b| - pos
    {
      VlanStep(b, vlans, pos);
      if |b| < pos + 4 { error := Err(VlanTruncated); return; }
      vlans := vlans + [b[pos] as int * 0x100 + b[pos + 1] as int];
      pos := pos + 4;
      kind := EtherType(b, pos);
    }
    VlanStep(b, vlans, pos);
    frame := Frame(false, vlans, []);
    if kind != 0x88a4 { return; }
    frame := Frame(true, vlans, []);
    if |b| < pos + 2 { error := Err(HeaderTruncated); return; }
    var header := Word(b, pos);
    pos := pos + 2;
    var end := pos + header % 0x800;
    if end > |b| { error := Err(LengthBeyondCapture); return; }
    if header / 0x1000 != 1 { return; }
    if header / 0x800 % 2 == 1 { error := Err(ReservedBit); return; }
    var datagrams;
    datagrams, error := DecodeDatagrams(b, pos, end);
    frame := Frame(true, vlans, datagrams);
  }

  /** The datagram loop. It terminates and never leaves the capture. */
  method DecodeDatagrams(b: seq<byte>, start: nat, end: nat) returns (datagrams: seq<Datagram>, error: Result<()>)
    requires start <= end <= |b|
    ensures match DecodeChain(b, start, end)
            case Err(e) => error == Err(e)
            case Ok(all) => error == Ok(()) && datagrams == all
  {
    hide DatagramAt, Word;
    var pos := start;
    datagrams, error := [], Ok(());
    BehindTwice([], [], DecodeChain(b, start, end));
    while pos < end
      invariant start <= pos <= end
      invariant DecodeChain(b, start, end) == Behind(datagrams, DecodeChain(b, pos, end))
    {
      if end - pos < 12 { error := Err(DatagramTruncated); return; }
      var flags := Word(b, pos + 6);
      var count := flags % 0x800;
      var dataEnd := pos + 10 + count;
      if dataEnd + 2 > end { error := Err(DataBeyondLength); return; }
      BehindTwice(datagrams, [DatagramAt(b, pos)], DecodeChain(b, dataEnd + 2, end));
      datagrams := datagrams + [DatagramAt(b, pos)];
      pos := dataEnd + 2;
      if flags / 0x8000 != 1 {
        if pos != end { error := Err(TrailingPayload); return; }
        return;
      }
      if pos == end { error := Err(MissingDatagram); return; }
    }
    assert datagrams + [] == datagrams;
  }

  // ---- the native validator ----

  function ValidChain(b: seq<byte>, pos: nat, end: nat): bool
    requires pos <= end <= |b|
    decreases end - pos
  {
    pos == end ||
    (end - pos >= 12 &&
     var next := pos + 12 + Count(b, pos);
     next <= end && More(b, pos) == (next != end) && ValidChain(b, next, end))
  }

  /** What lets a received frame through: captured whole, a plausible size, the EtherCAT ether type,
      an EtherCAT header of type 1 that fits, and a well-formed chain of datagrams. */
  function Valid(b: seq<byte>, wireLength: nat): bool {
    && 28 <= |b| <= EC_MAXECATFRAME && |b| == wireLength
    && b[12] == 0x88 && b[13] == 0xa4
    && var end := 16 + Word(b, 14) % 0x800;
       end <= |b| && b[15] / 0x10 == 1 && b[15] / 8 % 2 == 0 && ValidChain(b, 16, end)
  }

  method ValidateFrame(b: seq<byte>, wireLength: nat) returns (accepted: bool)
    ensures accepted == Valid(b, wireLength)
  {
    var cap := |b|;
    if cap < 28 || cap != wireLength || cap > EC_MAXECATFRAME || b[12] != 0x88 || b[13] != 0xa4 { return false; }
    var end := 16 + Word(b, 14) % 0x800;
    if end > cap || b[15] / 0x10 != 1 || b[15] / 8 % 2 == 1 { return false; }
    var pos := 16;
    while pos < end
      invariant 16 <= pos <= end
      invariant ValidChain(b, 16, end) == ValidChain(b, pos, end)
    {
      if end - pos < 12 { return false; }
      var count := Word(b, pos + 6) % 0x800;
      var next := pos + 12 + count;
      if next > end || (if b[pos + 7] / 0x80 == 1 then next == end else next != end) { return false; }
      pos := next;
    }
    return true;
  }

  lemma {:induction false} SameChain(b: seq<byte>, pos: nat, end: nat)
    requires pos <= end <= |b|
    ensures ValidChain(b, pos, end) <==> DecodeChain(b, pos, end).Ok?
    decreases end - pos
  {
    if pos + 12 <= end {
      var next := pos + 12 + Count(b, pos);
      if next <= end {
        SameChain(b, next, end);
      }
    }
  }

  /** The two parsers accept the same frames: an untagged EtherCAT frame of type 1 that was captured
      whole is let through by the validator if and only if its size is that of an EtherCAT frame and
      the decoder reports no error. */
  lemma SameLanguage(b: seq<byte>)
    requires |b| >= 16 && b[12] == 0x88 && b[13] == 0xa4 && b[15] / 0x10 == 1
    ensures Valid(b, |b|) <==> 28 <= |b| <= 1518 && Decode(b).Ok?
  {
    var end := 16 + Word(b, 14) % 0x800;
    assert Word(b, 14) / 0x1000 == 1 && Word(b, 14) / 0x800 % 2 == b[15] / 8 % 2;
    assert SkipVlans(b, 14) == Ok(([], 14));
    if end <= |b| {
      SameChain(b, 16, end);
    }
  }
}
