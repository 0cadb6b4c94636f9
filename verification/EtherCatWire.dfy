/** EtherCAT frames byte by byte (section 5.4 of ETG.1000.4): what the decoder reports for any well-formed
    frame, and what the frames the master builds look like on the wire. */
module EtherCatWire {
  import opened Bytes
  import opened FrameParsers
  import opened FrameBuilder

  /** A datagram as any sender puts it on the wire. */
  datatype Wire = Wire(command: byte, index: byte, adp: u16, ado: u16, circulating: bool, irq: u16, data: seq<byte>,
                       wkc: u16)

  predicate Proper(w: Wire) {
    |w.data| < 2048
  }

  function Bits(w: Wire, more: bool): (b: byte)
    requires Proper(w)
  {
    |w.data| / 256 + (if w.circulating then 0x40 else 0) + if more then 0x80 else 0
  }

  function DatagramBytes(w: Wire, more: bool): (b: seq<byte>)
    requires Proper(w)
    ensures |b| == 12 + |w.data|
  {
    [w.command, w.index, w.adp % 256, w.adp / 256, w.ado % 256, w.ado / 256, |w.data| % 256, Bits(w, more),
     w.irq % 256, w.irq / 256]
    + w.data + [w.wkc % 256, w.wkc / 256]
  }

  predicate AllProper(ws: seq<Wire>) {
    forall k :: 0 <= k < |ws| ==> Proper(ws[k])
  }

  /** Datagrams back to back; all but the last say that another follows. */
  function ChainBytes(ws: seq<Wire>): seq<byte>
    requires AllProper(ws)
  {
    if ws == [] then [] else DatagramBytes(ws[0], |ws| > 1) + ChainBytes(ws[1..])
  }

  /** What is to be reported of a datagram that starts at pos. */
  function Report(w: Wire, more: bool, pos: nat): Datagram {
    Datagram(w.command, w.index, w.adp, w.ado, w.circulating, more, w.irq, w.data, w.wkc, pos)
  }

  function Reports(ws: seq<Wire>, pos: nat): (reports: seq<Datagram>)
    ensures |reports| == |ws|
  {
    if ws == [] then [] else [Report(ws[0], |ws| > 1, pos)] + Reports(ws[1..], pos + 12 + |ws[0].data|)
  }

  lemma LowHigh(n: u16)
    ensures n % 256 + n / 256 * 256 == n
  {}

  lemma CountBits(w: Wire, more: bool)
    requires Proper(w)
    ensures var flags := |w.data| % 256 + Bits(w, more) as int * 256;
            && flags % 0x800 == |w.data| && (flags / 0x4000 % 2 == 1) == w.circulating && (flags / 0x8000 == 1) == more
  {}

  lemma DatagramParts(b: seq<byte>, pos: nat, w: Wire, more: bool)
    requires Proper(w) && pos + 12 + |w.data| <= |b| && b[pos..pos + 12 + |w.data|] == DatagramBytes(w, more)
    ensures b[pos] == w.command && b[pos + 1] == w.index && b[pos + 2] == w.adp % 256 && b[pos + 3] == w.adp / 256
    ensures b[pos + 4] == w.ado % 256 && b[pos + 5] == w.ado / 256
    ensures b[pos + 6] as int == |w.data| % 256 && b[pos + 7] == Bits(w, more)
    ensures b[pos + 8] == w.irq % 256 && b[pos + 9] == w.irq / 256
    ensures b[pos + 10..pos + 10 + |w.data|] == w.data
    ensures b[pos + 10 + |w.data|] == w.wkc % 256 && b[pos + 11 + |w.data|] == w.wkc / 256
  {
    hide Bits;
    var n := |w.data|;
    var head := [w.command, w.index, w.adp % 256, w.adp / 256, w.ado % 256, w.ado / 256, n % 256, Bits(w, more),
                 w.irq % 256, w.irq / 256];
    var tail := [w.wkc % 256, w.wkc / 256];
    Slices(b, pos, head, w.data, tail);
    HeadBytes(b, pos, head);
    TailBytes(b, pos + 10 + n, tail);
  }

  lemma TailBytes(b: seq<byte>, at: nat, tail: seq<byte>)
    requires |tail| == 2 && at + 2 <= |b| && b[at..at + 2] == tail
    ensures b[at] == tail[0] && b[at + 1] == tail[1]
  {
    assert b[at..at + 2][0] == b[at] && b[at..at + 2][1] == b[at + 1];
  }

  lemma SliceOfSlice(b: seq<byte>, at: nat, n: nat, i: nat, j: nat)
    requires i <= j <= n && at + n <= |b|
    ensures b[at..at + n][i..j] == b[at + i..at + j]
  {
    var inner, outer := b[at..at + n][i..j], b[at + i..at + j];
    forall k | 0 <= k < j - i ensures inner[k] == outer[k] {
      assert inner[k] == b[at..at + n][i + k] == b[at + (i + k)];
      assert outer[k] == b[(at + i) + k];
    }
  }

  lemma Slices(b: seq<byte>, pos: nat, x: seq<byte>, y: seq<byte>, z: seq<byte>)
    requires pos + |x| + |y| + |z| <= |b| && b[pos..pos + |x| + |y| + |z|] == x + y + z
    ensures b[pos..pos + |x|] == x && b[pos + |x|..pos + |x| + |y|] == y
    ensures b[pos + |x| + |y|..pos + |x| + |y| + |z|] == z
  {
    var n := |x| + |y| + |z|;
    var all := b[pos..pos + n];
    assert all == x + y + z;
    assert all[0..|x|] == x && all[|x|..|x| + |y|] == y && all[|x| + |y|..n] == z;
    SliceOfSlice(b, pos, n, 0, |x|);
    SliceOfSlice(b, pos, n, |x|, |x| + |y|);
    SliceOfSlice(b, pos, n, |x| + |y|, n);
  }

  lemma HeadBytes(b: seq<byte>, pos: nat, head: seq<byte>)
    requires |head| == 10 && pos + 10 <= |b| && b[pos..pos + 10] == head
    ensures b[pos] == head[0] && b[pos + 1] == head[1] && b[pos + 2] == head[2] && b[pos + 3] == head[3]
    ensures b[pos + 4] == head[4] && b[pos + 5] == head[5] && b[pos + 6] == head[6] && b[pos + 7] == head[7]
    ensures b[pos + 8] == head[8] && b[pos + 9] == head[9]
  {}

  /** One datagram of a frame. */
  lemma DatagramMeans(b: seq<byte>, pos: nat, w: Wire, more: bool)
    requires Proper(w) && pos + 12 + |w.data| <= |b| && b[pos..pos + 12 + |w.data|] == DatagramBytes(w, more)
    ensures Count(b, pos) == |w.data| && More(b, pos) == more && DatagramAt(b, pos) == Report(w, more, pos)
  {
    hide Bits;
    DatagramParts(b, pos, w, more);
    LowHigh(w.adp);
    LowHigh(w.ado);
    LowHigh(w.irq);
    LowHigh(w.wkc);
    CountBits(w, more);
  }

  lemma {:induction false} ChainMeans(b: seq<byte>, pos: nat, end: nat, ws: seq<Wire>)
    requires AllProper(ws) && pos <= end <= |b| && b[pos..end] == ChainBytes(ws)
    ensures DecodeChain(b, pos, end) == Ok(Reports(ws, pos))
    decreases |ws|
  {
    hide DatagramBytes, DatagramAt, Count, More, Report;
    if ws != [] {
      var w, n := ws[0], 12 + |ws[0].data|;
      var s := b[pos..end];
      assert s[..n] == DatagramBytes(w, |ws| > 1) && s[n..] == ChainBytes(ws[1..]);
      assert b[pos..pos + n] == s[..n] && b[pos + n..end] == s[n..];
      DatagramMeans(b, pos, w, |ws| > 1);
      ChainMeans(b, pos + n, end, ws[1..]);
      ChainEmpty(ws[1..]);
      if |ws| == 1 {
        assert ws[1..] == [] && Reports(ws[1..], pos + n) == [] && b[pos + n..end] == [];
        assert pos + n == end;
        assert DecodeChain(b, pos, end) == Ok([DatagramAt(b, pos)]);
        assert Reports(ws, pos) == [Report(w, false, pos)];
      } else {
        assert ws[1..] != [] && b[pos + n..end] != [];
        assert pos + n < end;
        assert DecodeChain(b, pos, end) == Behind([DatagramAt(b, pos)], DecodeChain(b, pos + n, end));
      }
    }
  }

  lemma ChainEmpty(ws: seq<Wire>)
    requires AllProper(ws)
    ensures ChainBytes(ws) == [] <==> ws == []
  {}

  // ---- a whole frame ----

  /** Tags in front of the ether type: customer (0x8100) or service (0x88a8) tags. */
  datatype Tag = Tag(service: bool, tci: u16)

  function TagBytes(tags: seq<Tag>): seq<byte> {
    if tags == [] then []
    else
      (if tags[0].service then [0x88, 0xa8] else [0x81, 0x00]) + [tags[0].tci / 256, tags[0].tci % 256]
      + TagBytes(tags[1..])
  }

  function Tcis(tags: seq<Tag>): seq<u16> {
    if tags == [] then [] else [tags[0].tci] + Tcis(tags[1..])
  }

  /** Twelve bytes of addresses, tags, the EtherCAT ether type, type 1 with the length, the datagrams, and
      whatever padding. */
  function FrameBytes(addresses: seq<byte>, tags: seq<Tag>, ws: seq<Wire>, padding: seq<byte>): seq<byte>
    requires AllProper(ws) && |ChainBytes(ws)| < 2048
  {
    var chain := ChainBytes(ws);
    addresses + TagBytes(tags) + ([0x88, 0xa4, |chain| % 256, 0x10 + |chain| / 256] + chain) + padding
  }

  function Kind(rest: seq<byte>): u16
    requires |rest| >= 2
  {
    rest[0] as int * 256 + rest[1] as int
  }

  function Little(low: byte, high: byte): u16 {
    low as int + high as int * 256
  }

  /** The decoder gets past all tags, whatever comes behind them. */
  lemma {:induction false} TagsMean(b: seq<byte>, pos: nat, tags: seq<Tag>, rest: seq<byte>)
    requires 14 <= pos <= |b| && b[pos - 2..] == TagBytes(tags) + rest && |rest| >= 2
    ensures |b| >= pos + 4 * |tags| && b[pos + 4 * |tags| - 2..] == rest
    ensures SkipVlans(b, pos) == Tagged(Tcis(tags), SkipVlans(b, pos + 4 * |tags|))
    ensures EtherType(b, pos + 4 * |tags|) == Kind(rest)
    decreases |tags|
  {
    hide TagBytes, EtherType, Tcis, Tagged, SkipVlans, Kind;
    if tags == [] {
      NoTags(b, pos, rest);
      TaggedTwice([], [], SkipVlans(b, pos));
    } else {
      TagsFirst(tags);
      TagStep(b, pos, tags, rest);
      TagsMean(b, pos + 4, tags[1..], rest);
      OneSkip(b, pos);
      TaggedTwice([tags[0].tci], Tcis(tags[1..]), SkipVlans(b, pos + 4 * |tags|));
    }
  }

  lemma OneSkip(b: seq<byte>, pos: nat)
    requires 14 <= pos && pos + 4 <= |b| && (EtherType(b, pos) == 0x8100 || EtherType(b, pos) == 0x88a8)
    ensures SkipVlans(b, pos) == Tagged([b[pos] as int * 0x100 + b[pos + 1] as int], SkipVlans(b, pos + 4))
  {
    hide EtherType, Tagged;
  }

  lemma NoTags(b: seq<byte>, pos: nat, rest: seq<byte>)
    requires 14 <= pos <= |b| && b[pos - 2..] == TagBytes([]) + rest && |rest| >= 2
    ensures b[pos - 2..] == rest && EtherType(b, pos) == Kind(rest) && Tcis([]) == []
  {
    var s := b[pos - 2..];
    assert s == rest && b[pos - 2] == s[0] && b[pos - 1] == s[1];
  }

  function OneTag(tag: Tag): (b: seq<byte>)
    ensures |b| == 4
  {
    (if tag.service then [0x88, 0xa8] else [0x81, 0x00]) + [tag.tci / 256, tag.tci % 256]
  }

  lemma TagAt(b: seq<byte>, pos: nat, tag: Tag)
    requires 2 <= pos && pos + 2 <= |b| && b[pos - 2..pos + 2] == OneTag(tag)
    ensures EtherType(b, pos) == if tag.service then 0x88a8 else 0x8100
    ensures b[pos] as int * 0x100 + b[pos + 1] as int == tag.tci
  {
    var s := b[pos - 2..pos + 2];
    assert b[pos - 2] == s[0] && b[pos - 1] == s[1] && b[pos] == s[2] && b[pos + 1] == s[3];
    LowHigh(tag.tci);
  }

  lemma TagStep(b: seq<byte>, pos: nat, tags: seq<Tag>, rest: seq<byte>)
    requires 14 <= pos <= |b| && tags != [] && b[pos - 2..] == TagBytes(tags) + rest && |rest| >= 2
    ensures pos + 4 <= |b| && b[pos + 2..] == TagBytes(tags[1..]) + rest
    ensures EtherType(b, pos) == if tags[0].service then 0x88a8 else 0x8100
    ensures b[pos] as int * 0x100 + b[pos + 1] as int == tags[0].tci
  {
    hide TagBytes, OneTag, EtherType;
    TagsFirst(tags);
    var s, more := b[pos - 2..], TagBytes(tags[1..]) + rest;
    assert s == OneTag(tags[0]) + more;
    assert s[..4] == OneTag(tags[0]) && s[4..] == more;
    assert b[pos - 2..pos + 2] == s[..4] && b[pos + 2..] == s[4..];
    TagAt(b, pos, tags[0]);
  }

  lemma TagsFirst(tags: seq<Tag>)
    requires tags != []
    ensures TagBytes(tags) == OneTag(tags[0]) + TagBytes(tags[1..]) && Tcis(tags) == [tags[0].tci] + Tcis(tags[1..])
  {}

  lemma BodyMeans(b: seq<byte>, pos: nat, vlans: seq<u16>, ws: seq<Wire>, padding: seq<byte>)
    requires AllProper(ws) && |ChainBytes(ws)| < 2048 && 2 <= pos <= |b|
    requires var chain := ChainBytes(ws);
             b[pos - 2..] == [0x88, 0xa4, |chain| % 256, 0x10 + |chain| / 256] + chain + padding
    ensures DecodeBody(b, vlans, pos) == Ok(Frame(true, vlans, Reports(ws, pos + 2)))
  {
    hide DecodeChain, ChainBytes, Reports;
    var chain := ChainBytes(ws);
    var s, n := b[pos - 2..], |ChainBytes(ws)|;
    assert s[2] == n % 256 && s[3] == 0x10 + n / 256 && s[4..4 + n] == chain;
    assert b[pos] == s[2] && b[pos + 1] == s[3] && b[pos + 2..pos + 2 + n] == s[4..4 + n];
    HeaderBits(n);
    ChainMeans(b, pos + 2, pos + 2 + n, ws);
  }

  lemma HeaderBits(n: nat)
    requires n < 2048
    ensures var header := n % 256 + (0x10 + n / 256) * 256;
            header % 0x800 == n && header / 0x1000 == 1 && header / 0x800 % 2 == 0
  {}

  lemma Behind12(a: seq<byte>, t: seq<byte>, body: seq<byte>, padding: seq<byte>)
    requires |a| == 12
    ensures (a + t + body + padding)[12..] == t + (body + padding)
  {}

  /** Behind the tags comes something that is no tag. */
  lemma TagsDone(b: seq<byte>, tags: seq<Tag>, rest: seq<byte>)
    requires 14 <= 14 + 4 * |tags| <= |b| && |rest| >= 2 && Kind(rest) != 0x8100 && Kind(rest) != 0x88a8
    requires SkipVlans(b, 14) == Tagged(Tcis(tags), SkipVlans(b, 14 + 4 * |tags|))
    requires EtherType(b, 14 + 4 * |tags|) == Kind(rest)
    ensures SkipVlans(b, 14) == Ok((Tcis(tags), 14 + 4 * |tags|))
  {
    hide EtherType, Tcis;
    assert Tcis(tags) + [] == Tcis(tags);
  }

  /** Of every well-formed frame, with any tags and padding, the decoder reports exactly the datagrams. */
  lemma FrameMeans(addresses: seq<byte>, tags: seq<Tag>, ws: seq<Wire>, padding: seq<byte>)
    requires |addresses| == 12 && AllProper(ws) && |ChainBytes(ws)| < 2048
    ensures Decode(FrameBytes(addresses, tags, ws, padding)) ==
            Ok(Frame(true, Tcis(tags), Reports(ws, 16 + 4 * |tags|)))
  {
    hide ChainBytes, DecodeBody, Reports, TagBytes, Tcis;
    var b, chain := FrameBytes(addresses, tags, ws, padding), ChainBytes(ws);
    var head := [0x88, 0xa4, |chain| % 256, 0x10 + |chain| / 256];
    var rest := head + chain + padding;
    Behind12(addresses, TagBytes(tags), head + chain, padding);
    BehindTags(b, tags, rest);
    BodyMeans(b, 14 + 4 * |tags|, Tcis(tags), ws, padding);
  }

  /** An EtherCAT frame is decoded from where its tags end. */
  lemma BehindTags(b: seq<byte>, tags: seq<Tag>, rest: seq<byte>)
    requires |b| >= 14 && b[12..] == TagBytes(tags) + rest && |rest| >= 2 && rest[0] == 0x88 && rest[1] == 0xa4
    ensures |b| >= 14 + 4 * |tags| && b[14 + 4 * |tags| - 2..] == rest
    ensures Decode(b) == DecodeBody(b, Tcis(tags), 14 + 4 * |tags|)
  {
    hide SkipVlans, DecodeBody, TagBytes, EtherType, Tagged, Tcis;
    TagsMean(b, 14, tags, rest);
    TagsDone(b, tags, rest);
  }

  // ---- every other frame ----

  /** Datagrams that all say that another follows. */
  function Followed(ws: seq<Wire>): seq<byte>
    requires AllProper(ws)
  {
    if ws == [] then [] else DatagramBytes(ws[0], true) + Followed(ws[1..])
  }

  /** What is wrong behind datagrams that announced more. */
  predicate Breaks(first: bool, rest: seq<byte>, e: FrameError) {
    if rest == [] then !first && e == MissingDatagram
    else if |rest| < 12 then e == DatagramTruncated
    else
      var size := 12 + Little(rest[6], rest[7]) % 2048;
      if |rest| < size then e == DataBeyondLength
      else rest[7] < 128 && |rest| > size && e == TrailingPayload
  }

  lemma CountOf(b: seq<byte>, pos: nat, rest: seq<byte>)
    requires |rest| >= 8 && pos + |rest| <= |b| && b[pos..pos + |rest|] == rest
    ensures Count(b, pos) == Little(rest[6], rest[7]) % 2048 && (More(b, pos) <==> rest[7] >= 128)
  {
    assert b[pos + 6] == b[pos..pos + |rest|][6] && b[pos + 7] == b[pos..pos + |rest|][7];
  }

  /** Datagrams in front do not change what is wrong. */
  lemma {:induction false} ChainBroken(b: seq<byte>, pos: nat, end: nat, first: bool, ws: seq<Wire>, rest: seq<byte>,
                                       e: FrameError)
    requires AllProper(ws) && pos <= end <= |b| && b[pos..end] == Followed(ws) + rest
    requires Breaks(first && ws == [], rest, e)
    ensures if pos == end then rest == [] && ws == [] && e == MissingDatagram else DecodeChain(b, pos, end) == Err(e)
    decreases |ws|
  {
    hide DatagramBytes, DatagramAt, Count, More, DecodeChain, Breaks;
    if ws == [] {
      ChainEnd(b, pos, end, first, rest, e);
    } else {
      var n, behind := 12 + |ws[0].data|, Followed(ws[1..]) + rest;
      assert b[pos..end] == DatagramBytes(ws[0], true) + behind;
      TwoSlices(b, pos, end, DatagramBytes(ws[0], true), behind);
      DatagramMeans(b, pos, ws[0], true);
      ChainBroken(b, pos + n, end, false, ws[1..], rest, e);
      OneFollowed(b, pos, end);
    }
  }

  lemma TwoSlices(b: seq<byte>, pos: nat, end: nat, x: seq<byte>, y: seq<byte>)
    requires pos <= end <= |b| && b[pos..end] == x + y
    ensures pos + |x| <= end && b[pos..pos + |x|] == x && b[pos + |x|..end] == y
  {
    SliceOfSlice(b, pos, end - pos, 0, |x|);
    SliceOfSlice(b, pos, end - pos, |x|, end - pos);
    assert b[pos..pos + (end - pos)] == x + y;
    assert (x + y)[0..|x|] == x && (x + y)[|x|..end - pos] == y;
  }

  lemma OneFollowed(b: seq<byte>, pos: nat, end: nat)
    requires pos + 12 <= end <= |b| && pos + 12 + Count(b, pos) <= end && More(b, pos)
    ensures var next := pos + 12 + Count(b, pos);
            DecodeChain(b, pos, end) == if next == end then Err(MissingDatagram)
                                        else Behind([DatagramAt(b, pos)], DecodeChain(b, next, end))
  {
    hide Count, More, DatagramAt;
  }

  /** Nothing in front of what is wrong. */
  lemma ChainEnd(b: seq<byte>, pos: nat, end: nat, first: bool, rest: seq<byte>, e: FrameError)
    requires pos <= end <= |b| && b[pos..end] == rest && Breaks(first, rest, e)
    ensures if pos == end then rest == [] && e == MissingDatagram else DecodeChain(b, pos, end) == Err(e)
  {
    hide DatagramAt, Count, More;
    assert b[pos..pos + |rest|] == rest;
    if |rest| >= 12 {
      CountOf(b, pos, rest);
    }
  }

  /** A cut-off tag, another ether type, another EtherCAT type, and each kind of damage, told from the bytes behind
      the tags. */
  lemma OtherFrames(addresses: seq<byte>, tags: seq<Tag>, rest: seq<byte>, ws: seq<Wire>, tail: seq<byte>,
                    e: FrameError)
    requires |addresses| == 12 && |rest| >= 2
    ensures var r, kind := Decode(addresses + TagBytes(tags) + rest), Kind(rest);
            if kind == 0x8100 || kind == 0x88a8 then |rest| < 6 ==> r == Err(VlanTruncated)
            else if kind != 0x88a4 then r == Ok(Frame(false, Tcis(tags), []))
            else if |rest| < 4 then r == Err(HeaderTruncated)
            else
              var n := Little(rest[2], rest[3]) % 2048;
              if |rest| < 4 + n then r == Err(LengthBeyondCapture)
              else if rest[3] / 16 != 1 then r == Ok(Frame(true, Tcis(tags), []))
              else if rest[3] / 8 % 2 == 1 then r == Err(ReservedBit)
              else Damaged(rest[4..4 + n], ws, tail, e) ==> r == Err(e)
  {
    hide SkipVlans, DecodeBody, TagBytes, EtherType, Tcis, Damaged;
    var b, pos := addresses + TagBytes(tags) + rest, 14 + 4 * |tags|;
    assert addresses + TagBytes(tags) + rest == addresses + (TagBytes(tags) + rest);
    assert b[12..] == TagBytes(tags) + rest;
    TagsLength(tags);
    TagsMean(b, 14, tags, rest);
    if Kind(rest) == 0x8100 || Kind(rest) == 0x88a8 {
      CutTag(b, tags, rest);
    } else {
      TagsDone(b, tags, rest);
      if Kind(rest) == 0x88a4 {
        BodyOf(b, pos, Tcis(tags), rest, ws, tail, e);
      }
    }
  }

  lemma {:induction false} TagsLength(tags: seq<Tag>)
    ensures |TagBytes(tags)| == 4 * |tags|
  {
    if tags != [] {
      TagsLength(tags[1..]);
    }
  }

  lemma CutTag(b: seq<byte>, tags: seq<Tag>, rest: seq<byte>)
    requires |b| == 12 + 4 * |tags| + |rest| && |rest| >= 2 && (Kind(rest) == 0x8100 || Kind(rest) == 0x88a8)
    requires SkipVlans(b, 14) == Tagged(Tcis(tags), SkipVlans(b, 14 + 4 * |tags|))
    requires EtherType(b, 14 + 4 * |tags|) == Kind(rest)
    ensures |rest| < 6 ==> Decode(b) == Err(VlanTruncated)
  {
    hide EtherType, Tcis, DecodeBody;
  }

  /** A chain that is damaged behind some datagrams. */
  ghost predicate Damaged(chain: seq<byte>, ws: seq<Wire>, tail: seq<byte>, e: FrameError) {
    AllProper(ws) && chain != [] && chain == Followed(ws) + tail && Breaks(ws == [], tail, e)
  }

  lemma BodyOf(b: seq<byte>, pos: nat, vlans: seq<u16>, rest: seq<byte>, ws: seq<Wire>, tail: seq<byte>,
               e: FrameError)
    requires 2 <= pos <= |b| && |rest| >= 2 && b[pos - 2..] == rest
    ensures var r := DecodeBody(b, vlans, pos);
            if |rest| < 4 then r == Err(HeaderTruncated)
            else
              var n := Little(rest[2], rest[3]) % 2048;
              if |rest| < 4 + n then r == Err(LengthBeyondCapture)
              else if rest[3] / 16 != 1 then r == Ok(Frame(true, vlans, []))
              else if rest[3] / 8 % 2 == 1 then r == Err(ReservedBit)
              else Damaged(rest[4..4 + n], ws, tail, e) ==> r == Err(e)
  {
    hide DecodeChain, Damaged;
    var s := b[pos - 2..];
    if |rest| >= 4 {
      assert b[pos] == s[2] && b[pos + 1] == s[3];
      TypeBits(rest[2], rest[3]);
      var n := Little(rest[2], rest[3]) % 2048;
      if |rest| >= 4 + n {
        SliceBehind(b, pos - 2, 4, 4 + n);
        if Damaged(rest[4..4 + n], ws, tail, e) {
          DamagedChain(b, pos + 2, pos + 2 + n, ws, tail, e);
        }
      }
    }
  }

  lemma SliceBehind(b: seq<byte>, at: nat, i: nat, j: nat)
    requires at <= |b| && i <= j <= |b| - at
    ensures b[at..][i..j] == b[at + i..at + j]
  {
    var inner, outer := b[at..][i..j], b[at + i..at + j];
    forall k | 0 <= k < j - i ensures inner[k] == outer[k] {
      assert inner[k] == b[at..][i + k] == b[at + (i + k)];
      assert outer[k] == b[(at + i) + k];
    }
  }

  lemma TypeBits(low: byte, high: byte)
    ensures var header := Little(low, high);
            header / 0x1000 == high / 16 && header / 0x800 % 2 == high / 8 % 2
  {}

  lemma DamagedChain(b: seq<byte>, pos: nat, end: nat, ws: seq<Wire>, tail: seq<byte>, e: FrameError)
    requires pos <= end <= |b| && Damaged(b[pos..end], ws, tail, e)
    ensures DecodeChain(b, pos, end) == Err(e)
  {
    hide DecodeChain, Followed, Breaks;
    ChainBroken(b, pos, end, true, ws, tail, e);
  }

  /** Frames too short for an Ethernet header. */
  lemma ShortFrame(b: seq<byte>)
    ensures Decode(b) == Err(EthernetTruncated) <==> |b| < 14
  {
    hide SkipVlans, DecodeBody;
    if |b| >= 14 {
      NeverShort(b, 14);
      if SkipVlans(b, 14).Ok? {
        BodyNeverShort(b, SkipVlans(b, 14).value.0, SkipVlans(b, 14).value.1);
      }
    }
  }

  lemma {:induction false} NeverShort(b: seq<byte>, pos: nat)
    requires 14 <= pos <= |b|
    ensures SkipVlans(b, pos) != Err(EthernetTruncated)
    decreases |b| - pos
  {
    if pos + 4 <= |b| {
      NeverShort(b, pos + 4);
    }
  }

  lemma {:induction false} ChainNeverShort(b: seq<byte>, pos: nat, end: nat)
    requires pos <= end <= |b|
    ensures DecodeChain(b, pos, end) != Err(EthernetTruncated)
    decreases end - pos
  {
    hide DatagramAt;
    if end - pos >= 12 && pos + 12 + Count(b, pos) <= end {
      ChainNeverShort(b, pos + 12 + Count(b, pos), end);
    }
  }

  lemma BodyNeverShort(b: seq<byte>, vlans: seq<u16>, pos: nat)
    requires pos <= |b|
    ensures DecodeBody(b, vlans, pos) != Err(EthernetTruncated)
  {
    hide DecodeChain;
    if |b| >= pos + 2 && pos + 2 + Word(b, pos) % 0x800 <= |b| {
      ChainNeverShort(b, pos + 2, pos + 2 + Word(b, pos) % 0x800);
    }
  }

  // ---- what the master asks ----

  /** Data goes out with every command but the reads (NOP, APRD, FPRD, BRD, LRD), which go out with zeros. */
  lemma WireData(ask: Ask)
    ensures OnWire(ask) ==
            if ask.command == 0 || ask.command == 1 || ask.command == 4 || ask.command == 7 || ask.command == 10
            then Zeros(|ask.data|) else ask.data
  {}

  /** The status request of a slave: FPRD of the six bytes at 0x0130. */
  lemma StatusAsked(idx: byte, configlst: seq<u16>, k: nat)
    requires k < |configlst|
    ensures StatusAsks(idx, configlst)[k] == Ask(4, idx, configlst[k], 0x0130, Zeros(6))
  {}
}
