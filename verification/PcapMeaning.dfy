/** What the capture reader gives for any well-formed file, whoever wrote it: PCAPNG in both byte orders with
    any options, sections and unknown blocks, and classic PCAP in its four variants. */
module PcapMeaning {
  import opened Bytes
  import opened Pcapng
  import opened PcapngRoundTrip

  // ---- numbers in either byte order ----

  function U16(n: nat, little: bool): (b: seq<byte>)
    requires n < 0x1_0000
    ensures |b| == 2
  {
    if little then [n % 256, n / 256] else [n / 256, n % 256]
  }

  function U32(n: nat, little: bool): (b: seq<byte>)
    requires n < 0x1_0000_0000
    ensures |b| == 4
  {
    var b0, b1, b2, b3 := n % 256, n / 256 % 256, n / 65536 % 256, n / 16777216;
    if little then [b0, b1, b2, b3] else [b3, b2, b1, b0]
  }

  lemma ReadU16(b: seq<byte>, at: nat, n: nat, little: bool)
    requires n < 0x1_0000 && at + 2 <= |b| && b[at..at + 2] == U16(n, little)
    ensures Short(b, at, little) == n
  {
    var s := b[at..at + 2];
    assert s[0] == b[at] && s[1] == b[at + 1];
  }

  lemma QuadOf(n: nat)
    requires n < 0x1_0000_0000
    ensures Quad(n % 256, n / 256 % 256, n / 65536 % 256, n / 16777216) == n
  {
    var a := n / 256;
    var c := a / 256;
    assert n / 65536 == c && c / 256 == n / 16777216;
  }

  lemma ReadU32(b: seq<byte>, at: nat, n: nat, little: bool)
    requires n < 0x1_0000_0000 && at + 4 <= |b| && b[at..at + 4] == U32(n, little)
    ensures Word(b, at, little) == n
  {
    hide Quad;
    var s := b[at..at + 4];
    assert s[0] == b[at] && s[1] == b[at + 1] && s[2] == b[at + 2] && s[3] == b[at + 3];
    QuadOf(n);
  }

  /** With zeros behind it to a multiple of four bytes. */
  function Filled(v: seq<byte>): (b: seq<byte>)
    ensures |b| % 4 == 0 && |v| <= |b| < |v| + 4 && b[..|v|] == v
  {
    if |v| % 4 == 0 then v else v + Zeros(4 - |v| % 4)
  }

  lemma FilledLength(v: seq<byte>)
    ensures |Filled(v)| == Padded(|v|)
  {}

  function Eight(b0: nat, b1: nat, b2: nat, b3: nat, b4: nat, b5: nat, b6: nat, b7: nat): nat {
    b0 + 0x100 * b1 + 0x1_0000 * b2 + 0x100_0000 * b3
    + 0x1_0000_0000 * (b4 + 0x100 * b5 + 0x1_0000 * b6 + 0x100_0000 * b7)
  }

  /** Eight bytes as a signed number. */
  function Signed(v: seq<byte>, little: bool): int
    requires |v| == 8
  {
    var n := if little then Eight(v[0], v[1], v[2], v[3], v[4], v[5], v[6], v[7])
             else Eight(v[7], v[6], v[5], v[4], v[3], v[2], v[1], v[0]);
    if n < 0x8000_0000_0000_0000 then n else n - 0x1_0000_0000_0000_0000
  }

  lemma ReadSigned(b: seq<byte>, at: nat, v: seq<byte>, little: bool)
    requires |v| == 8 && at + 8 <= |b| && b[at..at + 8] == v
    ensures Long(b, at, little) == Signed(v, little)
  {
    var s := b[at..at + 8];
    assert s[0] == b[at] && s[1] == b[at + 1] && s[2] == b[at + 2] && s[3] == b[at + 3];
    assert s[4] == b[at + 4] && s[5] == b[at + 5] && s[6] == b[at + 6] && s[7] == b[at + 7];
  }

  // ---- the options of an interface ----

  datatype Opt = Opt(code: u16, value: seq<byte>)

  predicate Proper(o: Opt) {
    o.code != 0 && |o.value| < 0x1_0000
  }

  predicate AllProper(opts: seq<Opt>) {
    forall k :: 0 <= k < |opts| ==> Proper(opts[k])
  }

  function OptBytes(opts: seq<Opt>, little: bool): seq<byte>
    requires AllProper(opts)
  {
    if opts == [] then []
    else
      U16(opts[0].code, little) + U16(|opts[0].value|, little) + Filled(opts[0].value) + OptBytes(opts[1..], little)
  }

  /** The options end with the body, or with option 0, whatever comes behind it. */
  predicate Ends(rest: seq<byte>) {
    |rest| < 4 || rest[..2] == [0, 0]
  }

  /** The value of the last one-byte option 9, or 6. */
  function LastResolution(opts: seq<Opt>): byte {
    if opts == [] then 6
    else
      var o := opts[|opts| - 1];
      if o.code == 9 && |o.value| == 1 then o.value[0] else LastResolution(opts[..|opts| - 1])
  }

  /** The signed value of the last eight-byte option 14, or 0. */
  function LastOffset(opts: seq<Opt>, little: bool): int {
    if opts == [] then 0
    else
      var o := opts[|opts| - 1];
      if o.code == 14 && |o.value| == 8 then Signed(o.value, little) else LastOffset(opts[..|opts| - 1], little)
  }

  function After(link: nat, snaplen: nat, opts: seq<Opt>, little: bool): Interface {
    Interface(link, LastResolution(opts), snaplen, LastOffset(opts, little))
  }

  lemma AfterOne(link: nat, snaplen: nat, opts: seq<Opt>, o: Opt, little: bool)
    ensures var i := After(link, snaplen, opts, little);
            After(link, snaplen, opts + [o], little) ==
              if o.code == 9 && |o.value| == 1 then i.(resolution := o.value[0])
              else if o.code == 14 && |o.value| == 8 then i.(offset := Signed(o.value, little))
              else i
  {
    hide Signed;
    assert (opts + [o])[..|opts|] == opts;
  }

  lemma ThreeParts(b: seq<byte>, p: nat, x: seq<byte>, y: seq<byte>, z: seq<byte>, tail: seq<byte>)
    requires p <= |b| && b[p..] == x + y + z + tail
    ensures var q, r := p + |x|, p + |x| + |y|;
            && r + |z| <= |b| && b[p..q] == x && b[q..r] == y && b[r..r + |z|] == z && b[r + |z|..] == tail
  {
    var rest := b[p..];
    var i, j, k := |x|, |x| + |y|, |x| + |y| + |z|;
    assert rest[..i] == x && rest[i..j] == y && rest[j..k] == z && rest[k..] == tail;
    assert b[p..p + i] == rest[..i] && b[p + i..p + j] == rest[i..j] && b[p + j..p + k] == rest[j..k];
    assert b[p + k..] == rest[k..];
  }

  /** The fields of one option of a block body. */
  lemma OptionFields(b: seq<byte>, p: nat, little: bool, o: Opt, tail: seq<byte>)
    requires Proper(o) && p <= |b|
    requires b[p..] == U16(o.code, little) + U16(|o.value|, little) + Filled(o.value) + tail
    ensures var size, q := |o.value|, p + 4 + |Filled(o.value)|;
            && q <= |b| && b[q..] == tail && q == p + 4 + Padded(size) && p + 4 + size <= |b|
            && Short(b, p, little) == o.code && Short(b, p + 2, little) == size && b[p + 4..p + 4 + size] == o.value
  {
    hide U16, Short, Filled, Padded;
    var size, filled := |o.value|, Filled(o.value);
    FilledLength(o.value);
    ThreeParts(b, p, U16(o.code, little), U16(size, little), filled, tail);
    ReadU16(b, p, o.code, little);
    ReadU16(b, p + 2, size, little);
    SliceSlice(b, p + 4, |filled|, 0, size);
    assert b[p + 4 + 0..p + 4 + size] == filled[0..size] == filled[..size];
  }

  /** One option of a block body. */
  lemma OneOption(b: seq<byte>, p: nat, little: bool, o: Opt, tail: seq<byte>, i: Interface)
    requires Proper(o) && p <= |b|
    requires b[p..] == U16(o.code, little) + U16(|o.value|, little) + Filled(o.value) + tail
    ensures var q := p + 4 + |Filled(o.value)|;
            && q <= |b| && b[q..] == tail
            && Options(b, p, little, i) ==
               Options(b, q, little, if o.code == 9 && |o.value| == 1 then i.(resolution := o.value[0])
                                     else if o.code == 14 && |o.value| == 8 then i.(offset := Signed(o.value, little))
                                     else i)
  {
    hide U16, Short, Long, Signed, Filled, Padded;
    OptionFields(b, p, little, o, tail);
    var size := |o.value|;
    if size == 8 {
      ReadSigned(b, p + 4, o.value, little);
    } else if size == 1 {
      assert b[p + 4] == b[p + 4..p + 4 + size][0];
    }
  }

  lemma {:induction false} OptionsRun(b: seq<byte>, p: nat, little: bool, opts: seq<Opt>, k: nat, rest: seq<byte>,
                                      link: nat, snaplen: nat)
    requires AllProper(opts) && k <= |opts| && Ends(rest)
    requires p <= |b| && b[p..] == OptBytes(opts[k..], little) + rest
    ensures Options(b, p, little, After(link, snaplen, opts[..k], little)) ==
            Some(After(link, snaplen, opts, little))
    decreases |opts| - k
  {
    hide U16, Options, Filled, After;
    if k == |opts| {
      assert opts[..k] == opts && b[p..] == rest;
      OptionsEnd(b, p, little, rest, After(link, snaplen, opts, little));
    } else {
      var o, tail := opts[k], OptBytes(opts[k + 1..], little) + rest;
      assert opts[k..][1..] == opts[k + 1..] && opts[k..][0] == o && o in opts;
      assert b[p..] == U16(o.code, little) + U16(|o.value|, little) + Filled(o.value) + tail;
      OneOption(b, p, little, o, tail, After(link, snaplen, opts[..k], little));
      AfterOne(link, snaplen, opts[..k], o, little);
      assert opts[..k] + [o] == opts[..k + 1];
      OptionsRun(b, p + 4 + |Filled(o.value)|, little, opts, k + 1, rest, link, snaplen);
    }
  }

  lemma OptionsEnd(b: seq<byte>, p: nat, little: bool, rest: seq<byte>, i: Interface)
    requires p <= |b| && b[p..] == rest && Ends(rest)
    ensures Options(b, p, little, i) == Some(i)
  {
    if |rest| >= 4 {
      assert rest[0] == rest[..2][0] && rest[1] == rest[..2][1];
      assert b[p] == rest[0] && b[p + 1] == rest[1];
    }
  }

  // ---- time stamps ----

  function Power(base: nat, n: nat): (p: nat)
    ensures base > 0 ==> p > 0
  {
    if n == 0 then 1 else Power(base, n - 1) * base
  }

  /** Ticks per second. */
  function PerSecond(resolution: byte): (n: nat)
    ensures n > 0
  {
    if resolution < 128 then Power(10, resolution) else Power(2, resolution - 128)
  }

  /** Microseconds, rounded down, plus the offset in seconds. */
  function StampOf(ticks: nat, resolution: byte, offset: int): int {
    ticks * 1000000 / PerSecond(resolution) + offset * 1000000
  }

  lemma {:induction false} PowerIs(base: nat, n: nat)
    ensures Power(base, n) == Pow(base, n)
  {
    if n > 0 {
      PowerIs(base, n - 1);
    }
  }

  lemma TicksAre(resolution: byte)
    requires resolution <= 38 || resolution >= 128
    ensures Ticks(resolution) == Some(PerSecond(resolution))
  {
    hide Power, Pow;
    if resolution >= 128 {
      PowerIs(2, resolution - 128);
    } else {
      PowerIs(10, resolution);
    }
  }

  // ---- blocks ----

  datatype Piece =
    | NewSection(little: bool, minor: nat, length: seq<byte>, extra: seq<byte>)
    | NewInterface(link: u16, reserved: u16, snaplen: u32, options: seq<Opt>, rest: seq<byte>)
    | NewPacket(id: u32, ticks: u64, data: seq<byte>, original: u32, extra: seq<byte>)
    | NewSimple(size: u32, data: seq<byte>)
    | Unknown(kind: u32, body: seq<byte>)

  /** What has been read so far. */
  datatype Told = Told(little: bool, interfaces: seq<Interface>, section: nat, records: seq<Captured>)

  const NOTHING := Told(true, [], 0, [])

  /** A block that can follow: it has at most 16 MiB and whole words, and refers only to what is there. */
  predicate Fits(s: Told, p: Piece) {
    match p
    case NewSection(_, minor, length, extra) =>
      minor < 0x1_0000 && |length| == 8 && |extra| % 4 == 0 && |extra| + 16 <= 16777216
    case NewInterface(_, _, _, options, rest) =>
      AllProper(options) && Ends(rest) && |s.interfaces| < 4096 && BodyFits(s, p)
    case NewPacket(id, ticks, data, original, _) =>
      && id < |s.interfaces| && |data| <= original && BodyFits(s, p)
      && var i := s.interfaces[id];
         && 0 <= i.resolution < 256 && (i.resolution <= 38 || i.resolution >= 128)
         && 0 <= StampOf(ticks, i.resolution, i.offset) < 0x1_0000_0000_0000_0000
    case NewSimple(size, data) =>
      && s.interfaces != [] && BodyFits(s, p)
      && |data| == if s.interfaces[0].snaplen == 0 || size <= s.interfaces[0].snaplen then size
                   else s.interfaces[0].snaplen
    case Unknown(kind, body) =>
      kind != 1 && kind != 2 && kind != 3 && kind != 6 && kind != 0x0a0d0d0a && BodyFits(s, p)
  }

  predicate BodyFits(s: Told, p: Piece) {
    (p.NewInterface? ==> AllProper(p.options)) && |Body(p, s.little)| % 4 == 0 && |Body(p, s.little)| + 4 <= 16777216
    && (p.NewPacket? ==> |p.data| < 0x1_0000_0000)
  }

  function Body(p: Piece, little: bool): seq<byte>
    requires p.NewInterface? ==> AllProper(p.options)
  {
    match p
    case NewSection(_, _, _, _) => []
    case NewInterface(link, reserved, snaplen, options, rest) =>
      U16(link, little) + U16(reserved, little) + U32(snaplen, little) + (OptBytes(options, little) + rest)
    case NewPacket(id, ticks, data, original, extra) =>
      U32(id, little) + U32(ticks / 0x1_0000_0000, little) + U32(ticks % 0x1_0000_0000, little)
      + U32(|data| % 0x1_0000_0000, little) + U32(original, little) + (Filled(data) + extra)
    case NewSimple(size, data) => U32(size, little) + Filled(data)
    case Unknown(_, body) => body
  }

  function Kind(p: Piece): u32 {
    match p
    case NewSection(_, _, _, _) => 0x0a0d0d0a
    case NewInterface(_, _, _, _, _) => 1
    case NewPacket(_, _, _, _, _) => 6
    case NewSimple(_, _) => 3
    case Unknown(kind, _) => kind
  }

  /** The bytes of a block; a section header says its own byte order. */
  function PieceBytes(s: Told, p: Piece): seq<byte>
    requires Fits(s, p)
  {
    if p.NewSection? then
      var l := p.little;
      [0x0a, 0x0d, 0x0d, 0x0a] + U32(28 + |p.extra|, l)
      + (if l then [0x4d, 0x3c, 0x2b, 0x1a] else [0x1a, 0x2b, 0x3c, 0x4d])
      + (U16(1, l) + U16(p.minor, l) + p.length + p.extra + U32(28 + |p.extra|, l))
    else
      var b := Body(p, s.little);
      U32(Kind(p), s.little) + U32(|b| + 12, s.little) + b + U32(|b| + 12, s.little)
  }

  /** What a block adds. */
  function Adds(s: Told, p: Piece): Told
    requires Fits(s, p)
  {
    match p
    case NewSection(l, _, _, _) => Told(l, [], s.section + 1, s.records)
    case NewInterface(link, _, snaplen, options, _) =>
      s.(interfaces := s.interfaces
         + [Interface(link, LastResolution(options), snaplen, LastOffset(options, s.little))])
    case NewPacket(id, ticks, data, original, _) =>
      var i := s.interfaces[id];
      s.(records := s.records
         + [Captured(|s.records| + 1, StampOf(ticks, i.resolution, i.offset), s.section, id, i.link, data, original,
                     Resolution(i.resolution))])
    case NewSimple(size, data) =>
      s.(records := s.records
         + [Captured(|s.records| + 1, 0, s.section, 0, s.interfaces[0].link, data, size, Unavailable)])
    case Unknown(_, _) => s
  }

  predicate AllFit(pieces: seq<Piece>)
    decreases |pieces|, 0
  {
    pieces != [] ==>
      AllFit(pieces[..|pieces| - 1]) && Fits(Run(pieces[..|pieces| - 1]), pieces[|pieces| - 1])
  }

  /** What a file of these blocks tells. */
  function Run(pieces: seq<Piece>): Told
    requires AllFit(pieces)
    decreases |pieces|, 1
  {
    if pieces == [] then NOTHING else Adds(Run(pieces[..|pieces| - 1]), pieces[|pieces| - 1])
  }

  function File(pieces: seq<Piece>): seq<byte>
    requires AllFit(pieces)
  {
    if pieces == [] then []
    else File(pieces[..|pieces| - 1]) + PieceBytes(Run(pieces[..|pieces| - 1]), pieces[|pieces| - 1])
  }

  // ---- one block ----

  lemma FourParts(input: seq<byte>, pos: nat, a: seq<byte>, b: seq<byte>, c: seq<byte>, e: seq<byte>)
    requires At(input, pos, a + b + c + e)
    ensures At(input, pos, a) && At(input, pos + |a|, b) && At(input, pos + |a| + |b|, c)
    ensures At(input, pos + |a| + |b| + |c|, e)
  {
    hide At;
    assert a + b + c + e == a + b + (c + e);
    AtPart(input, pos, a, b, c + e);
    assert c + e == c + e + [];
    AtPart(input, pos + |a| + |b|, c, e, []);
  }

  lemma MagicKind(kind: u32, little: bool)
    ensures U32(kind, little) == SECTION_MAGIC <==> kind == 0x0a0d0d0a
  {
    QuadOf(kind);
  }

  /** A block that is no section header is read as its kind and body. */
  lemma BlockRead(r: Reader, input: seq<byte>, kind: u32, b: seq<byte>)
    requires r.ng && kind != 0x0a0d0d0a && |b| % 4 == 0 && |b| + 4 <= 16777216
    requires At(input, r.pos, U32(kind, r.little) + U32(|b| + 12, r.little) + b + U32(|b| + 12, r.little))
    ensures One(r, input) == BlockTurn(r.(pos := r.pos + |b| + 12), kind, b)
  {
    hide Word, BlockTurn, Section, ClassicRecord, U32;
    var k, len := U32(kind, r.little), U32(|b| + 12, r.little);
    FourParts(input, r.pos, k, len, b, len);
    MagicKind(kind, r.little);
    ReadU32(input, r.pos, kind, r.little);
    ReadU32(input, r.pos + 4, |b| + 12, r.little);
    ReadU32(input, r.pos + 8 + |b|, |b| + 12, r.little);
  }

  lemma InterfaceRead(r: Reader, link: u16, reserved: u16, snaplen: u32, options: seq<Opt>, rest: seq<byte>)
    requires AllProper(options) && Ends(rest) && |r.interfaces| < 4096
    ensures BlockTurn(r, 1, Body(NewInterface(link, reserved, snaplen, options, rest), r.little)) ==
            Again(r.(interfaces := r.interfaces
                     + [Interface(link, LastResolution(options), snaplen, LastOffset(options, r.little))]))
  {
    hide U16, U32, Short, Word, OptBytes, Options;
    var b := Body(NewInterface(link, reserved, snaplen, options, rest), r.little);
    var tail := OptBytes(options, r.little) + rest;
    assert b == U16(link, r.little) + U16(reserved, r.little) + U32(snaplen, r.little) + tail;
    assert b[0..2] == U16(link, r.little) && b[4..8] == U32(snaplen, r.little) && b[8..] == tail;
    ReadU16(b, 0, link, r.little);
    ReadU32(b, 4, snaplen, r.little);
    assert options[0..] == options && options[..0] == [];
    OptionsRun(b, 8, r.little, options, 0, rest, link, snaplen);
  }

  lemma PacketFields(id: u32, ticks: u64, data: seq<byte>, original: u32, extra: seq<byte>, little: bool)
    requires |data| < 0x1_0000_0000
    ensures var b := Body(NewPacket(id, ticks, data, original, extra), little);
            && |b| == 20 + |Filled(data)| + |extra| && Word(b, 0, little) == id
            && Word(b, 4, little) * 0x1_0000_0000 + Word(b, 8, little) == ticks
            && Word(b, 12, little) == |data| && Word(b, 16, little) == original && b[20..20 + |data|] == data
  {
    hide U32, Word, Filled;
    var b := Body(NewPacket(id, ticks, data, original, extra), little);
    var high, low := ticks / 0x1_0000_0000, ticks % 0x1_0000_0000;
    var tail := Filled(data) + extra;
    assert b == U32(id, little) + U32(high, little) + U32(low, little) + U32(|data|, little) + U32(original, little)
                + tail;
    assert b[0..4] == U32(id, little) && b[4..8] == U32(high, little) && b[8..12] == U32(low, little);
    assert b[12..16] == U32(|data|, little) && b[16..20] == U32(original, little) && b[20..] == tail;
    assert b[20..20 + |data|] == tail[..|data|] == Filled(data)[..|data|];
    ReadU32(b, 0, id, little);
    ReadU32(b, 4, high, little);
    ReadU32(b, 8, low, little);
    ReadU32(b, 12, |data|, little);
    ReadU32(b, 16, original, little);
  }

  lemma PacketRead(r: Reader, id: u32, ticks: u64, data: seq<byte>, original: u32, extra: seq<byte>)
    requires id < |r.interfaces| && |data| <= original && |data| < 0x1_0000_0000
    requires var i := r.interfaces[id];
             && 0 <= i.resolution < 256 && (i.resolution <= 38 || i.resolution >= 128)
             && 0 <= StampOf(ticks, i.resolution, i.offset) < 0x1_0000_0000_0000_0000
    ensures var i := r.interfaces[id];
            BlockTurn(r, 6, Body(NewPacket(id, ticks, data, original, extra), r.little)) ==
            Numbered(r, r.pos, data, StampOf(ticks, i.resolution, i.offset), id, i.link, original,
                     Resolution(i.resolution))
  {
    hide Body, Word, Ticks, PerSecond;
    PacketFields(id, ticks, data, original, extra, r.little);
    TicksAre(r.interfaces[id].resolution);
  }

  lemma SimpleRead(r: Reader, size: u32, data: seq<byte>)
    requires r.interfaces != []
    requires |data| == if r.interfaces[0].snaplen == 0 || size <= r.interfaces[0].snaplen then size
                       else r.interfaces[0].snaplen
    ensures BlockTurn(r, 3, Body(NewSimple(size, data), r.little)) ==
            Numbered(r, r.pos, data, 0, 0, r.interfaces[0].link, size, Unavailable)
  {
    hide U32, Word, Filled, Padded;
    var b := Body(NewSimple(size, data), r.little);
    assert b[0..4] == U32(size, r.little) && b[4..] == Filled(data);
    assert b[4..4 + |data|] == Filled(data)[..|data|];
    ReadU32(b, 0, size, r.little);
    FilledLength(data);
  }

  // ---- a section header ----

  /** The parts of a section header. */
  lemma SectionParts(input: seq<byte>, pos: nat, s: Told, p: Piece)
    requires p.NewSection? && Fits(s, p) && At(input, pos, PieceBytes(s, p))
    ensures var l, len := p.little, 28 + |p.extra|;
            && |PieceBytes(s, p)| == len
            && At(input, pos, SECTION_MAGIC) && At(input, pos + 4, U32(len, l))
            && At(input, pos + 8, if l then LITTLE_MARK else BIG_MARK)
            && At(input, pos + 12, U16(1, l)) && At(input, pos + len - 4, U32(len, l))
  {
    hide U16, U32, At, PieceBytes;
    var l, len := p.little, 28 + |p.extra|;
    var mark := if l then LITTLE_MARK else BIG_MARK;
    var middle := U16(p.minor, l) + p.length + p.extra;
    SectionBytes(s, p);
    FourParts(input, pos, SECTION_MAGIC, U32(len, l), mark, U16(1, l) + middle + U32(len, l));
    AtPart(input, pos + 12, U16(1, l), middle, U32(len, l));
  }

  lemma SectionBytes(s: Told, p: Piece)
    requires p.NewSection? && Fits(s, p)
    ensures var l, len := p.little, 28 + |p.extra|;
            var middle := U16(p.minor, l) + p.length + p.extra;
            PieceBytes(s, p) == SECTION_MAGIC + U32(len, l) + (if l then LITTLE_MARK else BIG_MARK)
                                + (U16(1, l) + middle + U32(len, l))
  {
    hide U16, U32;
    var l := p.little;
    Regroup(U16(1, l), U16(p.minor, l), p.length, p.extra, U32(28 + |p.extra|, l));
  }

  lemma Regroup(a: seq<byte>, b: seq<byte>, c: seq<byte>, d: seq<byte>, e: seq<byte>)
    ensures a + b + c + d + e == a + (b + c + d) + e
  {}

  /** What stands where in a section header. */
  lemma SectionFields(input: seq<byte>, pos: nat, s: Told, p: Piece)
    requires p.NewSection? && Fits(s, p) && At(input, pos, PieceBytes(s, p))
    ensures var end := pos + 28 + |p.extra|;
            && |PieceBytes(s, p)| == 28 + |p.extra| && end <= |input|
            && input[pos..pos + 4] == SECTION_MAGIC && Word(input, pos + 4, p.little) == 28 + |p.extra|
            && input[pos + 8..pos + 12] == (if p.little then LITTLE_MARK else BIG_MARK)
            && Short(input, pos + 12, p.little) == 1 && Word(input, end - 4, p.little) == 28 + |p.extra|
  {
    hide U16, U32, Short, Word, At, PieceBytes;
    var l, len := p.little, 28 + |p.extra|;
    SectionParts(input, pos, s, p);
    AtWord(input, pos + 4, len, l);
    AtShort(input, pos + 12, 1, l);
    AtWord(input, pos + len - 4, len, l);
    AtBytes(input, pos, SECTION_MAGIC);
    AtBytes(input, pos + 8, if l then LITTLE_MARK else BIG_MARK);
    AtInside(input, pos, PieceBytes(s, p));
  }

  lemma AtWord(input: seq<byte>, pos: nat, n: u32, little: bool)
    requires At(input, pos, U32(n, little))
    ensures pos + 4 <= |input| && Word(input, pos, little) == n
  {
    hide U32, Word;
    ReadU32(input, pos, n, little);
  }

  lemma AtShort(input: seq<byte>, pos: nat, n: u16, little: bool)
    requires At(input, pos, U16(n, little))
    ensures pos + 2 <= |input| && Short(input, pos, little) == n
  {
    hide U16, Short;
    ReadU16(input, pos, n, little);
  }

  lemma AtBytes(input: seq<byte>, pos: nat, part: seq<byte>)
    requires At(input, pos, part) && |part| == 4
    ensures pos + 4 <= |input| && input[pos..pos + 4] == part
  {}

  lemma AtInside(input: seq<byte>, pos: nat, part: seq<byte>)
    requires At(input, pos, part)
    ensures pos + |part| <= |input|
  {}

  lemma SectionRead(r: Reader, input: seq<byte>, pos: nat, s: Told, p: Piece)
    requires p.NewSection? && Fits(s, p) && At(input, pos, PieceBytes(s, p))
    ensures pos + 8 <= |input| && input[pos..pos + 4] == SECTION_MAGIC
    ensures Section(r, input, pos + 4) ==
            Opened(r.(pos := pos + |PieceBytes(s, p)|, little := p.little, interfaces := [], section := r.section + 1))
  {
    hide PieceBytes, At, Short, Word;
    SectionFields(input, pos, s, p);
    assert input[pos + 8] == input[pos + 8..pos + 12][0];
  }

  // ---- a whole file ----

  function ReaderOf(s: Told, pos: nat): Reader {
    Reader(pos, s.little, true, false, 1, s.interfaces, |s.records|, s.section)
  }

  /** One block, wherever it stands. */
  lemma PieceRead(s: Told, p: Piece, input: seq<byte>, pos: nat)
    requires Fits(s, p) && At(input, pos, PieceBytes(s, p))
    ensures var n := Adds(s, p); var at := pos + |PieceBytes(s, p)|;
            && s.records <= n.records && |n.records| <= |s.records| + 1
            && One(ReaderOf(s, pos), input) ==
               if |n.records| > |s.records| then Got(ReaderOf(n, at), n.records[|s.records|])
               else Again(ReaderOf(n, at))
  {
    hide Section, PieceBytes, BlockTurn, ClassicRecord, Word, Body, Fits, At, One;
    if p.NewSection? {
      SectionPiece(s, p, input, pos);
    } else {
      BlockPiece(s, p, input, pos);
      BodyRead(s, p, ReaderOf(s, pos + |PieceBytes(s, p)|));
    }
  }

  lemma SectionPiece(s: Told, p: Piece, input: seq<byte>, pos: nat)
    requires p.NewSection? && Fits(s, p) && At(input, pos, PieceBytes(s, p))
    ensures One(ReaderOf(s, pos), input) == Again(ReaderOf(Adds(s, p), pos + |PieceBytes(s, p)|))
  {
    hide Section, PieceBytes, ClassicRecord, Word, At, BlockTurn;
    SectionRead(ReaderOf(s, pos), input, pos, s, p);
    AtInside(input, pos, PieceBytes(s, p));
  }

  lemma BlockPiece(s: Told, p: Piece, input: seq<byte>, pos: nat)
    requires !p.NewSection? && Fits(s, p) && At(input, pos, PieceBytes(s, p))
    ensures BodyFits(s, p)
    ensures One(ReaderOf(s, pos), input) ==
            BlockTurn(ReaderOf(s, pos + |PieceBytes(s, p)|), Kind(p), Body(p, s.little))
  {
    hide BlockTurn, Body, One, U32, At;
    BlockRead(ReaderOf(s, pos), input, Kind(p), Body(p, s.little));
  }

  /** The body of a block adds what the block tells. */
  lemma BodyRead(s: Told, p: Piece, r: Reader)
    requires !p.NewSection? && Fits(s, p) && r == ReaderOf(s, r.pos) && BodyFits(s, p)
    ensures var n := Adds(s, p);
            && s.records <= n.records && |n.records| <= |s.records| + 1
            && BlockTurn(r, Kind(p), Body(p, s.little)) ==
               if |n.records| > |s.records| then Got(ReaderOf(n, r.pos), n.records[|s.records|])
               else Again(ReaderOf(n, r.pos))
  {
    hide BlockTurn, Body, LastResolution, LastOffset, StampOf, Ends;
    match p
    case NewInterface(link, reserved, snaplen, options, rest) =>
      InterfaceRead(r, link, reserved, snaplen, options, rest);
    case NewPacket(id, ticks, data, original, extra) => PacketRead(r, id, ticks, data, original, extra);
    case NewSimple(size, data) => SimpleRead(r, size, data);
    case Unknown(kind, _) => UnknownRead(r, kind, Body(p, s.little));
  }

  lemma UnknownRead(r: Reader, kind: u32, body: seq<byte>)
    requires kind != 1 && kind != 2 && kind != 3 && kind != 6
    ensures BlockTurn(r, kind, body) == Again(r)
  {}

  lemma RestAgain(r: Reader, input: seq<byte>, n: Reader)
    requires One(r, input) == Again(n)
    ensures Rest(r, input) == Rest(n, input)
  {
    hide One;
    OneAdvances(r, input);
    assert Next(r, input) == Next(n, input);
  }

  lemma RestGot(r: Reader, input: seq<byte>, n: Reader, record: Captured)
    requires One(r, input) == Got(n, record)
    ensures Rest(r, input) == ReadAll([record] + Rest(n, input).records, Rest(n, input).end)
  {
    hide One;
    OneAdvances(r, input);
    assert Next(r, input) == Got(n, record);
  }

  lemma PrefixFits(pieces: seq<Piece>, k: nat)
    requires AllFit(pieces) && k <= |pieces|
    ensures AllFit(pieces[..k])
    decreases |pieces|
  {
    if k == |pieces| {
      assert pieces[..k] == pieces;
    } else {
      PrefixFits(pieces[..|pieces| - 1], k);
      assert pieces[..|pieces| - 1][..k] == pieces[..k];
    }
  }

  lemma {:induction false} FilePrefix(pieces: seq<Piece>, k: nat)
    requires AllFit(pieces) && k <= |pieces|
    ensures AllFit(pieces[..k]) && File(pieces[..k]) <= File(pieces)
    ensures Run(pieces[..k]).records <= Run(pieces).records
    decreases |pieces|
  {
    hide Fits, PieceBytes;
    if k == |pieces| {
      assert pieces[..k] == pieces;
    } else {
      FilePrefix(pieces[..|pieces| - 1], k);
      assert pieces[..|pieces| - 1][..k] == pieces[..k];
      RecordsGrow(Run(pieces[..|pieces| - 1]), pieces[|pieces| - 1]);
    }
  }

  lemma RecordsGrow(s: Told, p: Piece)
    requires Fits(s, p)
    ensures s.records <= Adds(s, p).records
  {
    hide StampOf, LastResolution, LastOffset;
  }

  /** Where block k lies in the file. */
  lemma PieceAt(pieces: seq<Piece>, k: nat)
    requires AllFit(pieces) && k < |pieces|
    ensures AllFit(pieces[..k]) && AllFit(pieces[..k + 1]) && Fits(Run(pieces[..k]), pieces[k])
    ensures Run(pieces[..k + 1]) == Adds(Run(pieces[..k]), pieces[k])
    ensures At(File(pieces), |File(pieces[..k])|, PieceBytes(Run(pieces[..k]), pieces[k]))
    ensures |File(pieces[..k + 1])| == |File(pieces[..k])| + |PieceBytes(Run(pieces[..k]), pieces[k])|
  {
    hide Fits, PieceBytes, Adds, At;
    PrefixFits(pieces, k + 1);
    FilePrefix(pieces, k + 1);
    var front := pieces[..k + 1];
    assert front[..k] == pieces[..k] && front[k] == pieces[k];
    var head, part := File(pieces[..k]), PieceBytes(Run(pieces[..k]), pieces[k]);
    assert File(front) == head + part;
    PartOfPrefix(File(pieces), head, part);
  }

  lemma {:induction false} FileReads(pieces: seq<Piece>, k: nat)
    requires AllFit(pieces) && k <= |pieces|
    ensures AllFit(pieces[..k]) && |Run(pieces[..k]).records| <= |Run(pieces).records|
    ensures Rest(ReaderOf(Run(pieces[..k]), |File(pieces[..k])|), File(pieces)) ==
            ReadAll(Run(pieces).records[|Run(pieces[..k]).records|..], Done)
    decreases |pieces| - k
  {
    hide Fits, PieceBytes, Adds, Rest, One, Run, File, AllFit, At;
    FilePrefix(pieces, k);
    var input := File(pieces);
    if k == |pieces| {
      assert pieces[..k] == pieces;
      RestEnd(ReaderOf(Run(pieces), |input|), input);
      assert Run(pieces).records[|Run(pieces).records|..] == [];
    } else {
      FilePrefix(pieces, k + 1);
      PieceAt(pieces, k);
      FileReads(pieces, k + 1);
      var s, n, all := Run(pieces[..k]), Run(pieces[..k + 1]), Run(pieces).records;
      var r, next := ReaderOf(s, |File(pieces[..k])|), ReaderOf(n, |File(pieces[..k + 1])|);
      PieceRead(s, pieces[k], input, |File(pieces[..k])|);
      if |n.records| > |s.records| {
        RestGot(r, input, next, n.records[|s.records|]);
        assert all[|s.records|] == n.records[|s.records|];
        assert all[|s.records|..] == [all[|s.records|]] + all[|n.records|..];
      } else {
        RestAgain(r, input, next);
        assert n.records == s.records;
      }
    }
  }

  lemma RestEnd(r: Reader, input: seq<byte>)
    requires r.pos == |input|
    ensures Rest(r, input) == ReadAll([], Done)
  {
    EndOfFile(r, input);
  }

  /** Reading any well-formed PCAPNG file gives exactly the records its blocks tell, then its end. */
  lemma FileMeans(pieces: seq<Piece>)
    requires AllFit(pieces) && pieces != [] && pieces[0].NewSection?
    ensures Open(File(pieces)).Opened?
    ensures Rest(Open(File(pieces)).reader, File(pieces)) == ReadAll(Run(pieces).records, Done)
  {
    hide Fits, PieceBytes, Rest, Run, File, AllFit, Section;
    PieceAt(pieces, 0);
    NoPieces(pieces);
    var r := Reader(4, true, true, false, 1, [], 0, 0);
    SectionRead(r, File(pieces), 0, NOTHING, pieces[0]);
    assert File(pieces)[..4] == File(pieces)[0..0 + 4];
    FileReads(pieces, 1);
  }

  lemma NoPieces(pieces: seq<Piece>)
    ensures AllFit(pieces[..0]) && Run(pieces[..0]) == NOTHING && File(pieces[..0]) == []
  {}

  // ---- what is never accepted ----

  /** A block that can be taken at pos: at least 12 bytes, whole words, and the same length at both ends. */
  predicate Framed(input: seq<byte>, pos: nat, len: nat, little: bool) {
    && 12 <= len && len % 4 == 0 && pos + len <= |input|
    && Word(input, pos + 4, little) == len && Word(input, pos + len - 4, little) == len
  }

  /** Whatever the bytes, the reader goes on only behind a framed block, and a record it gives has its bytes
      inside that block and no more of them than the packet had. */
  lemma OneSound(r: Reader, input: seq<byte>) returns (at: nat)
    requires r.ng && (One(r, input).Again? || One(r, input).Got?)
    ensures var t := One(r, input); var n := if t.Again? then t.next else t.reader;
            && n.pos > r.pos && Framed(input, r.pos, n.pos - r.pos, n.little)
            && (t.Got? ==> |t.record.bytes| <= t.record.original)
            && (t.Got? ==> Within(input, r.pos + 8, n.pos - 4, at, t.record.bytes))
  {
    hide Word, Ticks, Micros, BlockTurn;
    at := 0;
    if input[r.pos..r.pos + 4] == SECTION_MAGIC {
      hide Section;
    } else {
      var kind, len := Word(input, r.pos, r.little), Word(input, r.pos + 4, r.little);
      BlockKeeps(r.(pos := r.pos + len), kind, input[r.pos + 8..r.pos + len - 4]);
      at := RecordWithin(r.(pos := r.pos + len), input, r.pos + 8, r.pos + len - 4, kind);
    }
  }

  /** Some bytes of the input, between two places. */
  predicate Within(input: seq<byte>, from: int, to: int, at: nat, part: seq<byte>) {
    from <= at && at + |part| <= to <= |input| && input[at..at + |part|] == part
  }

  lemma BlockKeeps(r: Reader, kind: nat, b: seq<byte>)
    ensures var t := BlockTurn(r, kind, b);
            && (t.Again? ==> t.next.pos == r.pos && t.next.little == r.little)
            && (t.Got? ==> t.reader.pos == r.pos && t.reader.little == r.little)
            && (t.Got? ==> |t.record.bytes| <= t.record.original)
  {
    hide Word, Ticks, Micros, Options;
  }

  lemma RecordWithin(r: Reader, input: seq<byte>, from: nat, to: nat, kind: nat) returns (at: nat)
    requires from <= to <= |input|
    ensures var t := BlockTurn(r, kind, input[from..to]); t.Got? ==> Within(input, from, to, at, t.record.bytes)
  {
    hide Word, Ticks, Micros, Options;
    var t := BlockTurn(r, kind, input[from..to]);
    var skip: nat := if kind == 6 then 20 else 4;
    at := from + skip;
    if t.Got? {
      var n := |t.record.bytes|;
      SliceSlice(input, from, to - from, skip, skip + n);
    }
  }

  // ---- classic files ----

  datatype ClassicPacket = ClassicPacket(seconds: u32, fraction: u32, data: seq<byte>, original: u32)

  predicate ClassicFits(p: ClassicPacket) {
    |p.data| <= p.original && |p.data| <= 16777216
  }

  function ClassicBytes(p: ClassicPacket, little: bool): seq<byte>
    requires ClassicFits(p)
  {
    U32(p.seconds, little) + U32(p.fraction, little) + (U32(|p.data|, little) + U32(p.original, little)) + p.data
  }

  /** The magic number says byte order and precision. */
  function ClassicMagic(little: bool, nano: bool): (m: seq<byte>)
    ensures |m| == 4
  {
    U32(if nano then 0xa1b23c4d else 0xa1b2c3d4, little)
  }

  /** Magic, version 2.4, twelve bytes nobody reads, and the link type in the low 16 bits of the last word. */
  function ClassicHeader(little: bool, nano: bool, ignored: seq<byte>, link: u32): (h: seq<byte>)
    requires |ignored| == 12
    ensures |h| == 24
  {
    ClassicMagic(little, nano) + (U16(2, little) + U16(4, little)) + ignored + U32(link, little)
  }

  function ClassicFile(packets: seq<ClassicPacket>, header: seq<byte>, little: bool): seq<byte>
    requires forall k :: 0 <= k < |packets| ==> ClassicFits(packets[k])
  {
    if packets == [] then header
    else ClassicFile(packets[..|packets| - 1], header, little) + ClassicBytes(packets[|packets| - 1], little)
  }

  /** Seconds and microseconds, or nanoseconds rounded down. */
  function ClassicRecordOf(p: ClassicPacket, nano: bool, link: u32, k: nat): Captured {
    Captured(k + 1, p.seconds * 1000000 + if nano then p.fraction / 1000 else p.fraction, 0, 0, link % 65536, p.data,
             p.original, if nano then Nano else Micro)
  }

  function ClassicReader(little: bool, nano: bool, link: u32, pos: nat, k: nat): Reader {
    Reader(pos, little, false, nano, link % 65536, [], k, 0)
  }

  lemma ClassicRead(p: ClassicPacket, little: bool, nano: bool, link: u32, input: seq<byte>, pos: nat, k: nat)
    requires ClassicFits(p) && At(input, pos, ClassicBytes(p, little))
    ensures One(ClassicReader(little, nano, link, pos, k), input) ==
            Got(ClassicReader(little, nano, link, pos + |ClassicBytes(p, little)|, k + 1),
                ClassicRecordOf(p, nano, link, k))
  {
    hide U32, Word, Section;
    var len, original := U32(|p.data|, little), U32(p.original, little);
    FourParts(input, pos, U32(p.seconds, little), U32(p.fraction, little), len + original, p.data);
    assert len + original == [] + len + original;
    AtPart(input, pos + 8, [], len, original);
    ReadU32(input, pos, p.seconds, little);
    ReadU32(input, pos + 4, p.fraction, little);
    ReadU32(input, pos + 8, |p.data|, little);
    ReadU32(input, pos + 12, p.original, little);
  }

  lemma ClassicFields(little: bool, nano: bool, ignored: seq<byte>, link: u32, input: seq<byte>)
    requires |ignored| == 12 && At(input, 0, ClassicHeader(little, nano, ignored, link))
    ensures |input| >= 24 && input[0..4] == ClassicMagic(little, nano)
    ensures Short(input, 4, little) == 2 && Short(input, 6, little) == 4 && Word(input, 20, little) == link
  {
    hide U16, U32, Short, Word, At, ClassicMagic;
    FourParts(input, 0, ClassicMagic(little, nano), U16(2, little) + U16(4, little), ignored, U32(link, little));
    assert U16(2, little) + U16(4, little) == U16(2, little) + U16(4, little) + [];
    AtPart(input, 4, U16(2, little), U16(4, little), []);
    AtShort(input, 4, 2, little);
    AtShort(input, 6, 4, little);
    AtWord(input, 20, link, little);
    AtBytes(input, 0, ClassicMagic(little, nano));
    AtInside(input, 0, ClassicHeader(little, nano, ignored, link));
  }

  lemma MagicOf(little: bool, nano: bool)
    ensures ClassicMagic(little, nano) ==
            if nano then if little then [0x4d, 0x3c, 0xb2, 0xa1] else [0xa1, 0xb2, 0x3c, 0x4d]
            else if little then [0xd4, 0xc3, 0xb2, 0xa1] else [0xa1, 0xb2, 0xc3, 0xd4]
  {}

  lemma ClassicOpen(little: bool, nano: bool, ignored: seq<byte>, link: u32, input: seq<byte>)
    requires |ignored| == 12 && At(input, 0, ClassicHeader(little, nano, ignored, link))
    ensures Open(input) == Opened(ClassicReader(little, nano, link, 24, 0))
  {
    hide At, ClassicMagic, Short, Word, ClassicHeader, Section;
    ClassicFields(little, nano, ignored, link, input);
    MagicOf(little, nano);
    assert input[..4] == input[0..4];
    Differ(input[0..4]);
  }

  /** The magic numbers differ in their first or third byte. */
  lemma Differ(m: seq<byte>)
    requires |m| == 4
    ensures m == SECTION_MAGIC ==> m[0] == 0x0a
    ensures m == [0xd4, 0xc3, 0xb2, 0xa1] ==> m[0] == 0xd4
    ensures m == [0xa1, 0xb2, 0xc3, 0xd4] ==> m[0] == 0xa1 && m[2] == 0xc3
    ensures m == [0x4d, 0x3c, 0xb2, 0xa1] ==> m[0] == 0x4d
    ensures m == [0xa1, 0xb2, 0x3c, 0x4d] ==> m[0] == 0xa1 && m[2] == 0x3c
  {}

  lemma {:induction false} ClassicPrefix(packets: seq<ClassicPacket>, header: seq<byte>, little: bool, k: nat)
    requires (forall j :: 0 <= j < |packets| ==> ClassicFits(packets[j])) && k <= |packets|
    ensures ClassicFile(packets[..k], header, little) <= ClassicFile(packets, header, little)
    ensures header <= ClassicFile(packets[..k], header, little)
    decreases |packets|
  {
    hide ClassicBytes, ClassicFits;
    if k == |packets| {
      assert packets[..k] == packets;
      if k > 0 {
        ClassicPrefix(packets[..k - 1], header, little, k - 1);
        assert packets[..k - 1][..k - 1] == packets[..k - 1];
      }
    } else {
      ClassicPrefix(packets[..|packets| - 1], header, little, k);
      assert packets[..|packets| - 1][..k] == packets[..k];
    }
  }

  lemma ClassicAt(packets: seq<ClassicPacket>, header: seq<byte>, little: bool, k: nat)
    requires (forall j :: 0 <= j < |packets| ==> ClassicFits(packets[j])) && k < |packets|
    ensures var at := |ClassicFile(packets[..k], header, little)|; var part := ClassicBytes(packets[k], little);
            && At(ClassicFile(packets, header, little), at, part)
            && |ClassicFile(packets[..k + 1], header, little)| == at + |part|
  {
    hide ClassicBytes, ClassicFits, At;
    ClassicPrefix(packets, header, little, k + 1);
    var front := packets[..k + 1];
    assert front[..k] == packets[..k] && front[k] == packets[k];
    PartOfPrefix(ClassicFile(packets, header, little), ClassicFile(packets[..k], header, little),
                 ClassicBytes(packets[k], little));
  }

  lemma PartOfPrefix(all: seq<byte>, head: seq<byte>, part: seq<byte>)
    requires head + part <= all
    ensures At(all, |head|, part)
  {
    var whole := head + part;
    assert all[..|whole|] == whole;
    assert all[|head|..|head| + |part|] == whole[|head|..|head| + |part|] == part;
  }

  lemma {:induction false} ClassicReads(packets: seq<ClassicPacket>, header: seq<byte>, little: bool, nano: bool,
                                        link: u32, k: nat)
    requires (forall j :: 0 <= j < |packets| ==> ClassicFits(packets[j])) && k <= |packets|
    ensures var input := ClassicFile(packets, header, little);
            var rest := Rest(ClassicReader(little, nano, link, |ClassicFile(packets[..k], header, little)|, k), input);
            && rest.end == Done && |rest.records| == |packets| - k
            && forall j :: k <= j < |packets| ==> rest.records[j - k] == ClassicRecordOf(packets[j], nano, link, j)
    decreases |packets| - k
  {
    hide ClassicBytes, ClassicFits, ClassicFile, Rest, One, At, ClassicRecordOf;
    var input := ClassicFile(packets, header, little);
    if k == |packets| {
      assert packets[..k] == packets;
      RestEnd(ClassicReader(little, nano, link, |input|, k), input);
    } else {
      ClassicAt(packets, header, little, k);
      ClassicReads(packets, header, little, nano, link, k + 1);
      var pos := |ClassicFile(packets[..k], header, little)|;
      ClassicRead(packets[k], little, nano, link, input, pos, k);
      RestGot(ClassicReader(little, nano, link, pos, k), input,
              ClassicReader(little, nano, link, |ClassicFile(packets[..k + 1], header, little)|, k + 1),
              ClassicRecordOf(packets[k], nano, link, k));
    }
  }

  lemma ClassicStart(packets: seq<ClassicPacket>, header: seq<byte>, little: bool)
    requires forall j :: 0 <= j < |packets| ==> ClassicFits(packets[j])
    ensures ClassicFile(packets[..0], header, little) == header
    ensures At(ClassicFile(packets, header, little), 0, header)
  {
    hide ClassicBytes, ClassicFits;
    ClassicPrefix(packets, header, little, 0);
    var input := ClassicFile(packets, header, little);
    assert packets[..0] == [];
    assert input[0..0 + |header|] == input[..|header|] == header;
  }

  /** Reading any classic file, in each of its four variants, gives exactly its packets, then its end. */
  lemma ClassicMeans(packets: seq<ClassicPacket>, little: bool, nano: bool, ignored: seq<byte>, link: u32)
    requires (forall k :: 0 <= k < |packets| ==> ClassicFits(packets[k])) && |ignored| == 12
    ensures var input := ClassicFile(packets, ClassicHeader(little, nano, ignored, link), little);
            && Open(input).Opened?
            && var all := Rest(Open(input).reader, input);
               && all.end == Done && |all.records| == |packets|
               && forall k :: 0 <= k < |packets| ==> all.records[k] == ClassicRecordOf(packets[k], nano, link, k)
  {
    hide ClassicFits, ClassicHeader, ClassicFile, Rest, Open, ClassicRecordOf, At;
    var header := ClassicHeader(little, nano, ignored, link);
    var input := ClassicFile(packets, header, little);
    ClassicStart(packets, header, little);
    ClassicOpen(little, nano, ignored, link, input);
    ClassicReads(packets, header, little, nano, link, 0);
  }

  // ---- what the writer writes ----

  predicate Writes(p: Piece) {
    !p.NewSection? && (p.NewInterface? ==> AllProper(p.options)) && |Body(p, true)| + 12 < 0x1_0000_0000
  }

  /** A little-endian block. */
  function Plain(p: Piece): seq<byte>
    requires Writes(p)
  {
    var b := Body(p, true);
    U32(Kind(p), true) + U32(|b| + 12, true) + b + U32(|b| + 12, true)
  }

  /** An Ethernet interface of 64 KiB packets that is named after its source. */
  function Named(source: seq<byte>): Piece {
    NewInterface(1, 0, 65536, [Opt(2, if |source| <= 1024 then source else source[..1024])], [0, 0, 0, 0])
  }

  lemma LeIsU32(n: nat)
    requires n < 0x1_0000_0000
    ensures Le32(n) == U32(n, true)
  {
    var m := n / 0x100;
    assert m / 0x100 == n / 65536 && m / 0x100 / 0x100 == n / 16777216;
  }

  lemma BlockWritten(kind: u32, b: seq<byte>)
    requires |b| + 12 < 0x1_0000_0000
    ensures Block(kind, b) == U32(kind, true) + U32(|b| + 12, true) + b + U32(|b| + 12, true)
  {
    hide Le32, U32;
    LeIsU32(kind);
    LeIsU32(|b| + 12);
  }

  lemma PadBehind(head: seq<byte>, v: seq<byte>)
    requires |head| % 4 == 0
    ensures Pad(head + v) == head + Filled(v)
  {}

  lemma OneOpt(o: Opt)
    requires Proper(o)
    ensures AllProper([o]) && OptBytes([o], true) == U16(o.code, true) + U16(|o.value|, true) + Filled(o.value)
  {
    hide U16, Filled;
    assert [o][1..] == [];
  }

  lemma InterfaceWritten(source: seq<byte>)
    ensures var p := Named(source);
            Writes(p) && Block(1, InterfaceBody(source)) == Plain(p)
  {
    hide U32, U16, Le32, Filled, Pad, Block, OptBytes;
    var name := Name(source);
    OneOpt(Opt(2, name));
    var head := [1, 0, 0, 0] + Le32(65536) + Le16(2) + Le16(|name|);
    PadBehind(head, name);
    LeIsU32(65536);
    assert U16(1, true) + U16(0, true) == [1, 0, 0, 0] by { SmallWords(); }
    assert Le16(2) == U16(2, true) && Le16(|name|) == U16(|name|, true) by { ShortWord(2); ShortWord(|name|); }
    assert InterfaceBody(source) == head + Filled(name) + [0, 0, 0, 0];
    assert Body(Named(source), true) == InterfaceBody(source);
    BlockWritten(1, InterfaceBody(source));
  }

  lemma SmallWords()
    ensures U16(1, true) + U16(0, true) == [1, 0, 0, 0]
  {}

  lemma ShortWord(n: nat)
    requires n < 0x1_0000
    ensures Le16(n) == U16(n, true)
  {}

  lemma PacketWritten(id: u32, p: Packet)
    requires |p.data| + 48 < 0x1_0000_0000
    ensures var piece := NewPacket(id, p.stamp, p.data, p.original, []);
            Writes(piece) && Block(6, PacketBody(id, p)) == Plain(piece)
  {
    hide U32, Le32, Filled, Pad, Block;
    var high, low := p.stamp / 0x1_0000_0000, p.stamp % 0x1_0000_0000;
    LeIsU32(id);
    LeIsU32(high);
    LeIsU32(low);
    LeIsU32(|p.data|);
    LeIsU32(p.original);
    var head := Le32(id) + Le32(high) + Le32(low) + Le32(|p.data|) + Le32(p.original);
    PadBehind(head, p.data);
    assert PacketBody(id, p) == head + Filled(p.data);
    assert Filled(p.data) + [] == Filled(p.data);
    assert Body(NewPacket(id, p.stamp, p.data, p.original, []), true) == PacketBody(id, p);
    BlockWritten(6, PacketBody(id, p));
  }

  /** The file grows by the interface of a new source, and the packet with the number of its interface. */
  predicate Appends(before: seq<byte>, after: seq<byte>, isNew: bool, id: nat, p: Packet) {
    id < 0x1_0000_0000 && |p.data| + 48 < 0x1_0000_0000 ==>
      var interface, packet := Named(p.source), NewPacket(id, p.stamp, p.data, p.original, []);
      && Writes(interface) && Writes(packet)
      && after == before + ((if isNew then Plain(interface) else []) + Plain(packet))
  }

  lemma BlocksAppend(before: seq<byte>, sources: seq<seq<byte>>, p: Packet)
    ensures Appends(before, before + PacketBlocks(sources, p), p.source !in sources, IndexOf(p.source, sources), p)
  {
    hide Block, InterfaceBody, PacketBody, Plain, Writes;
    if IndexOf(p.source, sources) < 0x1_0000_0000 && |p.data| + 48 < 0x1_0000_0000 {
      InterfaceWritten(p.source);
      PacketWritten(IndexOf(p.source, sources), p);
    }
  }

  /** The file starts with one little-endian section header of version 1.0 and unknown length. */
  lemma SectionWritten()
    ensures SectionBlock() == [0x0a, 0x0d, 0x0d, 0x0a, 28, 0, 0, 0, 0x4d, 0x3c, 0x2b, 0x1a, 1, 0, 0, 0,
                               0xff, 0xff, 0xff, 0xff, 0xff, 0xff, 0xff, 0xff, 28, 0, 0, 0]
  {
    hide SectionBlock;
    PcapngRoundTrip.SectionBytes();
  }
}
