/** Capture files (src/pcap_file.rs): what the writer produces and what the reader makes of any bytes. */
module Pcapng {
  import opened Bytes

  datatype Option<+T> = None | Some(value: T)

  const EXACT_LIMIT: nat := 16 * 1024 * 1024
  const INTERFACES_MAX: nat := 4096
  const NAME_MAX: nat := 1024
  const SECTION_MAGIC: seq<byte> := [0x0a, 0x0d, 0x0d, 0x0a]
  const LITTLE_MARK: seq<byte> := [0x4d, 0x3c, 0x2b, 0x1a]
  const BIG_MARK: seq<byte> := [0x1a, 0x2b, 0x3c, 0x4d]

  // ---- numbers in files ----

  function Le16(n: nat): (b: seq<byte>)
    ensures |b| == 2
  {
    [n % 0x100, n / 0x100 % 0x100]
  }

  function Le32(n: nat): (b: seq<byte>)
    ensures |b| == 4
  {
    var m := n / 0x100;
    var h := m / 0x100;
    [n % 0x100, m % 0x100, h % 0x100, h / 0x100 % 0x100]
  }

  function Short(b: seq<byte>, at: nat, little: bool): nat
    requires at + 2 <= |b|
  {
    if little then (b[at] as int) + 0x100 * (b[at + 1] as int) else (b[at + 1] as int) + 0x100 * (b[at] as int)
  }

  function Word(b: seq<byte>, at: nat, little: bool): nat
    requires at + 4 <= |b|
  {
    if little then Quad(b[at], b[at + 1], b[at + 2], b[at + 3]) else Quad(b[at + 3], b[at + 2], b[at + 1], b[at])
  }

  function Quad(b0: nat, b1: nat, b2: nat, b3: nat): nat {
    b0 + 0x100 * b1 + 0x1_0000 * b2 + 0x100_0000 * b3
  }

  /** A signed 64-bit number. */
  function Long(b: seq<byte>, at: nat, little: bool): int
    requires at + 8 <= |b|
  {
    var n := if little then Word(b, at, true) + 0x1_0000_0000 * Word(b, at + 4, true)
             else Word(b, at + 4, false) + 0x1_0000_0000 * Word(b, at, false);
    if n >= 0x8000_0000_0000_0000 then n - 0x1_0000_0000_0000_0000 else n
  }

  function Padded(n: nat): nat {
    (n + 3) / 4 * 4
  }

  function Pow(base: nat, n: nat): (p: nat)
    ensures base > 0 ==> p > 0
  {
    if n == 0 then 1 else base * Pow(base, n - 1)
  }

  // ---- the reader ----

  datatype Interface = Interface(link: nat, resolution: nat, snaplen: nat, offset: int)

  datatype Precision = Micro | Nano | Resolution(r: nat) | Unavailable

  /** A record: its source names section, interface and link; its detail the length and precision. */
  datatype Captured = Captured(sequence: nat, stamp: nat, section: nat, interface: nat, link: nat, bytes: seq<byte>,
                               original: nat, precision: Precision)

  datatype Reader = Reader(pos: nat, little: bool, ng: bool, nano: bool, link: nat, interfaces: seq<Interface>,
                           sequence: nat, section: nat)

  datatype Error =
    | Truncated | TooLarge | Magic | Version | ByteOrder | SectionLength | SectionEnd | BlockLength | BlockEnd
    | InterfaceBlock | InterfaceOption | TooManyInterfaces | PacketBlock | NoInterface | PacketLength | Divisor
    | StampRange | SimpleBlock | SimpleLength | ObsoletePacket

  datatype Opened = Opened(reader: Reader) | NotOpened(error: Error)

  /** What one turn of the reading loop does. */
  datatype Turn = Done | Got(reader: Reader, record: Captured) | Again(next: Reader) | Failed(error: Error)

  /** Whether n more bytes can be taken at pos, and what is wrong if not. */
  function Lacks(input: seq<byte>, pos: nat, n: nat): Option<Error> {
    if n > EXACT_LIMIT then Some(TooLarge) else if pos + n > |input| then Some(Truncated) else None
  }

  function Numbered(r: Reader, pos: nat, bytes: seq<byte>, stamp: nat, interface: nat, link: nat, original: nat,
                    precision: Precision): Turn {
    var n := r.(pos := pos, sequence := r.sequence + 1);
    Got(n, Captured(n.sequence, stamp, r.section, interface, link, bytes, original, precision))
  }

  /** The rest of a section header; the length field at lengthAt has been taken. */
  function Section(r: Reader, input: seq<byte>, lengthAt: nat): Opened
    requires lengthAt + 4 <= |input|
  {
    var pos := lengthAt + 4;
    if pos + 4 > |input| then NotOpened(Truncated)
    else if input[pos..pos + 4] != LITTLE_MARK && input[pos..pos + 4] != BIG_MARK then NotOpened(ByteOrder)
    else
      var little := input[pos] == 0x4d;
      var len := Word(input, lengthAt, little);
      if len < 28 || len % 4 != 0 then NotOpened(SectionLength)
      else
        match Lacks(input, pos + 4, len - 12)
        case Some(e) => NotOpened(e)
        case None =>
          var end := pos + 4 + (len - 12);
          if Word(input, end - 4, little) != len || Short(input, pos + 4, little) != 1 then NotOpened(SectionEnd)
          else Opened(r.(pos := end, little := little, interfaces := [], section := r.section + 1))
  }

  function Open(input: seq<byte>): Opened {
    if |input| < 4 then NotOpened(Truncated)
    else
      var m := input[..4];
      var r := Reader(4, true, false, false, 1, [], 0, 0);
      if m == SECTION_MAGIC then
        if |input| < 8 then NotOpened(Truncated) else Section(r.(ng := true), input, 4)
      else if m == [0xd4, 0xc3, 0xb2, 0xa1] then Classic(r, input)
      else if m == [0xa1, 0xb2, 0xc3, 0xd4] then Classic(r.(little := false), input)
      else if m == [0x4d, 0x3c, 0xb2, 0xa1] then Classic(r.(nano := true), input)
      else if m == [0xa1, 0xb2, 0x3c, 0x4d] then Classic(r.(little := false, nano := true), input)
      else NotOpened(Magic)
  }

  function Classic(r: Reader, input: seq<byte>): Opened {
    if |input| < 24 then NotOpened(Truncated)
    else if Short(input, 4, r.little) != 2 || Short(input, 6, r.little) != 4 then NotOpened(Version)
    else Opened(r.(pos := 24, link := Word(input, 20, r.little) % 0x1_0000))
  }

  function ClassicStamp(seconds: nat, frac: nat, nano: bool): nat {
    seconds * 1_000_000 + if nano then frac / 1000 else frac
  }

  /** A record of a classic file; eight bytes of its header have been taken. */
  function ClassicRecord(r: Reader, input: seq<byte>): Turn
    requires r.pos + 8 <= |input|
  {
    if r.pos + 16 > |input| then Failed(Truncated)
    else
      var cap, original := Word(input, r.pos + 8, r.little), Word(input, r.pos + 12, r.little);
      if cap > original then Failed(PacketLength)
      else
        match Lacks(input, r.pos + 16, cap)
        case Some(e) => Failed(e)
        case None =>
          var frac := Word(input, r.pos + 4, r.little);
          var stamp := ClassicStamp(Word(input, r.pos, r.little), frac, r.nano);
          Numbered(r, r.pos + 16 + cap, input[r.pos + 16..r.pos + 16 + cap], stamp, 0, r.link, original,
                   if r.nano then Nano else Micro)
  }

  /** The options of an interface block from p on: 9 is the resolution, 14 the offset, 0 ends. */
  function Options(b: seq<byte>, p: nat, little: bool, i: Interface): Option<Interface>
    decreases |b| - p
  {
    if p + 4 > |b| || Short(b, p, little) == 0 then Some(i)
    else
      var code, size, q := Short(b, p, little), Short(b, p + 2, little), p + 4;
      if q + size > |b| then None
      else Options(b, q + Padded(size), little, WithOption(i, b, q, code, size, little))
  }

  function WithOption(i: Interface, b: seq<byte>, q: nat, code: nat, size: nat, little: bool): Interface
    requires q + size <= |b|
  {
    if code == 9 && size == 1 then i.(resolution := b[q])
    else if code == 14 && size == 8 then i.(offset := Long(b, q, little))
    else i
  }

  function InterfaceTurn(r: Reader, b: seq<byte>): Turn {
    if |b| < 8 then Failed(InterfaceBlock)
    else
      match Options(b, 8, r.little, Interface(Short(b, 0, r.little), 6, Word(b, 4, r.little), 0))
      case None => Failed(InterfaceOption)
      case Some(i) =>
        if |r.interfaces| >= INTERFACES_MAX then Failed(TooManyInterfaces)
        else Again(r.(interfaces := r.interfaces + [i]))
  }

  /** Ticks per second: a power of two or of ten, if it fits 128 bits. */
  function Ticks(resolution: nat): (ticks: Option<nat>)
    ensures ticks.Some? ==> ticks.value > 0
  {
    if resolution >= 0x80 then Some(Pow(2, (resolution - 0x80) % 0x80))
    else if resolution > 38 then None
    else Some(Pow(10, resolution))
  }

  function Micros(ticks: nat, divisor: nat, offset: int): int
    requires divisor > 0
  {
    ticks * 1_000_000 / divisor + offset * 1_000_000
  }

  function PacketTurn(r: Reader, b: seq<byte>): Turn {
    if |b| < 20 then Failed(PacketBlock)
    else if Word(b, 0, r.little) >= |r.interfaces| then Failed(NoInterface)
    else
      var id := Word(b, 0, r.little);
      var i := r.interfaces[id];
      var ticks := Word(b, 4, r.little) * 0x1_0000_0000 + Word(b, 8, r.little);
      var cap, original := Word(b, 12, r.little), Word(b, 16, r.little);
      if cap > original || cap > |b| - 20 then Failed(PacketLength)
      else
        match Ticks(i.resolution)
        case None => Failed(Divisor)
        case Some(divisor) =>
          var micros := Micros(ticks, divisor, i.offset);
          if micros < 0 || micros > 0xFFFF_FFFF_FFFF_FFFF then Failed(StampRange)
          else Numbered(r, r.pos, b[20..20 + cap], micros, id, i.link, original, Resolution(i.resolution))
  }

  function SimpleTurn(r: Reader, b: seq<byte>): Turn {
    if |b| < 4 then Failed(SimpleBlock)
    else if r.interfaces == [] then Failed(NoInterface)
    else
      var i, original := r.interfaces[0], Word(b, 0, r.little);
      var cap := if i.snaplen == 0 || original <= i.snaplen then original else i.snaplen;
      if Padded(cap) != |b| - 4 then Failed(SimpleLength)
      else Numbered(r, r.pos, b[4..4 + cap], 0, 0, i.link, original, Unavailable)
  }

  /** A block's body, by kind; the reader already stands behind the block. */
  function BlockTurn(r: Reader, kind: nat, b: seq<byte>): Turn {
    if kind == 1 then InterfaceTurn(r, b)
    else if kind == 6 then PacketTurn(r, b)
    else if kind == 3 then SimpleTurn(r, b)
    else if kind == 2 then Failed(ObsoletePacket)
    else Again(r)
  }

  function One(r: Reader, input: seq<byte>): Turn {
    var pos := r.pos;
    if pos >= |input| then Done
    else if pos + 8 > |input| then Failed(Truncated)
    else if !r.ng then ClassicRecord(r, input)
    else if input[pos..pos + 4] == SECTION_MAGIC then
      match Section(r, input, pos + 4)
      case Opened(n) => Again(n)
      case NotOpened(e) => Failed(e)
    else
      var kind, len := Word(input, pos, r.little), Word(input, pos + 4, r.little);
      if len < 12 || len % 4 != 0 then Failed(BlockLength)
      else
        match Lacks(input, pos + 8, len - 8)
        case Some(e) => Failed(e)
        case None =>
          if Word(input, pos + len - 4, r.little) != len then Failed(BlockEnd)
          else BlockTurn(r.(pos := pos + len), kind, input[pos + 8..pos + len - 4])
  }

  /** A turn that goes on has moved forward. */
  lemma OneAdvances(r: Reader, input: seq<byte>)
    ensures One(r, input).Again? ==> r.pos < One(r, input).next.pos <= |input|
  {}

  /** The next record: turns until one ends. */
  function Next(r: Reader, input: seq<byte>): (t: Turn)
    ensures !t.Again?
    decreases |input| - r.pos
  {
    OneAdvances(r, input);
    var t := One(r, input);
    if t.Again? then Next(t.next, input) else t
  }

  // ---- the writer ----

  /** A packet to write; source is the name's bytes. */
  datatype Packet = Packet(source: seq<byte>, data: seq<byte>, stamp: u64, original: u32)

  function Block(kind: nat, body: seq<byte>): seq<byte> {
    var len := (|body| + 12) % 0x1_0000_0000;
    Le32(kind) + Le32(len) + body + Le32(len)
  }

  function SectionBody(): seq<byte> {
    Le32(0x1a2b3c4d) + Le16(1) + Le16(0) + [0xff, 0xff, 0xff, 0xff, 0xff, 0xff, 0xff, 0xff]
  }

  function SectionBlock(): seq<byte> {
    Block(0x0a0d0d0a, SectionBody())
  }

  function Pad(b: seq<byte>): seq<byte> {
    b + Zeros(Padded(|b|) - |b|)
  }

  function Name(source: seq<byte>): seq<byte> {
    if |source| <= NAME_MAX then source else source[..NAME_MAX]
  }

  function InterfaceBody(source: seq<byte>): seq<byte> {
    var name := Name(source);
    Pad([1, 0, 0, 0] + Le32(65536) + Le16(2) + Le16(|name|) + name) + [0, 0, 0, 0]
  }

  function PacketBody(id: nat, p: Packet): seq<byte> {
    Pad(Le32(id) + Le32(p.stamp / 0x1_0000_0000) + Le32(p.stamp % 0x1_0000_0000)
        + Le32(|p.data|) + Le32(p.original) + p.data)
  }

  /** The sources of some packets, each once, in order of first appearance. */
  function Sources(packets: seq<Packet>): seq<seq<byte>> {
    if packets == [] then []
    else
      var before, s := Sources(packets[..|packets| - 1]), packets[|packets| - 1].source;
      if s in before then before else before + [s]
  }

  function IndexOf(s: seq<byte>, sources: seq<seq<byte>>): (i: nat)
    ensures i <= |sources| && (s in sources ==> i < |sources| && sources[i] == s)
    ensures i < |sources| ==> sources[i] == s
  {
    if sources == [] then 0
    else if sources[0] == s then 0
    else 1 + IndexOf(s, sources[1..])
  }

  /** What one more packet adds to the file. */
  function PacketBlocks(sources: seq<seq<byte>>, p: Packet): seq<byte> {
    (if p.source in sources then [] else Block(1, InterfaceBody(p.source)))
    + Block(6, PacketBody(IndexOf(p.source, sources), p))
  }

  /** The file for some packets. */
  function Encode(packets: seq<Packet>): seq<byte> {
    if packets == [] then SectionBlock()
    else
      var front := packets[..|packets| - 1];
      Encode(front) + PacketBlocks(Sources(front), packets[|packets| - 1])
  }
}
