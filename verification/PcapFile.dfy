/** The PCAPNG writer and the streaming capture reader, with the fields they update (src/pcap_file.rs). */
module PcapFile {
  import opened Bytes
  import opened Pcapng
  import opened PcapngRoundTrip
  import PcapMeaning

  class PcapWriter {
    var out: seq<byte>
    var interfaces: map<seq<byte>, nat>
    ghost var packets: seq<Packet>

    /** The file is the encoding of the packets so far, and every source has its number. */
    ghost predicate Valid()
      reads this
    {
      && out == Encode(packets)
      && Numbers(interfaces, Sources(packets))
    }

    constructor ()
      ensures Valid() && packets == [] && interfaces == map[]
      ensures out == [0x0a, 0x0d, 0x0d, 0x0a, 28, 0, 0, 0, 0x4d, 0x3c, 0x2b, 0x1a, 1, 0, 0, 0,
                      0xff, 0xff, 0xff, 0xff, 0xff, 0xff, 0xff, 0xff, 28, 0, 0, 0]
    {
      hide SectionBlock;
      out, interfaces, packets := SectionBlock(), map[], [];
      new;
      PcapMeaning.SectionWritten();
    }

    method WriteBlock(kind: nat, body: seq<byte>)
      modifies `out
      ensures out == old(out) + Block(kind, body)
    {
      var len := (|body| + 12) % 0x1_0000_0000;
      out := out + Le32(kind);
      out := out + Le32(len);
      out := out + body;
      out := out + Le32(len);
    }

    /** A new source is numbered and gets its interface block. */
    method AddSource(source: seq<byte>) returns (id: nat)
      requires source !in interfaces
      modifies `out, `interfaces
      ensures id == |old(interfaces)| && interfaces == old(interfaces)[source := id]
      ensures out == old(out) + Block(1, InterfaceBody(source))
    {
      hide Block;
      id := |interfaces|;
      var b: seq<byte> := [1, 0, 0, 0];
      b := b + Le32(65536);
      var name := source[..if |source| <= NAME_MAX then |source| else NAME_MAX];
      assert name == Name(source);
      b := b + Le16(2);
      b := b + Le16(|name|);
      b := b + name;
      b := PadToFour(b);
      b := b + [0, 0, 0, 0];
      WriteBlock(1, b);
      interfaces := interfaces[source := id];
    }

    /** packet: the file grows by what encodes this packet. */
    method WritePacket(p: Packet)
      requires Valid()
      modifies this
      ensures Valid() && packets == old(packets) + [p]
      ensures out == old(out) + PacketBlocks(Sources(old(packets)), p)
      ensures interfaces == if p.source in old(interfaces) then old(interfaces)
                            else old(interfaces)[p.source := |old(interfaces)|]
      ensures PcapMeaning.Appends(old(out), out, p.source !in old(interfaces), interfaces[p.source], p)
    {
      hide Block, InterfaceBody, PacketBody, Encode, Sources, IndexOf, Numbers, PcapMeaning.Appends;
      ghost var sources := Sources(packets);
      NumberOf(interfaces, sources, p.source);
      KeepsNumbers(interfaces, packets, p);
      var id;
      if p.source in interfaces {
        id := interfaces[p.source];
      } else {
        id := AddSource(p.source);
      }
      var b := BuildBody(id, p);
      WriteBlock(6, b);
      SnocFacts(packets, p);
      packets := packets + [p];
      PcapMeaning.BlocksAppend(old(out), sources, p);
    }
  }

  /** Every source has the number of its first appearance, and nothing else has one. */
  ghost predicate Numbers(interfaces: map<seq<byte>, nat>, sources: seq<seq<byte>>) {
    && |interfaces| == |sources|
    && forall s :: if s in sources then s in interfaces && interfaces[s] == IndexOf(s, sources) else s !in interfaces
  }

  lemma NumberOf(interfaces: map<seq<byte>, nat>, sources: seq<seq<byte>>, source: seq<byte>)
    requires Numbers(interfaces, sources)
    ensures source in interfaces <==> source in sources
    ensures IndexOf(source, sources) == if source in interfaces then interfaces[source] else |interfaces|
  {
    IndexIn(source, sources);
  }

  lemma KeepsNumbers(interfaces: map<seq<byte>, nat>, packets: seq<Packet>, p: Packet)
    requires Numbers(interfaces, Sources(packets))
    ensures Numbers(if p.source in interfaces then interfaces else interfaces[p.source := |interfaces|],
                    Sources(packets + [p]))
  {
    hide Sources, IndexOf, Encode, PacketBlocks;
    SnocFacts(packets, p);
    IndexIn(p.source, Sources(packets));
  }

  method BuildBody(id: nat, p: Packet) returns (b: seq<byte>)
    ensures b == PacketBody(id, p)
  {
    b := Le32(id);
    b := b + Le32(p.stamp / 0x1_0000_0000);
    b := b + Le32(p.stamp % 0x1_0000_0000);
    b := b + Le32(|p.data|);
    b := b + Le32(p.original);
    b := b + p.data;
    b := PadToFour(b);
  }

  lemma SnocFacts(packets: seq<Packet>, p: Packet)
    ensures Encode(packets + [p]) == Encode(packets) + PacketBlocks(Sources(packets), p)
    ensures Sources(packets + [p]) ==
            if p.source in Sources(packets) then Sources(packets) else Sources(packets) + [p.source]
    ensures forall s :: s in Sources(packets) ==> IndexOf(s, Sources(packets + [p])) == IndexOf(s, Sources(packets))
    ensures IndexOf(p.source, Sources(packets + [p])) == IndexOf(p.source, Sources(packets))
  {
    hide PacketBlocks, IndexOf;
    var all := packets + [p];
    assert all[..|packets|] == packets;
    SourcesFacts(all);
    forall s | s in Sources(packets) || s == p.source ensures IndexOf(s, Sources(all)) == IndexOf(s, Sources(packets)) {
      IndexIn(s, Sources(packets));
      IndexUnique(s, Sources(all), IndexOf(s, Sources(packets)));
    }
  }

  method PadToFour(body: seq<byte>) returns (b: seq<byte>)
    ensures b == Pad(body)
  {
    b := body;
    while |b| % 4 != 0
      invariant |body| <= |b| <= Padded(|body|) && b == body + Zeros(|b| - |body|)
      decreases Padded(|body|) - |b|
    {
      b := b + [0];
    }
  }

  datatype Outcome = EndOfFile | Record(record: Captured) | Failure(error: Error)

  class CaptureReader {
    const input: seq<byte>
    var pos: nat
    var little: bool
    var ng: bool
    var nano: bool
    var link: nat
    var interfaces: seq<Interface>
    var sequence: nat
    var section: nat

    ghost function View(): Reader
      reads this
    {
      Reader(pos, little, ng, nano, link, interfaces, sequence, section)
    }

    constructor (bytes: seq<byte>)
      ensures input == bytes
    {
      input := bytes;
      pos, little, ng, nano, link, interfaces, sequence, section := 0, true, false, false, 1, [], 0, 0;
    }

    /** open: the magic number, then the first section header or the classic header. */
    method OpenFile() returns (error: Option<Error>)
      modifies this
      ensures match Pcapng.Open(input)
              case Opened(r) => error == None && View() == r
              case NotOpened(e) => error == Some(e)
    {
      hide Section, Classic;
      if |input| < 4 {
        return Some(Truncated);
      }
      var m := input[..4];
      pos, link, interfaces, sequence, section := 4, 1, [], 0, 0;
      ng := m == SECTION_MAGIC;
      little := ng || m == [0xd4, 0xc3, 0xb2, 0xa1] || m == [0x4d, 0x3c, 0xb2, 0xa1];
      nano := m == [0x4d, 0x3c, 0xb2, 0xa1] || m == [0xa1, 0xb2, 0x3c, 0x4d];
      if !ng && !little && !nano && m != [0xa1, 0xb2, 0xc3, 0xd4] {
        return Some(Magic);
      }
      if ng {
        if |input| < 8 {
          return Some(Truncated);
        }
        error := ReadSection(4);
      } else {
        error := ReadClassic();
      }
    }

    method ReadClassic() returns (error: Option<Error>)
      modifies `pos, `link
      ensures match Classic(old(View()), input)
              case Opened(r) => error == None && View() == r
              case NotOpened(e) => error == Some(e)
    {
      if |input| < 24 {
        return Some(Truncated);
      }
      if Short(input, 4, little) != 2 || Short(input, 6, little) != 4 {
        return Some(Version);
      }
      link := Word(input, 20, little) % 0x1_0000;
      pos := 24;
      return None;
    }

    /** section: byte order, length and version; the interfaces start over. */
    method ReadSection(lengthAt: nat) returns (error: Option<Error>)
      requires lengthAt + 4 <= |input|
      modifies `pos, `little, `interfaces, `section
      ensures match Section(old(View()), input, lengthAt)
              case Opened(r) => error == None && View() == r
              case NotOpened(e) => error == Some(e)
    {
      var at := lengthAt + 4;
      if at + 4 > |input| {
        return Some(Truncated);
      }
      var mark := input[at..at + 4];
      if mark == LITTLE_MARK {
        little := true;
      } else if mark == BIG_MARK {
        little := false;
      } else {
        return Some(ByteOrder);
      }
      assert input[at] == mark[0];
      var len := Word(input, lengthAt, little);
      if len < 28 || len % 4 != 0 {
        return Some(SectionLength);
      }
      error := Lacks(input, at + 4, len - 12);
      if error != None {
        return;
      }
      var end := at + 4 + (len - 12);
      if Word(input, end - 4, little) != len || Short(input, at + 4, little) != 1 {
        return Some(SectionEnd);
      }
      pos, interfaces, section := end, [], section + 1;
    }

    /** The options loop of an interface block. */
    method ReadOptions(b: seq<byte>, first: Interface) returns (i: Option<Interface>)
      requires |b| >= 8
      ensures i == Options(b, 8, little, first)
    {
      var known, p := first, 8;
      while p + 4 <= |b|
        invariant Options(b, p, little, known) == Options(b, 8, little, first)
        decreases |b| - p
      {
        var code, size := Short(b, p, little), Short(b, p + 2, little);
        p := p + 4;
        if code == 0 {
          return Some(known);
        }
        if p + size > |b| {
          return None;
        }
        if code == 9 && size == 1 {
          known := known.(resolution := b[p]);
        }
        if code == 14 && size == 8 {
          known := known.(offset := Long(b, p, little));
        }
        p := p + Padded(size);
      }
      i := Some(known);
    }

    method ReadInterface(b: seq<byte>) returns (error: Option<Error>)
      modifies `interfaces
      ensures match InterfaceTurn(old(View()), b)
              case Again(r) => error == None && View() == r
              case Failed(e) => error == Some(e)
              case _ => false
    {
      hide Options;
      if |b| < 8 {
        return Some(InterfaceBlock);
      }
      var i := ReadOptions(b, Interface(Short(b, 0, little), 6, Word(b, 4, little), 0));
      if i == None {
        return Some(InterfaceOption);
      }
      if |interfaces| >= INTERFACES_MAX {
        return Some(TooManyInterfaces);
      }
      interfaces := interfaces + [i.value];
      return None;
    }

    /** record: numbered, and named by section, interface and link. */
    method Emit(bytes: seq<byte>, stamp: nat, interface: nat, ofLink: nat, original: nat, precision: Precision)
      returns (outcome: Outcome)
      modifies `sequence
      ensures Numbered(old(View()), pos, bytes, stamp, interface, ofLink, original, precision) ==
              if outcome.Record? then Got(View(), outcome.record) else Done
    {
      sequence := sequence + 1;
      outcome := Record(Captured(sequence, stamp, section, interface, ofLink, bytes, original, precision));
    }

    /** What a turn that ends the search amounts to. */
    ghost predicate Ends(t: Turn, outcome: Outcome)
      reads this
    {
      match t
      case Done => outcome == EndOfFile
      case Got(r, record) => outcome == Outcome.Record(record) && View() == r
      case Failed(e) => outcome == Failure(e)
      case Again(_) => false
    }

    method ReadClassicRecord() returns (outcome: Outcome)
      requires pos + 8 <= |input|
      modifies `pos, `sequence
      ensures Ends(ClassicRecord(old(View()), input), outcome)
    {
      hide Word, ClassicStamp;
      if pos + 16 > |input| {
        return Failure(Truncated);
      }
      var cap, original := Word(input, pos + 8, little), Word(input, pos + 12, little);
      if cap > original {
        return Failure(PacketLength);
      }
      var error := Lacks(input, pos + 16, cap);
      if error != None {
        return Failure(error.value);
      }
      var frac := Word(input, pos + 4, little);
      var stamp := ClassicStamp(Word(input, pos, little), frac, nano);
      var data := input[pos + 16..pos + 16 + cap];
      pos := pos + 16 + cap;
      outcome := Emit(data, stamp, 0, link, original, if nano then Nano else Micro);
    }

    method ReadPacket(b: seq<byte>) returns (outcome: Outcome)
      modifies `sequence
      ensures Ends(PacketTurn(old(View()), b), outcome)
    {
      hide Ticks, Micros, Word;
      if |b| < 20 {
        return Failure(PacketBlock);
      }
      var id := Word(b, 0, little);
      if id >= |interfaces| {
        return Failure(NoInterface);
      }
      var i := interfaces[id];
      var ticks := Word(b, 4, little) * 0x1_0000_0000 + Word(b, 8, little);
      var cap, original := Word(b, 12, little), Word(b, 16, little);
      if cap > original || cap > |b| - 20 {
        return Failure(PacketLength);
      }
      var divisor := Ticks(i.resolution);
      if divisor == None {
        return Failure(Divisor);
      }
      var micros := Micros(ticks, divisor.value, i.offset);
      if micros < 0 || micros > 0xFFFF_FFFF_FFFF_FFFF {
        return Failure(StampRange);
      }
      outcome := Emit(b[20..20 + cap], micros, id, i.link, original, Resolution(i.resolution));
    }

    method ReadSimple(b: seq<byte>) returns (outcome: Outcome)
      modifies `sequence
      ensures Ends(SimpleTurn(old(View()), b), outcome)
    {
      hide Word;
      if |b| < 4 {
        return Failure(SimpleBlock);
      }
      if interfaces == [] {
        return Failure(NoInterface);
      }
      var i, original := interfaces[0], Word(b, 0, little);
      var cap := if i.snaplen == 0 || original <= i.snaplen then original else i.snaplen;
      if Padded(cap) != |b| - 4 {
        return Failure(SimpleLength);
      }
      outcome := Emit(b[4..4 + cap], 0, 0, i.link, original, Unavailable);
    }

    /** One turn of the reading loop; without an outcome the loop goes on. */
    method ReadTurn() returns (outcome: Option<Outcome>)
      modifies `pos, `little, `interfaces, `section, `sequence
      ensures match One(old(View()), input)
              case Again(r) => outcome == None && View() == r
              case t => outcome.Some? && Ends(t, outcome.value)
    {
      hide Section, InterfaceTurn, PacketTurn, SimpleTurn, ClassicRecord, Word;
      if pos >= |input| {
        return Some(EndOfFile);
      }
      if pos + 8 > |input| {
        return Some(Failure(Truncated));
      }
      if !ng {
        var o := ReadClassicRecord();
        return Some(o);
      }
      if input[pos..pos + 4] == SECTION_MAGIC {
        var error := ReadSection(pos + 4);
        return if error == None then None else Some(Failure(error.value));
      }
      var kind, len := Word(input, pos, little), Word(input, pos + 4, little);
      if len < 12 || len % 4 != 0 {
        return Some(Failure(BlockLength));
      }
      var lacks := Lacks(input, pos + 8, len - 8);
      if lacks != None {
        return Some(Failure(lacks.value));
      }
      if Word(input, pos + len - 4, little) != len {
        return Some(Failure(BlockEnd));
      }
      var b := input[pos + 8..pos + len - 4];
      pos := pos + len;
      outcome := ReadBlock(kind, b);
    }

    method ReadBlock(kind: nat, b: seq<byte>) returns (outcome: Option<Outcome>)
      modifies `interfaces, `sequence
      ensures match BlockTurn(old(View()), kind, b)
              case Again(r) => outcome == None && View() == r
              case t => outcome.Some? && Ends(t, outcome.value)
    {
      hide InterfaceTurn, PacketTurn, SimpleTurn;
      match kind {
        case 1 =>
          var error := ReadInterface(b);
          outcome := if error == None then None else Some(Failure(error.value));
        case 6 =>
          var o := ReadPacket(b);
          PacketTurnEnds(old(View()), b);
          outcome := Some(o);
        case 3 =>
          var o := ReadSimple(b);
          PacketTurnEnds(old(View()), b);
          outcome := Some(o);
        case 2 => outcome := Some(Failure(ObsoletePacket));
        case _ => outcome := None;
      }
    }

    /** next_record. */
    method NextRecord() returns (outcome: Outcome)
      modifies `pos, `little, `interfaces, `section, `sequence
      ensures Ends(Next(old(View()), input), outcome)
    {
      hide One;
      while true
        invariant Next(View(), input) == Next(old(View()), input)
        decreases |input| - pos
      {
        OneAdvances(View(), input);
        var o := ReadTurn();
        if o.Some? {
          return o.value;
        }
      }
    }
  }

  lemma PacketTurnEnds(r: Reader, b: seq<byte>)
    ensures !PacketTurn(r, b).Again? && !SimpleTurn(r, b).Again?
  {}
}
