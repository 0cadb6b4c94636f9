/** Reading what the writer wrote gives back every packet, and then the end of the file. */
module PcapngRoundTrip {
  import opened Bytes
  import opened Pcapng

  // ---- numbers ----

  lemma QuadLe(n: nat)
    requires n < 0x1_0000_0000
    ensures Quad(Le32(n)[0], Le32(n)[1], Le32(n)[2], Le32(n)[3]) == n
  {}

  lemma WordAt(b: seq<byte>, at: nat, n: nat)
    requires n < 0x1_0000_0000 && at + 4 <= |b| && b[at..at + 4] == Le32(n)
    ensures Word(b, at, true) == n
  {
    hide Le32, Quad;
    QuadLe(n);
    var s := b[at..at + 4];
    assert b[at] == s[0] && b[at + 1] == s[1] && b[at + 2] == s[2] && b[at + 3] == s[3];
  }

  lemma ShortAt(b: seq<byte>, at: nat, n: nat)
    requires n < 0x1_0000 && at + 2 <= |b| && b[at..at + 2] == Le16(n)
    ensures Short(b, at, true) == n
  {
    assert b[at..at + 2][0] == b[at] && b[at..at + 2][1] == b[at + 1];
  }

  lemma PadShape(b: seq<byte>)
    ensures |Pad(b)| == Padded(|b|) && Pad(b)[..|b|] == b && |Pad(b)| % 4 == 0 && |b| <= |Pad(b)| < |b| + 4
    ensures |b| % 4 == 0 ==> Pad(b) == b
  {}

  // ---- one block ----

  predicate At(input: seq<byte>, pos: nat, part: seq<byte>) {
    pos + |part| <= |input| && input[pos..pos + |part|] == part
  }

  lemma AtPart(input: seq<byte>, pos: nat, a: seq<byte>, b: seq<byte>, c: seq<byte>)
    requires At(input, pos, a + b + c)
    ensures At(input, pos, a) && At(input, pos + |a|, b) && At(input, pos + |a| + |b|, c)
  {
    var whole := a + b + c;
    assert whole[..|a|] == a && whole[|a|..|a| + |b|] == b && whole[|a| + |b|..] == c;
    SliceSlice(input, pos, |whole|, 0, |a|);
    SliceSlice(input, pos, |whole|, |a|, |a| + |b|);
    SliceSlice(input, pos, |whole|, |a| + |b|, |whole|);
  }

  lemma SliceSlice(s: seq<byte>, pos: nat, n: nat, from: nat, to: nat)
    requires from <= to <= n && pos + n <= |s|
    ensures s[pos..pos + n][from..to] == s[pos + from..pos + to]
  {
    var a, b := s[pos..pos + n][from..to], s[pos + from..pos + to];
    forall k | 0 <= k < to - from ensures a[k] == b[k] {
      assert s[pos..pos + n][from + k] == s[pos + from + k];
    }
  }

  /** Where the parts of a block are. */
  lemma BlockParts(input: seq<byte>, pos: nat, kind: nat, body: seq<byte>)
    requires At(input, pos, Block(kind, body)) && |body| + 12 < 0x1_0000_0000 && kind < 0x1_0000_0000
    ensures pos + |body| + 12 <= |input|
    ensures input[pos..pos + 4] == Le32(kind) && Word(input, pos, true) == kind
    ensures Word(input, pos + 4, true) == |body| + 12 && Word(input, pos + |body| + 8, true) == |body| + 12
    ensures input[pos + 8..pos + 8 + |body|] == body
  {
    hide Word, Le32;
    var len := |body| + 12;
    assert Block(kind, body) == Le32(kind) + Le32(len) + (body + Le32(len));
    AtPart(input, pos, Le32(kind), Le32(len), body + Le32(len));
    assert body + Le32(len) == body + Le32(len) + [];
    AtPart(input, pos + 8, body, Le32(len), []);
    WordAt(input, pos, kind);
    WordAt(input, pos + 4, len);
    WordAt(input, pos + 8 + |body|, len);
  }

  /** A written block is read as its kind and body, unless it is too large. */
  lemma OneBlock(r: Reader, input: seq<byte>, kind: nat, body: seq<byte>)
    requires r.ng && r.little && (kind == 1 || kind == 6)
    requires At(input, r.pos, Block(kind, body)) && |body| % 4 == 0 && |body| + 12 < 0x1_0000_0000
    ensures One(r, input) == if |body| + 4 > EXACT_LIMIT then Failed(TooLarge)
                             else BlockTurn(r.(pos := r.pos + |body| + 12), kind, body)
  {
    hide Word, BlockTurn, Block, Section, ClassicRecord;
    BlockParts(input, r.pos, kind, body);
    assert Le32(kind)[0] == kind;
  }

  // ---- the two kinds of block ----

  const STANDARD := Interface(1, 6, 65536, 0)

  lemma PaddedBehind(n: nat)
    ensures Padded(12 + n) == 12 + Padded(n) && Padded(12 + n) % 4 == 0
  {}

  lemma InterfaceHead(b: seq<byte>, n: nat)
    requires |b| >= 12 && b[..12] == [1, 0, 0, 0] + Le32(65536) + Le16(2) + Le16(n) && n < 0x1_0000
    ensures Short(b, 0, true) == 1 && Word(b, 4, true) == 65536 && Short(b, 8, true) == 2 && Short(b, 10, true) == n
  {
    hide Le32, Le16, Short, Word;
    var head := [1, 0, 0, 0] + Le32(65536) + Le16(2) + Le16(n);
    ShortIs(1, 1, 0);
    assert b[0..2] == b[..12][0..2] == head[0..2] == Le16(1);
    assert b[4..8] == b[..12][4..8] == head[4..8] == Le32(65536);
    assert b[8..10] == b[..12][8..10] == head[8..10] == Le16(2);
    assert b[10..12] == b[..12][10..12] == head[10..12] == Le16(n);
    ShortAt(b, 0, 1);
    WordAt(b, 4, 65536);
    ShortAt(b, 8, 2);
    ShortAt(b, 10, n);
  }

  lemma InterfaceShape(source: seq<byte>)
    ensures var b := InterfaceBody(source); var n := |Name(source)|;
            && |b| == 12 + Padded(n) + 4 && n <= NAME_MAX && |b| % 4 == 0
            && Short(b, 0, true) == 1 && Word(b, 4, true) == 65536 && Short(b, 8, true) == 2 && Short(b, 10, true) == n
            && Short(b, 12 + Padded(n), true) == 0
  {
    hide Le32, Le16, Word, Pad, Padded;
    var name := Name(source);
    var b := InterfaceBody(source);
    var head := [1, 0, 0, 0] + Le32(65536) + Le16(2) + Le16(|name|);
    PadShape(head + name);
    PaddedBehind(|name|);
    assert b == Pad(head + name) + [0, 0, 0, 0];
    assert b[..12 + |name|] == head + name && |head| == 12;
    assert b[..12] == head;
    InterfaceHead(b, |name|);
  }

  /** The reader learns one more Ethernet interface with microsecond stamps. */
  lemma InterfaceRead(r: Reader, source: seq<byte>)
    requires r.little && |r.interfaces| < INTERFACES_MAX
    ensures BlockTurn(r, 1, InterfaceBody(source)) == Again(r.(interfaces := r.interfaces + [STANDARD]))
  {
    hide InterfaceBody, Short, Word;
    InterfaceShape(source);
    var b, n := InterfaceBody(source), |Name(source)|;
    var i := Interface(1, 6, 65536, 0);
    assert Options(b, 12 + Padded(n), true, i) == Some(i);
    assert Options(b, 8, true, i) == Options(b, 12 + Padded(n), true, i);
  }

  lemma PacketShape(id: nat, p: Packet)
    requires id < 0x1_0000_0000 && |p.data| + 48 < 0x1_0000_0000
    ensures var b := PacketBody(id, p);
            && |b| == Padded(20 + |p.data|) && |b| % 4 == 0 && 20 + |p.data| <= |b|
            && Word(b, 0, true) == id && Word(b, 4, true) == p.stamp / 0x1_0000_0000
            && Word(b, 8, true) == p.stamp % 0x1_0000_0000 && Word(b, 12, true) == |p.data|
            && Word(b, 16, true) == p.original && b[20..20 + |p.data|] == p.data
  {
    hide Word, Le32;
    var head := Le32(id) + Le32(p.stamp / 0x1_0000_0000) + Le32(p.stamp % 0x1_0000_0000)
                + Le32(|p.data|) + Le32(p.original);
    var b := PacketBody(id, p);
    PadShape(head + p.data);
    assert b[..20 + |p.data|] == head + p.data;
    assert b[..20] == head;
    assert b[0..4] == Le32(id) && b[4..8] == Le32(p.stamp / 0x1_0000_0000) && b[8..12] == Le32(p.stamp % 0x1_0000_0000);
    assert b[12..16] == Le32(|p.data|) && b[16..20] == Le32(p.original);
    WordAt(b, 0, id);
    WordAt(b, 4, p.stamp / 0x1_0000_0000);
    WordAt(b, 8, p.stamp % 0x1_0000_0000);
    WordAt(b, 12, |p.data|);
    WordAt(b, 16, p.original);
  }

  lemma Million()
    ensures Ticks(6) == Some(1_000_000)
  {
    assert Pow(10, 1) == 10;
    assert Pow(10, 2) == 100;
    assert Pow(10, 3) == 1000;
    assert Pow(10, 4) == 10_000;
    assert Pow(10, 5) == 100_000;
    assert Pow(10, 6) == 1_000_000;
  }

  lemma PacketRead(r: Reader, id: nat, p: Packet)
    requires r.little && id < |r.interfaces| <= INTERFACES_MAX && r.interfaces[id] == STANDARD
    requires |p.data| + 24 <= EXACT_LIMIT && |p.data| <= p.original
    ensures BlockTurn(r, 6, PacketBody(id, p)) == Numbered(r, r.pos, p.data, p.stamp, id, 1, p.original, Resolution(6))
  {
    hide PacketBody, Word, Ticks;
    PacketShape(id, p);
    Million();
    assert (p.stamp / 0x1_0000_0000) * 0x1_0000_0000 + p.stamp % 0x1_0000_0000 == p.stamp;
    assert p.stamp * 1_000_000 / 1_000_000 == p.stamp;
  }

  const BYTE_ORDER: seq<byte> := [0x4d, 0x3c, 0x2b, 0x1a]
  const VERSION: seq<byte> := [1, 0, 0, 0]
  const NO_LENGTH: seq<byte> := [0xff, 0xff, 0xff, 0xff, 0xff, 0xff, 0xff, 0xff]
  const BLOCK_LENGTH: seq<byte> := [28, 0, 0, 0]
  const SECTION_BYTES: seq<byte> := SECTION_MAGIC + BLOCK_LENGTH + (BYTE_ORDER + VERSION + NO_LENGTH) + BLOCK_LENGTH

  lemma LeIs(n: nat, b0: byte, b1: byte, b2: byte, b3: byte)
    requires n == Quad(b0, b1, b2, b3)
    ensures Le32(n) == [b0, b1, b2, b3]
  {
    var m := n / 0x100;
    assert m == b1 + 0x100 * b2 + 0x1_0000 * b3 && n % 0x100 == b0;
    assert m / 0x100 == b2 + 0x100 * b3 && m % 0x100 == b1;
  }

  lemma ShortIs(n: nat, b0: byte, b1: byte)
    requires n == b0 + 0x100 * b1
    ensures Le16(n) == [b0, b1]
  {}

  lemma SectionBodyBytes()
    ensures SectionBody() == BYTE_ORDER + VERSION + NO_LENGTH
  {
    hide Le32, Le16;
    LeIs(0x1a2b3c4d, 0x4d, 0x3c, 0x2b, 0x1a);
    ShortIs(1, 1, 0);
    ShortIs(0, 0, 0);
  }

  lemma BlockIs(kind: nat, body: seq<byte>, magic: seq<byte>, len: seq<byte>)
    requires |body| + 12 < 0x1_0000_0000 && Le32(kind) == magic && Le32(|body| + 12) == len
    ensures Block(kind, body) == magic + len + body + len
  {
    hide Le32;
  }

  lemma SectionBytes()
    ensures SectionBlock() == SECTION_BYTES && |SECTION_BYTES| == 28
  {
    hide Le32, SectionBody, Block;
    SectionBodyBytes();
    LeIs(0x0a0d0d0a, 0x0a, 0x0d, 0x0d, 0x0a);
    LeIs(28, 28, 0, 0, 0);
    BlockIs(0x0a0d0d0a, SectionBody(), SECTION_MAGIC, BLOCK_LENGTH);
  }

  predicate SectionAt(input: seq<byte>) {
    && |input| >= 28 && input[..4] == SECTION_MAGIC && input[8..12] == BYTE_ORDER
    && Word(input, 4, true) == 28 && Word(input, 24, true) == 28 && Short(input, 12, true) == 1
  }

  lemma SectionParts()
    ensures |SECTION_BYTES| == 28
    ensures SECTION_BYTES[0..4] == SECTION_MAGIC && SECTION_BYTES[8..12] == BYTE_ORDER
    ensures SECTION_BYTES[4..8] == SECTION_BYTES[24..28] == BLOCK_LENGTH && SECTION_BYTES[12..14] == [1, 0]
  {}

  lemma SectionIsAt(input: seq<byte>)
    requires At(input, 0, SECTION_BYTES)
    ensures SectionAt(input)
  {
    hide Word, Short, Le32, Le16;
    LeIs(28, 28, 0, 0, 0);
    ShortIs(1, 1, 0);
    SectionParts();
    var s := SECTION_BYTES;
    assert input[0..0 + 28] == s && input[..4] == input[0..4];
    SliceSlice(input, 0, 28, 0, 4);
    SliceSlice(input, 0, 28, 4, 8);
    SliceSlice(input, 0, 28, 8, 12);
    SliceSlice(input, 0, 28, 12, 14);
    SliceSlice(input, 0, 28, 24, 28);
    WordAt(input, 4, 28);
    WordAt(input, 24, 28);
    ShortAt(input, 12, 1);
  }

  lemma OpenWritten(input: seq<byte>)
    requires At(input, 0, SECTION_BYTES)
    ensures Open(input) == Opened(Reader(28, true, true, false, 1, [], 0, 1))
  {
    hide Word, Short, At, Classic;
    SectionIsAt(input);
    assert input[8] == input[8..12][0];
  }

  // ---- sources and interfaces ----

  predicate NoRepeats(sources: seq<seq<byte>>) {
    forall i, j :: 0 <= i < j < |sources| ==> sources[i] != sources[j]
  }

  lemma {:induction false} SourcesFacts(packets: seq<Packet>)
    ensures NoRepeats(Sources(packets))
    ensures forall k :: 0 <= k < |packets| ==> packets[k].source in Sources(packets)
  {
    if packets != [] {
      SourcesFacts(packets[..|packets| - 1]);
      var before := Sources(packets[..|packets| - 1]);
      forall k | 0 <= k < |packets| ensures packets[k].source in Sources(packets) {
        if k < |packets| - 1 {
          assert packets[k] == packets[..|packets| - 1][k];
          assert packets[k].source in before;
        }
      }
    }
  }

  lemma {:induction false} SourcesPrefix(packets: seq<Packet>, k: nat)
    requires k <= |packets|
    ensures Sources(packets[..k]) <= Sources(packets)
    decreases |packets|
  {
    if k == |packets| {
      assert packets[..k] == packets;
    } else {
      assert packets[..|packets| - 1][..k] == packets[..k];
      SourcesPrefix(packets[..|packets| - 1], k);
    }
  }

  lemma {:induction false} IndexUnique(s: seq<byte>, sources: seq<seq<byte>>, i: nat)
    requires NoRepeats(sources) && i < |sources| && sources[i] == s
    ensures IndexOf(s, sources) == i
  {
    if i > 0 {
      IndexUnique(s, sources[1..], i - 1);
    }
  }

  // ---- the whole file ----

  /** What the writer promises its caller. */
  predicate Writable(packets: seq<Packet>) {
    && |Sources(packets)| <= INTERFACES_MAX
    && forall k :: 0 <= k < |packets| ==>
      |packets[k].data| <= packets[k].original && |packets[k].data| + 24 <= EXACT_LIMIT
  }

  lemma {:induction false} EncodePrefix(packets: seq<Packet>, k: nat)
    requires k <= |packets|
    ensures Encode(packets[..k]) <= Encode(packets)
    decreases |packets|
  {
    if k == |packets| {
      assert packets[..k] == packets;
    } else {
      assert packets[..|packets| - 1][..k] == packets[..k];
      EncodePrefix(packets[..|packets| - 1], k);
    }
  }

  function Standards(n: nat): (s: seq<Interface>)
    ensures |s| == n && forall i :: 0 <= i < n ==> s[i] == STANDARD
  {
    seq(n, _ => STANDARD)
  }

  lemma StandardsSnoc(n: nat)
    ensures Standards(n) + [STANDARD] == Standards(n + 1)
  {}

  /** The reader after the first k packets. */
  function ReaderAt(packets: seq<Packet>, k: nat): Reader
    requires k <= |packets|
  {
    Reader(|Encode(packets[..k])|, true, true, false, 1, Standards(|Sources(packets[..k])|), k, 1)
  }

  function Expected(packets: seq<Packet>, k: nat): Captured
    requires k < |packets|
  {
    var p := packets[k];
    Captured(k + 1, p.stamp, 1, IndexOf(p.source, Sources(packets)), 1, p.data, p.original, Resolution(6))
  }

  /** Where the blocks of packet k stand in the file. */
  lemma BlocksAt(packets: seq<Packet>, k: nat)
    requires k < |packets|
    ensures At(Encode(packets), |Encode(packets[..k])|, PacketBlocks(Sources(packets[..k]), packets[k]))
    ensures |Encode(packets[..k + 1])| == |Encode(packets[..k])| + |PacketBlocks(Sources(packets[..k]), packets[k])|
  {
    hide PacketBlocks, Sources;
    var some := packets[..k + 1];
    assert some[..k] == packets[..k] && some[k] == packets[k];
    EncodePrefix(packets, k + 1);
    var front, blocks := Encode(packets[..k]), PacketBlocks(Sources(packets[..k]), packets[k]);
    assert Encode(some) == front + blocks;
    assert Encode(packets)[..|Encode(some)|] == front + blocks;
    SliceSlice(Encode(packets), 0, |Encode(some)|, |front|, |front| + |blocks|);
    assert Encode(packets)[0..|Encode(some)|][|front|..|front| + |blocks|] == (front + blocks)[|front|..];
  }

  lemma PacketSize(id: nat, p: Packet)
    requires id < 0x1_0000_0000 && |p.data| + 48 < 0x1_0000_0000
    ensures |PacketBody(id, p)| % 4 == 0 && |PacketBody(id, p)| + 12 < 0x1_0000_0000
    ensures |PacketBody(id, p)| + 4 <= EXACT_LIMIT <==> |p.data| + 24 <= EXACT_LIMIT
  {
    hide PacketBody, Word, Le32;
    PacketShape(id, p);
  }

  lemma InterfaceSize(source: seq<byte>)
    ensures |InterfaceBody(source)| % 4 == 0 && |InterfaceBody(source)| + 4 <= EXACT_LIMIT
  {
    hide InterfaceBody, Word, Short;
    InterfaceShape(source);
  }

  lemma BlockSize(kind: nat, body: seq<byte>)
    ensures |Block(kind, body)| == |body| + 12
  {}

  /** A packet block, wherever it is, read by a reader that knows its interface. */
  lemma PacketTurnAt(r: Reader, input: seq<byte>, id: nat, p: Packet)
    requires r.ng && r.little && id < |r.interfaces| <= INTERFACES_MAX && r.interfaces[id] == STANDARD
    requires |p.data| + 24 <= EXACT_LIMIT && |p.data| <= p.original
    requires At(input, r.pos, Block(6, PacketBody(id, p)))
    ensures Next(r, input) == Numbered(r, r.pos + |Block(6, PacketBody(id, p))|, p.data, p.stamp, id, 1, p.original,
                                       Resolution(6))
  {
    hide PacketBody, BlockTurn, Block, At, One, Padded;
    var body := PacketBody(id, p);
    PacketSize(id, p);
    OneBlock(r, input, 6, body);
    BlockSize(6, body);
    PacketRead(r.(pos := r.pos + |body| + 12), id, p);
  }

  /** A packet from a new source: the interface block is learnt on the way. */
  lemma NewSourceAt(r: Reader, input: seq<byte>, p: Packet)
    requires r.ng && r.little && |r.interfaces| < INTERFACES_MAX
    requires |p.data| + 24 <= EXACT_LIMIT && |p.data| <= p.original
    requires At(input, r.pos, Block(1, InterfaceBody(p.source)) + Block(6, PacketBody(|r.interfaces|, p)))
    ensures var blocks := Block(1, InterfaceBody(p.source)) + Block(6, PacketBody(|r.interfaces|, p));
            Next(r, input) == Numbered(r.(interfaces := r.interfaces + [STANDARD]), r.pos + |blocks|, p.data, p.stamp,
                                       |r.interfaces|, 1, p.original, Resolution(6))
  {
    hide PacketBody, InterfaceBody, BlockTurn, Block, At, One, Padded;
    var body, id := InterfaceBody(p.source), |r.interfaces|;
    var a, b := Block(1, body), Block(6, PacketBody(id, p));
    assert a + b == a + b + [];
    AtPart(input, r.pos, a, b, []);
    InterfaceSize(p.source);
    OneBlock(r, input, 1, body);
    BlockSize(1, body);
    InterfaceRead(r.(pos := r.pos + |body| + 12), p.source);
    PacketTurnAt(r.(pos := r.pos + |a|, interfaces := r.interfaces + [STANDARD]), input, id, p);
  }

  lemma WritableAt(packets: seq<Packet>, k: nat)
    requires Writable(packets) && k < |packets|
    ensures |packets[k].data| <= packets[k].original && |packets[k].data| + 24 <= EXACT_LIMIT
    ensures |Sources(packets)| <= INTERFACES_MAX
  {}

  lemma BlocksKnown(sources: seq<seq<byte>>, p: Packet)
    requires p.source in sources
    ensures PacketBlocks(sources, p) == Block(6, PacketBody(IndexOf(p.source, sources), p))
  {}

  lemma BlocksNew(sources: seq<seq<byte>>, p: Packet)
    requires p.source !in sources
    ensures PacketBlocks(sources, p) == Block(1, InterfaceBody(p.source)) + Block(6, PacketBody(|sources|, p))
  {
    IndexIn(p.source, sources);
  }

  /** One record per packet, in order. */
  lemma ReadsNext(packets: seq<Packet>, k: nat)
    requires Writable(packets) && k < |packets|
    ensures Next(ReaderAt(packets, k), Encode(packets)) == Got(ReaderAt(packets, k + 1), Expected(packets, k))
  {
    hide Encode, PacketBody, InterfaceBody, Block, At, Next, Sources, IndexOf, PacketBlocks, Standards, Padded,
      Writable;
    var r, p, sources := ReaderAt(packets, k), packets[k], Sources(packets[..k]);
    WritableAt(packets, k);
    BlocksAt(packets, k);
    SourcesGrow(packets, k);
    IndexStays(packets, k);
    IndexIn(p.source, sources);
    if p.source in sources {
      BlocksKnown(sources, p);
      PacketTurnAt(r, Encode(packets), IndexOf(p.source, sources), p);
    } else {
      BlocksNew(sources, p);
      NewSourceAt(r, Encode(packets), p);
      StandardsSnoc(|sources|);
    }
  }

  lemma SourcesGrow(packets: seq<Packet>, k: nat)
    requires k < |packets|
    ensures var before, s := Sources(packets[..k]), packets[k].source;
            && Sources(packets[..k + 1]) == (if s in before then before else before + [s])
            && |Sources(packets[..k + 1])| <= |Sources(packets)|
  {
    assert packets[..k + 1][..k] == packets[..k];
    SourcesPrefix(packets, k + 1);
  }

  /** The index a source gets is its index for good. */
  lemma IndexStays(packets: seq<Packet>, k: nat)
    requires k < |packets|
    ensures var s := packets[k].source; IndexOf(s, Sources(packets[..k])) == IndexOf(s, Sources(packets))
  {
    hide IndexOf;
    var s, before := packets[k].source, Sources(packets[..k]);
    SourcesGrow(packets, k);
    SourcesPrefix(packets, k + 1);
    SourcesFacts(packets);
    SourcesFacts(packets[..k + 1]);
    IndexIn(s, before);
    IndexUnique(s, Sources(packets), IndexOf(s, before));
  }

  lemma IndexIn(s: seq<byte>, sources: seq<seq<byte>>)
    ensures s in sources ==> IndexOf(s, sources) < |sources| && sources[IndexOf(s, sources)] == s
    ensures s !in sources ==> IndexOf(s, sources) == |sources|
  {}

  /** Everything a reader gets out of a file, and how it ends. */
  datatype ReadAll = ReadAll(records: seq<Captured>, end: Turn)

  lemma {:induction false} NextAdvances(r: Reader, input: seq<byte>)
    ensures Next(r, input).Got? ==> r.pos < Next(r, input).reader.pos <= |input|
    decreases |input| - r.pos
  {
    OneAdvances(r, input);
    if One(r, input).Again? {
      NextAdvances(One(r, input).next, input);
    }
  }

  function Rest(r: Reader, input: seq<byte>): ReadAll
    decreases |input| - r.pos
  {
    NextAdvances(r, input);
    match Next(r, input)
    case Got(n, record) => var rest := Rest(n, input); ReadAll([record] + rest.records, rest.end)
    case t => ReadAll([], t)
  }

  lemma {:induction false} RestReads(packets: seq<Packet>, k: nat)
    requires Writable(packets) && k <= |packets|
    ensures var rest := Rest(ReaderAt(packets, k), Encode(packets));
            && rest.end == Done && |rest.records| == |packets| - k
            && forall j :: k <= j < |packets| ==> rest.records[j - k] == Expected(packets, j)
    decreases |packets| - k
  {
    hide Encode, Next, Sources, IndexOf, Writable, Expected;
    if k < |packets| {
      ReadsNext(packets, k);
      RestReads(packets, k + 1);
    } else {
      assert packets[..k] == packets;
      EndOfFile(ReaderAt(packets, k), Encode(packets));
    }
  }

  lemma EndOfFile(r: Reader, input: seq<byte>)
    requires r.pos == |input|
    ensures Next(r, input) == Done
  {}

  /** Reading what was written: the same bytes, stamps and lengths in order, the interface of each
      source numbered by its first appearance, then the end of the file. */
  lemma RoundTrip(packets: seq<Packet>)
    requires Writable(packets)
    ensures Open(Encode(packets)).Opened?
    ensures var all := Rest(Open(Encode(packets)).reader, Encode(packets));
            && all.end == Done && |all.records| == |packets|
            && (forall k :: 0 <= k < |packets| ==> all.records[k] == Expected(packets, k))
  {
    hide Sources, Rest, Open, Writable, Expected;
    HeadRead(packets);
    NoSources();
    assert ReaderAt(packets, 0) == Open(Encode(packets)).reader;
    RestReads(packets, 0);
  }

  lemma HeadRead(packets: seq<Packet>)
    ensures Open(Encode(packets)) == Opened(Reader(28, true, true, false, 1, [], 0, 1))
    ensures Encode([]) == SectionBlock() && |SectionBlock()| == 28
  {
    hide Open, SectionBlock;
    SectionBytes();
    EncodePrefix(packets, 0);
    assert packets[..0] == [];
    assert At(Encode(packets), 0, SectionBlock());
    OpenWritten(Encode(packets));
  }

  lemma NoSources()
    ensures Sources([]) == []
  {}

  /** Two records share an interface exactly when their packets share a source. */
  lemma InterfacesInjective(packets: seq<Packet>, j: nat, k: nat)
    requires j < |packets| && k < |packets|
    ensures Expected(packets, j).interface == Expected(packets, k).interface <==> packets[j].source == packets[k].source
    ensures Expected(packets, k).interface < |Sources(packets)|
  {
    SourcesFacts(packets);
    IndexIn(packets[j].source, Sources(packets));
    IndexIn(packets[k].source, Sources(packets));
  }

  // ---- exactly when ----

  lemma PacketRefused(r: Reader, input: seq<byte>, id: nat, p: Packet)
    requires r.ng && r.little && id < |r.interfaces| <= INTERFACES_MAX && |p.data| + 48 < 0x1_0000_0000
    requires |p.data| > p.original || |p.data| + 24 > EXACT_LIMIT
    requires At(input, r.pos, Block(6, PacketBody(id, p)))
    ensures Next(r, input).Failed?
  {
    hide PacketBody, Block, At, One, Padded, Ticks, Word;
    var body := PacketBody(id, p);
    PacketSize(id, p);
    PacketShape(id, p);
    OneBlock(r, input, 6, body);
  }

  lemma InterfaceRefused(r: Reader, input: seq<byte>, source: seq<byte>, rest: seq<byte>)
    requires r.ng && r.little && |r.interfaces| == INTERFACES_MAX
    requires At(input, r.pos, Block(1, InterfaceBody(source)) + rest)
    ensures Next(r, input).Failed?
  {
    hide InterfaceBody, Block, At, One, Padded, Word, Short, Options;
    var a := Block(1, InterfaceBody(source));
    assert a + rest == a + rest + [];
    AtPart(input, r.pos, a, rest, []);
    InterfaceSize(source);
    OneBlock(r, input, 1, InterfaceBody(source));
  }

  lemma NewRefused(r: Reader, input: seq<byte>, p: Packet)
    requires r.ng && r.little && |r.interfaces| < INTERFACES_MAX && |p.data| + 48 < 0x1_0000_0000
    requires |p.data| > p.original || |p.data| + 24 > EXACT_LIMIT
    requires At(input, r.pos, Block(1, InterfaceBody(p.source)) + Block(6, PacketBody(|r.interfaces|, p)))
    ensures Next(r, input).Failed?
  {
    hide PacketBody, InterfaceBody, BlockTurn, Block, At, One, Padded;
    var body, id := InterfaceBody(p.source), |r.interfaces|;
    var a, b := Block(1, body), Block(6, PacketBody(id, p));
    assert a + b == a + b + [];
    AtPart(input, r.pos, a, b, []);
    InterfaceSize(p.source);
    OneBlock(r, input, 1, body);
    BlockSize(1, body);
    InterfaceRead(r.(pos := r.pos + |body| + 12), p.source);
    PacketRefused(r.(pos := r.pos + |a|, interfaces := r.interfaces + [STANDARD]), input, id, p);
  }

  /** After packets that read back, one more reads back exactly when its original length is not less
      than its data, its block fits the reader, and it needs no interface beyond the limit. */
  lemma ReadBackIff(packets: seq<Packet>, p: Packet)
    requires Writable(packets) && |p.data| + 48 < 0x1_0000_0000
    ensures var all := packets + [p];
            Next(ReaderAt(all, |packets|), Encode(all)).Got? <==>
            |p.data| <= p.original && |p.data| + 24 <= EXACT_LIMIT && |Sources(all)| <= INTERFACES_MAX
  {
    hide Encode, PacketBody, InterfaceBody, Block, At, Next, Sources, IndexOf, PacketBlocks, Standards, Padded,
      Writable;
    var all, k := packets + [p], |packets|;
    var r, sources := ReaderAt(all, k), Sources(packets);
    assert all[..k] == packets && all[..k + 1] == all;
    WritableSnoc(packets, p);
    if Writable(all) {
      ReadsNext(all, k);
    } else {
      BlocksAt(all, k);
      SourcesGrow(all, k);
      IndexIn(p.source, sources);
      if p.source in sources {
        BlocksKnown(sources, p);
        PacketRefused(r, Encode(all), IndexOf(p.source, sources), p);
      } else {
        BlocksNew(sources, p);
        if |sources| == INTERFACES_MAX {
          InterfaceRefused(r, Encode(all), p.source, Block(6, PacketBody(|sources|, p)));
        } else {
          NewRefused(r, Encode(all), p);
        }
      }
    }
  }

  lemma WritableSnoc(packets: seq<Packet>, p: Packet)
    requires Writable(packets)
    ensures |Sources(packets)| <= INTERFACES_MAX
    ensures Writable(packets + [p]) <==>
            |p.data| <= p.original && |p.data| + 24 <= EXACT_LIMIT && |Sources(packets + [p])| <= INTERFACES_MAX
  {
    hide Sources;
    var all := packets + [p];
    assert all[|packets|] == p && forall k :: 0 <= k < |packets| ==> all[k] == packets[k];
  }
}
