/** What the capture reader refuses: exactly when a file is opened, a block is taken and a packet is given. */
module PcapRefusals {
  import opened Bytes
  import opened Pcapng
  import opened PcapMeaning

  // ---- opening a file ----

  /** A section header at the start: a byte order mark, version 1, at least 28 bytes in whole words, all there and
      of at most 16 MiB, and the same length at both ends. */
  predicate SectionHeader(input: seq<byte>) {
    && |input| >= 28 && (input[8..12] == [0x4d, 0x3c, 0x2b, 0x1a] || input[8..12] == [0x1a, 0x2b, 0x3c, 0x4d])
    && var little := input[8..12] == [0x4d, 0x3c, 0x2b, 0x1a];
       var len := Word(input, 4, little);
       && 28 <= len <= |input| && len % 4 == 0 && len - 12 <= 16777216
       && Word(input, len - 4, little) == len && Short(input, 12, little) == 1
  }

  predicate ClassicMagicOf(m: seq<byte>) {
    m == [0xd4, 0xc3, 0xb2, 0xa1] || m == [0xa1, 0xb2, 0xc3, 0xd4] || m == [0x4d, 0x3c, 0xb2, 0xa1]
    || m == [0xa1, 0xb2, 0x3c, 0x4d]
  }

  /** A classic header: 24 bytes, version 2.4. */
  predicate ClassicStart24(input: seq<byte>) {
    && |input| >= 24
    && var little := input[0] == 0xd4 || input[0] == 0x4d;
       Short(input, 4, little) == 2 && Short(input, 6, little) == 4
  }

  /** A file is opened exactly if it starts with a section header or a classic header. */
  lemma OpensIff(input: seq<byte>)
    ensures Open(input).Opened? <==>
            && |input| >= 4
            && if input[..4] == [0x0a, 0x0d, 0x0d, 0x0a] then SectionHeader(input)
               else ClassicMagicOf(input[..4]) && ClassicStart24(input)
  {
    hide Word, Short;
    if |input| >= 4 {
      var m := input[..4];
      assert m[0] == input[0];
      if |input| >= 12 {
        assert input[8] == input[8..12][0];
      }
    }
  }

  // ---- packets and interfaces ----

  /** A packet block: an interface there is, no more data than the packet had or the block holds, a resolution up to
      10^-38 or a power of two, and a time of 64 bits. */
  predicate PacketGiven(r: Reader, b: seq<byte>) {
    && |b| >= 20 && Word(b, 0, r.little) < |r.interfaces|
    && Word(b, 12, r.little) <= Word(b, 16, r.little) && Word(b, 12, r.little) <= |b| - 20
    && var i := r.interfaces[Word(b, 0, r.little)];
       && (i.resolution <= 38 || 128 <= i.resolution)
       && var ticks := Word(b, 4, r.little) * 0x1_0000_0000 + Word(b, 8, r.little);
          i.resolution < 256 ==> 0 <= StampOf(ticks, i.resolution, i.offset) < 0x1_0000_0000_0000_0000
  }

  lemma PacketGivenIff(r: Reader, b: seq<byte>)
    requires forall k :: 0 <= k < |r.interfaces| ==> r.interfaces[k].resolution < 256
    ensures (BlockTurn(r, 6, b).Got? <==> PacketGiven(r, b)) && (BlockTurn(r, 6, b).Got? || BlockTurn(r, 6, b).Failed?)
  {
    hide Word, Ticks, PerSecond;
    if |b| >= 20 && Word(b, 0, r.little) < |r.interfaces| {
      var i := r.interfaces[Word(b, 0, r.little)];
      if i.resolution <= 38 || 128 <= i.resolution {
        TicksAre(i.resolution);
      } else {
        NoTicks(i.resolution);
      }
    }
  }

  lemma NoTicks(resolution: nat)
    requires 38 < resolution < 128
    ensures Ticks(resolution) == None
  {}

  /** A simple packet block belongs to the first interface, and holds what its snap length leaves, padded. */
  lemma SimpleGivenIff(r: Reader, b: seq<byte>)
    ensures BlockTurn(r, 3, b).Got? <==>
            && |b| >= 4 && r.interfaces != []
            && var size, snaplen := Word(b, 0, r.little), r.interfaces[0].snaplen;
               var n := if snaplen == 0 || size < snaplen then size else snaplen;
               |b| - 4 == n + (if n % 4 == 0 then 0 else 4 - n % 4)
    ensures BlockTurn(r, 3, b).Got? || BlockTurn(r, 3, b).Failed?
  {
    hide Word;
  }

  /** The packet block of old is refused, every unknown kind is skipped. */
  lemma OtherKinds(r: Reader, kind: nat, b: seq<byte>)
    requires kind != 1 && kind != 3 && kind != 6
    ensures BlockTurn(r, kind, b) == if kind == 2 then Failed(ObsoletePacket) else Again(r)
  {}

  /** An option that claims more than the block holds, behind any proper ones, and code 0 is no such option. */
  predicate Overlong(rest: seq<byte>, little: bool) {
    && |rest| >= 4 && rest[..2] != [0, 0]
    && (if little then rest[2] as int + 256 * rest[3] as int else rest[3] as int + 256 * rest[2] as int) > |rest| - 4
  }

  lemma OverlongFails(b: seq<byte>, p: nat, little: bool, rest: seq<byte>, i: Interface)
    requires p <= |b| && b[p..] == rest && Overlong(rest, little)
    ensures Options(b, p, little, i) == None
  {
    assert b[p] == rest[0] && b[p + 1] == rest[1] && b[p + 2] == rest[2] && b[p + 3] == rest[3];
    assert rest[..2] == [rest[0], rest[1]];
  }

  lemma {:induction false} OptionsBroken(b: seq<byte>, p: nat, little: bool, opts: seq<Opt>, rest: seq<byte>,
                                         i: Interface)
    requires AllProper(opts) && p <= |b| && b[p..] == OptBytes(opts, little) + rest && Overlong(rest, little)
    ensures Options(b, p, little, i) == None
    decreases |opts|
  {
    hide U16, Options, Filled, Overlong;
    if opts == [] {
      assert b[p..] == rest;
      OverlongFails(b, p, little, rest, i);
    } else {
      var o, tail := opts[0], OptBytes(opts[1..], little) + rest;
      assert o in opts;
      assert b[p..] == U16(o.code, little) + U16(|o.value|, little) + Filled(o.value) + tail;
      OneOption(b, p, little, o, tail, i);
      var next := if o.code == 9 && |o.value| == 1 then i.(resolution := o.value[0])
                  else if o.code == 14 && |o.value| == 8 then i.(offset := Signed(o.value, little))
                  else i;
      OptionsBroken(b, p + 4 + |Filled(o.value)|, little, opts[1..], rest, next);
    }
  }

  /** An interface block is refused without its eight bytes, with an overlong option, or as the 4097th. */
  lemma InterfaceRefused(r: Reader, b: seq<byte>, opts: seq<Opt>, rest: seq<byte>)
    requires AllProper(opts)
    requires |b| < 8 || |r.interfaces| >= 4096
             || (b[8..] == OptBytes(opts, r.little) + rest && Overlong(rest, r.little))
    ensures BlockTurn(r, 1, b).Failed?
  {
    hide OptBytes, Options, Overlong, Short, Word;
    if |b| >= 8 && |r.interfaces| < 4096 {
      OptionsBroken(b, 8, r.little, opts, rest, Interface(Short(b, 0, r.little), 6, Word(b, 4, r.little), 0));
    }
  }

  // ---- blocks ----

  /** A block that is no section header is taken exactly if it is framed, of at most 16 MiB, and its body is. */
  lemma BlockTakenIff(r: Reader, input: seq<byte>)
    requires r.ng && r.pos + 12 <= |input| && input[r.pos..r.pos + 4] != [0x0a, 0x0d, 0x0d, 0x0a]
    ensures var len := Word(input, r.pos + 4, r.little);
            if Framed(input, r.pos, len, r.little) && len - 8 <= 16777216 then
              One(r, input) == BlockTurn(r.(pos := r.pos + len), Word(input, r.pos, r.little),
                                         input[r.pos + 8..r.pos + len - 4])
            else One(r, input).Failed?
  {
    hide Word, BlockTurn, Section, ClassicRecord;
  }

  /** The end of a file, and one that breaks off. */
  lemma BreaksOff(r: Reader, input: seq<byte>)
    ensures One(r, input) == Done <==> r.pos >= |input|
    ensures |input| - 8 < r.pos < |input| ==> One(r, input) == Failed(Truncated)
  {
    hide Word, BlockTurn, Section, ClassicRecord;
    if r.pos + 8 <= |input| {
      NotDone(r, input);
    }
  }

  lemma NotDone(r: Reader, input: seq<byte>)
    requires r.pos + 8 <= |input|
    ensures One(r, input) != Done
  {
    hide Word, Options, Ticks, Lacks;
  }
}
