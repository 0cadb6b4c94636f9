/** The byte cache in front of the slave EEPROMs (ecx_siigetbyte in SOEM). */
module SiiCache {
  import opened Bytes

  const EC_MAXEEPBITMAP := 128
  const EC_MAXEEPBUF := 4096

  function Bit(b: nat): (m: bv32)
    requires b < 32
  {
    (1 as bv32) << b
  }

  predicate Marked(words: seq<bv32>, address: nat)
    requires |words| == EC_MAXEEPBITMAP && address < EC_MAXEEPBUF
  {
    words[address / 32] & Bit(address % 32) != 0
  }

  /** Setting one bit of a word changes the answer for that bit only. */
  lemma SetBit(m: bv32, b: nat, c: nat)
    requires b < 32 && c < 32
    ensures ((m | Bit(b)) & Bit(c) != 0) == (b == c || m & Bit(c) != 0)
  {
  }

  lemma NoBits(c: nat)
    requires c < 32
    ensures 0 & Bit(c) == 0
  {
  }

  lemma MarkOne(words: seq<bv32>, mapw: nat, mapb: nat, address: nat)
    requires |words| == EC_MAXEEPBITMAP && mapw < EC_MAXEEPBITMAP && mapb < 32 && address < EC_MAXEEPBUF
    ensures Marked(words[mapw := words[mapw] | Bit(mapb)], address)
            == (address == mapw * 32 + mapb || Marked(words, address))
  {
    SetBit(words[mapw], mapb, address % 32);
  }

  /** First byte of the word a read of `address` fetches. */
  function Base(address: nat): nat {
    address / 2 * 2
  }

  /** The slaves on the wire: how many bytes one EEPROM read returns, and constant contents. */
  datatype Wire = Wire(reads8: nat -> bool, eeprom: (nat, nat) -> byte) {
    function Width(slave: nat): nat {
      if reads8(slave) then 8 else 4
    }

    /** The byte a direct read gives, and the value for addresses beyond the buffer. */
    function Direct(slave: nat, address: nat): byte {
      if address < 4096 then eeprom(slave, address) else 0xff
    }

    /** The bytes a miss would fetch lie inside the buffer. */
    predicate InWindow(slave: nat, address: nat) {
      address < 4096 ==> Base(address) + Width(slave) <= 4096
    }
  }

  class Cache {
    const wire: Wire
    const esibuf: array<byte>
    const esimap: array<bv32>
    var esislave: nat
    var fetches: nat  // EEPROM reads made so far

    ghost predicate Cached(slave: nat, address: nat)
      reads this, esimap
      requires esimap.Length == EC_MAXEEPBITMAP
    {
      slave == esislave && address < 4096 && Marked(esimap[..], address)
    }

    /** A set bitmap bit always means that the buffer holds the current slave's byte. */
    ghost predicate Valid()
      reads this, esibuf, esimap
    {
      && esibuf.Length == EC_MAXEEPBUF && esimap.Length == EC_MAXEEPBITMAP
      && forall a: nat :: a < EC_MAXEEPBUF && Marked(esimap[..], a) ==> esibuf[a] == wire.eeprom(esislave, a)
    }

    constructor (wire: Wire)
      ensures Valid() && this.wire == wire && fresh(esibuf) && fresh(esimap) && fetches == 0
    {
      this.wire := wire;
      esibuf := new byte[EC_MAXEEPBUF](_ => 0);
      esimap := new bv32[EC_MAXEEPBITMAP](_ => 0);
      esislave := 0;
      fetches := 0;
      new;
      forall a: nat | a < EC_MAXEEPBUF ensures !Marked(esimap[..], a) {
        NoBits(a % 32);
      }
    }

    method ClearMap()
      requires esimap.Length == EC_MAXEEPBITMAP
      modifies esimap
      ensures forall a: nat :: a < EC_MAXEEPBUF ==> !Marked(esimap[..], a)
    {
      forall w | 0 <= w < esimap.Length {
        esimap[w] := 0;
      }
      forall a: nat | a < EC_MAXEEPBUF ensures !Marked(esimap[..], a) {
        NoBits(a % 32);
      }
    }

    method MarkByte(mapw: nat, mapb: nat)
      requires esimap.Length == EC_MAXEEPBITMAP && mapw < EC_MAXEEPBITMAP && mapb < 32
      modifies esimap
      ensures forall a: nat :: a < EC_MAXEEPBUF ==>
                Marked(esimap[..], a) == (a == mapw * 32 + mapb || old(Marked(esimap[..], a)))
    {
      ghost var before := esimap[..];
      var word := esimap[mapw] | Bit(mapb);
      forall a: nat | a < EC_MAXEEPBUF
        ensures Marked(before[mapw := word], a) == (a == mapw * 32 + mapb || Marked(before, a))
      {
        MarkOne(before, mapw, mapb, a);
      }
      esimap[mapw] := word;
      assert esimap[..] == before[mapw := word];
    }

    /** The bitmap loop: one bit a byte, carrying into the next word. */
    method MarkRange(eadr: nat, cnt: nat)
      requires esimap.Length == EC_MAXEEPBITMAP && 2 * eadr + cnt <= EC_MAXEEPBUF && cnt > 0
      modifies esimap
      ensures forall a: nat :: a < EC_MAXEEPBUF ==>
                Marked(esimap[..], a) == (2 * eadr <= a < 2 * eadr + cnt || old(Marked(esimap[..], a)))
    {
      var mapw := eadr / 16;
      var mapb: int := 2 * eadr - mapw * 32;
      for lp := 0 to cnt
        invariant 0 <= mapw && 0 <= mapb < 32 && mapw * 32 + mapb == 2 * eadr + lp
        invariant forall a: nat :: a < EC_MAXEEPBUF ==>
                    Marked(esimap[..], a) == (2 * eadr <= a < 2 * eadr + lp || old(Marked(esimap[..], a)))
      {
        MarkByte(mapw, mapb);
        mapb := mapb + 1;
        if mapb > 31 {
          mapb := 0;
          mapw := mapw + 1;
        }
      }
    }

    /** A miss: fetch the word and the bytes after it, and mark what was fetched. */
    method Fetch(slave: nat, address: nat)
      requires Valid() && slave == esislave && address < EC_MAXEEPBUF && wire.InWindow(slave, address)
      modifies this`fetches, esibuf, esimap
      ensures Valid() && fetches == old(fetches) + 1
      ensures forall a: nat :: a < EC_MAXEEPBUF ==>
                Cached(slave, a) == (Base(address) <= a < Base(address) + wire.Width(slave) || old(Cached(slave, a)))
    {
      var eadr := address / 2;
      var cnt := wire.Width(slave);
      fetches := fetches + 1;
      forall k | 0 <= k < cnt {
        esibuf[2 * eadr + k] := wire.eeprom(slave, 2 * eadr + k);
      }
      forall a: nat | a < EC_MAXEEPBUF && (2 * eadr <= a < 2 * eadr + cnt || old(Marked(esimap[..], a)))
        ensures esibuf[a] == wire.eeprom(slave, a)
      {
        if 2 * eadr <= a < 2 * eadr + cnt {
          assert esibuf[2 * eadr + (a - 2 * eadr)] == wire.eeprom(slave, a);
        }
      }
      MarkRange(eadr, cnt);
    }

    /** ecx_siigetbyte: whatever was queried before, the answer is the byte a direct read gives,
        and the EEPROM is only read when the byte is not held for this slave. */
    method GetByte(slave: nat, address: nat) returns (retval: byte)
      requires Valid() && wire.InWindow(slave, address)
      modifies this, esibuf, esimap
      ensures Valid() && esislave == slave
      ensures retval == wire.Direct(slave, address)
      ensures fetches == old(fetches) + (if address >= 4096 || old(Cached(slave, address)) then 0 else 1)
      ensures address < 4096 ==> Cached(slave, address)
      ensures forall a :: old(Cached(slave, a)) ==> Cached(slave, a)
    {
      retval := 0xff;
      if slave != esislave {
        ClearMap();
        esislave := slave;
      }
      if address < EC_MAXEEPBUF {
        var mapw := address / 32;
        var mapb := address - mapw * 32;
        assert Marked(esimap[..], address) == (esimap[mapw] & Bit(mapb) != 0);
        if esimap[mapw] & Bit(mapb) != 0 {
          retval := esibuf[address];
        } else {
          Fetch(slave, address);
          assert Cached(slave, address);
          retval := esibuf[address];
        }
      }
    }

    /** Any sequence of queries over any mix of slaves and reader widths. */
    method GetBytes(queries: seq<(nat, nat)>) returns (answers: seq<byte>)
      requires Valid() && forall q :: q in queries ==> wire.InWindow(q.0, q.1)
      modifies this, esibuf, esimap
      ensures Valid() && |answers| == |queries|
      ensures forall i :: 0 <= i < |queries| ==> answers[i] == wire.Direct(queries[i].0, queries[i].1)
      ensures fetches <= old(fetches) + |queries|
    {
      answers := [];
      for i := 0 to |queries|
        invariant Valid() && |answers| == i && fetches <= old(fetches) + i
        invariant forall j :: 0 <= j < i ==> answers[j] == wire.Direct(queries[j].0, queries[j].1)
      {
        var b := GetByte(queries[i].0, queries[i].1);
        answers := answers + [b];
      }
    }
  }
}
