/** What the EoE receiver does with any fragments in any order, told by the fragments it has taken so far. */
module EoeMeaning {
  import opened Bytes
  import opened Eoe

  // ---- the fields of a fragment ----

  function Number(f: Fragment): nat {
    f.frameinfo2 % 64
  }

  /** Where its data belongs in the frame; for a first fragment, the room the frame needs. */
  function Place(f: Fragment): nat {
    f.frameinfo2 / 64 % 64 * 32
  }

  function FrameOf(f: Fragment): nat {
    f.frameinfo2 / 4096 % 16
  }

  predicate IsLast(f: Fragment) {
    f.frameinfo1 / 256 % 2 == 1
  }

  predicate Stamped(f: Fragment) {
    f.frameinfo1 / 512 % 2 == 1
  }

  predicate IsEoe(f: Fragment) {
    f.mbxtype % 16 == 2
  }

  function Size(f: Fragment): nat {
    (f.length - 4) % 65536
  }

  predicate Sized(f: Fragment) {
    Size(f) <= |f.data|
  }

  predicate AllSized(frags: seq<Fragment>) {
    forall i :: 0 <= i < |frags| ==> Sized(frags[i])
  }

  function Data(parts: seq<Fragment>): seq<byte>
    requires AllSized(parts)
  {
    if parts == [] then []
    else
      var last := parts[|parts| - 1];
      Data(parts[..|parts| - 1]) + last.data[..Size(last)]
  }

  // ---- what a receiver may put together ----

  /** The next fragment of the same frame, at the place the data so far reaches. */
  predicate Follows(parts: seq<Fragment>, f: Fragment)
    requires AllSized(parts)
  {
    parts != [] && Number(f) == |parts| && FrameOf(f) == FrameOf(parts[0]) && Place(f) == |Data(parts)|
  }

  /** Its data fits the frame and the caller's buffer. */
  predicate HasRoom(parts: seq<Fragment>, f: Fragment, room: int)
    requires AllSized(parts)
  {
    var end := |Data(parts)| + Size(f);
    end <= Place(if parts == [] then f else parts[0]) && end <= room
  }

  /** One frame, piece by piece: numbered from 0, of one frame number, each where the last one ended. */
  predicate InOrder(parts: seq<Fragment>)
    requires AllSized(parts)
  {
    forall i :: 0 <= i < |parts| ==> InPlace(parts, i)
  }

  predicate InPlace(parts: seq<Fragment>, i: nat)
    requires AllSized(parts) && i < |parts|
  {
    && IsEoe(parts[i]) && Number(parts[i]) == i && FrameOf(parts[i]) == FrameOf(parts[0])
    && (i > 0 ==> Place(parts[i]) == |Data(parts[..i])|)
    && |Data(parts[..i + 1])| <= Place(parts[0])
  }

  /** The receiver holds these fragments of the frame under way. */
  predicate Holds(rx: Rx, parts: seq<Fragment>)
    requires AllSized(parts)
  {
    && rx.fragmentno == |parts|
    && (parts != [] ==>
          && rx.frameno == FrameOf(parts[0]) && rx.framesize == Place(parts[0])
          && rx.frameoffset == |Data(parts)| <= |rx.buf| && rx.buf[..rx.frameoffset] == Data(parts))
  }

  /** The fragments taken, once f is dealt with: a number 0 always starts anew. */
  function Taken(parts: seq<Fragment>, f: Fragment, room: int): (next: seq<Fragment>)
    requires AllSized(parts) && Sized(f)
    ensures AllSized(next)
  {
    var base := if Number(f) == 0 then [] else parts;
    if HasRoom(base, f, room) then base + [f] else base
  }

  lemma DataSnoc(parts: seq<Fragment>, f: Fragment)
    requires AllSized(parts) && Sized(f)
    ensures Data(parts + [f]) == Data(parts) + f.data[..Size(f)]
  {
    assert (parts + [f])[..|parts|] == parts;
  }

  lemma StoreHolds(rx: Rx, parts: seq<Fragment>, f: Fragment)
    requires rx.psize <= |rx.buf| && AllSized(parts) && Sized(f) && |parts| < 64 && Number(f) == |parts|
    requires rx.fragmentno == |parts| && rx.frameoffset == |Data(parts)| <= |rx.buf|
    requires rx.buf[..rx.frameoffset] == Data(parts)
    requires var first := if parts == [] then f else parts[0];
             rx.frameno == FrameOf(first) && rx.framesize == Place(first)
    ensures var (rx1, wkc) := Store(rx, f); var next := if HasRoom(parts, f, rx.psize) then parts + [f] else parts;
            && AllSized(next) && |Data(next)| <= |rx.buf| && rx1.buf[..|Data(next)|] == Data(next)
            && if IsLast(f) then
                 && wkc == 1 && Holds(rx1, [])
                 && rx1.psize == if Stamped(f) then (|Data(next)| - 4) % 65536 else |Data(next)|
               else wkc == 0 && Holds(rx1, next) && rx1.psize == rx.psize
  {
    hide Data;
    DataSnoc(parts, f);
    if HasRoom(parts, f, rx.psize) {
      Copied(rx.buf, rx.frameoffset, f.data[..Size(f)]);
      assert (parts + [f])[0] == if parts == [] then f else parts[0];
    }
  }

  lemma Copied(buf: seq<byte>, off: nat, data: seq<byte>)
    requires off + |data| <= |buf|
    ensures (buf[..off] + data + buf[off + |data|..])[..off + |data|] == buf[..off] + data
  {}

  /** One fragment, in every state of the receiver. */
  lemma OneFragment(rx: Rx, parts: seq<Fragment>, f: Fragment)
    requires rx.psize <= |rx.buf| && AllSized(parts) && Sized(f) && |parts| <= 64 && Holds(rx, parts)
    ensures var (rx1, wkc) := Receive(rx, f); var next := Taken(parts, f, rx.psize);
            && (!IsEoe(f) ==> wkc == -3 && rx1 == rx)
            && (IsEoe(f) && Number(f) != 0 && !Follows(parts, f) ==> wkc == -11 && Holds(rx1, []))
            && (IsEoe(f) && (Number(f) == 0 || Follows(parts, f)) ==>
                  && |Data(next)| <= |rx.buf| && rx1.buf[..|Data(next)|] == Data(next)
                  && if IsLast(f) then
                       && wkc == 1 && Holds(rx1, [])
                       && rx1.psize == if Stamped(f) then (|Data(next)| - 4) % 65536 else |Data(next)|
                     else wkc == 0 && Holds(rx1, next))
  {
    hide Store, Receive, Data, HasRoom;
    if !IsEoe(f) || (Number(f) != 0 && !Follows(parts, f)) {
      Refused(rx, parts, f);
    } else if Number(f) == 0 {
      FirstReceived(rx, f);
    } else {
      NextReceived(rx, parts, f);
    }
  }

  lemma Refused(rx: Rx, parts: seq<Fragment>, f: Fragment)
    requires rx.psize <= |rx.buf| && AllSized(parts) && Sized(f) && Holds(rx, parts)
    requires !IsEoe(f) || (Number(f) != 0 && !Follows(parts, f))
    ensures var (rx1, wkc) := Receive(rx, f);
            if IsEoe(f) then wkc == -11 && Holds(rx1, []) else wkc == -3 && rx1 == rx
  {
    hide Store, Data;
  }

  lemma FirstReceived(rx: Rx, f: Fragment)
    requires rx.psize <= |rx.buf| && Sized(f) && IsEoe(f) && Number(f) == 0
    ensures var (rx1, wkc) := Receive(rx, f); var next := if HasRoom([], f, rx.psize) then [] + [f] else [];
            && AllSized(next) && |Data(next)| <= |rx.buf| && rx1.buf[..|Data(next)|] == Data(next)
            && if IsLast(f) then
                 && wkc == 1 && Holds(rx1, [])
                 && rx1.psize == if Stamped(f) then (|Data(next)| - 4) % 65536 else |Data(next)|
               else wkc == 0 && Holds(rx1, next) && rx1.psize == rx.psize
  {
    hide Store, HasRoom;
    assert rx.buf[..0] == Data([]);
    StoreHolds(rx.Begin(f), [], f);
  }

  lemma NextReceived(rx: Rx, parts: seq<Fragment>, f: Fragment)
    requires rx.psize <= |rx.buf| && AllSized(parts) && Sized(f) && |parts| <= 64 && Holds(rx, parts)
    requires IsEoe(f) && Number(f) != 0 && Follows(parts, f)
    ensures var (rx1, wkc) := Receive(rx, f); var next := if HasRoom(parts, f, rx.psize) then parts + [f] else parts;
            && AllSized(next) && |Data(next)| <= |rx.buf| && rx1.buf[..|Data(next)|] == Data(next)
            && if IsLast(f) then
                 && wkc == 1 && Holds(rx1, [])
                 && rx1.psize == if Stamped(f) then (|Data(next)| - 4) % 65536 else |Data(next)|
               else wkc == 0 && Holds(rx1, next) && rx1.psize == rx.psize
  {
    hide Store, HasRoom, Data;
    StoreHolds(rx, parts, f);
  }

  // ---- whole runs ----

  /** The receiver fed with any fragments; the caller offers the same room each time. */
  function Fed(rx: Rx, frags: seq<Fragment>, room: int): (r: Rx)
    requires AllSized(frags) && room <= |rx.buf|
    ensures |r.buf| == |rx.buf|
  {
    if frags == [] then rx
    else Receive(Fed(rx, frags[..|frags| - 1], room).(psize := room), frags[|frags| - 1]).0
  }

  /** Some of the fragments, in the order they came. */
  predicate Among(parts: seq<Fragment>, frags: seq<Fragment>, at: seq<nat>) {
    && |at| == |parts| && (forall i, j :: 0 <= i < j < |at| ==> at[i] < at[j])
    && forall i :: 0 <= i < |at| ==> at[i] < |frags| && frags[at[i]] == parts[i]
  }

  /** What the receiver may hold: one frame in order, from what came, and not yet its last piece. */
  predicate Partial(parts: seq<Fragment>, frags: seq<Fragment>, at: seq<nat>) {
    && AllSized(parts) && InOrder(parts) && |parts| <= 64 && Among(parts, frags, at)
    && forall i :: 0 <= i < |parts| ==> !IsLast(parts[i])
  }

  lemma OrderMore(parts: seq<Fragment>, f: Fragment, room: int)
    requires AllSized(parts) && Sized(f) && InOrder(parts) && IsEoe(f) && HasRoom(parts, f, room)
    requires (parts == [] && Number(f) == 0) || Follows(parts, f)
    ensures InOrder(parts + [f])
  {
    hide Data;
    var more := parts + [f];
    DataSnoc(parts, f);
    forall i | 0 <= i < |more| ensures InPlace(more, i) {
      if i < |parts| {
        assert InPlace(parts, i) && more[..i] == parts[..i] && more[..i + 1] == parts[..i + 1];
      } else {
        assert more[..i] == parts && more[..i + 1] == more;
      }
    }
  }

  /** What is taken of one more fragment is again one frame in order. */
  lemma TakenInOrder(parts: seq<Fragment>, frags: seq<Fragment>, at: seq<nat>, f: Fragment, room: int)
    returns (more: seq<nat>)
    requires Partial(parts, frags, at) && Sized(f) && IsEoe(f) && (Number(f) == 0 || Follows(parts, f))
    ensures var next := Taken(parts, f, room);
            && InOrder(next) && |next| <= 64 && Among(next, frags + [f], more)
            && (!IsLast(f) ==> Partial(next, frags + [f], more))
  {
    hide InOrder, Data;
    var base := if Number(f) == 0 then [] else parts;
    var from := if Number(f) == 0 then [] else at;
    assert InOrder([]) by { NothingInOrder(); }
    if HasRoom(base, f, room) {
      OrderMore(base, f, room);
      more := from + [|frags|];
    } else {
      more := from;
    }
  }

  lemma NothingInOrder()
    ensures InOrder([])
  {}

  lemma AmongMore(parts: seq<Fragment>, frags: seq<Fragment>, at: seq<nat>, f: Fragment)
    requires Partial(parts, frags, at)
    ensures Partial(parts, frags + [f], at)
  {
    hide InOrder;
  }

  /** In every run the receiver holds a part of one frame, made of fragments that came in this order. */
  lemma {:induction false} RunHolds(rx: Rx, frags: seq<Fragment>, room: int)
    returns (parts: seq<Fragment>, at: seq<nat>)
    requires AllSized(frags) && room <= |rx.buf| && rx.fragmentno == 0
    ensures Partial(parts, frags, at) && Holds(Fed(rx, frags, room), parts)
    decreases |frags|
  {
    hide Receive, InOrder, Data, HasRoom, Follows;
    if frags == [] {
      parts, at := [], [];
      NothingInOrder();
    } else {
      var before, f := frags[..|frags| - 1], frags[|frags| - 1];
      parts, at := RunHolds(rx, before, room);
      assert frags == before + [f];
      OneFragment(Fed(rx, before, room).(psize := room), parts, f);
      if !IsEoe(f) {
        AmongMore(parts, before, at, f);
      } else if IsLast(f) || (Number(f) != 0 && !Follows(parts, f)) {
        parts, at := [], [];
        NothingInOrder();
      } else {
        var next := TakenInOrder(parts, before, at, f, room);
        parts, at := Taken(parts, f, room), next;
      }
    }
  }

  /** Whenever a fragment completes a frame, in any run, what is delivered is the data of fragments that came in
      this order, numbered from 0 without a gap, all of one frame and each where the one before it ended. */
  lemma DeliveredSound(rx: Rx, frags: seq<Fragment>, f: Fragment, room: int)
    returns (parts: seq<Fragment>, at: seq<nat>)
    requires AllSized(frags) && Sized(f) && room <= |rx.buf| && rx.fragmentno == 0
    requires Receive(Fed(rx, frags, room).(psize := room), f).1 == 1
    ensures AllSized(parts) && InOrder(parts) && Among(parts, frags + [f], at) && IsLast(f)
    ensures var r := Receive(Fed(rx, frags, room).(psize := room), f).0;
            && |Data(parts)| <= |r.buf| && r.buf[..|Data(parts)|] == Data(parts)
            && r.psize == if Stamped(f) then (|Data(parts)| - 4) % 65536 else |Data(parts)|
  {
    hide Receive, InOrder, Data, HasRoom, Follows;
    var held, where := RunHolds(rx, frags, room);
    OneFragment(Fed(rx, frags, room).(psize := room), held, f);
    at := TakenInOrder(held, frags, where, f, room);
    parts := Taken(held, f, room);
  }
}
