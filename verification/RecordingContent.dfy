/** What a recording session is meant to keep, as a function of the records it accepted
    (src/recording.rs): the pre-trigger window, and the content of the volumes. */
module RecordingContent {
  import opened Bytes

  datatype Option<+T> = None | Some(value: T)

  datatype Record = Record(sequence: nat, stamp: nat, elapsed: nat, source: string, protocol: string,
                           direction: string, transaction: nat, bytes: seq<byte>, detail: string)

  datatype Trigger = Trigger(preSeconds: nat, postSeconds: nat, keyword: string)

  const RING_LIMIT: nat := 16 * 1024 * 1024

  predicate IsContext(r: Record) {
    r.protocol == "recording-context"
  }

  predicate Contains(s: string, part: string) {
    part <= s || (s != [] && Contains(s[1..], part))
  }

  function Lower(s: string): string {
    seq(|s|, i requires 0 <= i < |s| => if 'A' <= s[i] <= 'Z' then (s[i] as int + 32) as char else s[i])
  }

  predicate Fault(t: Trigger, r: Record) {
    if t.keyword == "" then
      r.direction == "event" && (Contains(r.detail, "result=Err(") || Contains(r.detail, "device-fault"))
    else
      Contains(Lower(r.detail), Lower(t.keyword))
  }

  /** The record that ends the wait for a trigger. */
  predicate Hit(t: Trigger, r: Record) {
    !IsContext(r) && Fault(t, r)
  }

  /** A text occurs somewhere in another. */
  ghost predicate Occurs(part: string, s: string) {
    exists i :: OccursAt(part, s, i)
  }

  predicate OccursAt(part: string, s: string, i: int) {
    0 <= i && i + |part| <= |s| && s[i..i + |part|] == part
  }

  lemma OccursStep(part: string, s: string, i: int)
    ensures OccursAt(part, s, i) <==> (i == 0 && part <= s) || (s != [] && i > 0 && OccursAt(part, s[1..], i - 1))
  {
    if 0 < i && i + |part| <= |s| {
      assert s[1..][i - 1..i - 1 + |part|] == s[i..i + |part|];
    }
  }

  lemma {:induction false} ContainsOccurs(s: string, part: string)
    ensures Contains(s, part) <==> Occurs(part, s)
    decreases |s|
  {
    hide OccursAt;
    forall i ensures OccursAt(part, s, i) <==>
                     (i == 0 && part <= s) || (s != [] && i > 0 && OccursAt(part, s[1..], i - 1))
    {
      OccursStep(part, s, i);
    }
    if part <= s {
      assert OccursAt(part, s, 0);
    } else if s != [] {
      ContainsOccurs(s[1..], part);
      OccursLater(part, s[1..]);
      forall i | i >= 0 && OccursAt(part, s[1..], i) ensures Occurs(part, s) {
        assert OccursAt(part, s, i + 1);
      }
    }
  }

  lemma OccursLater(part: string, s: string)
    ensures forall i :: OccursAt(part, s, i) ==> i >= 0
  {}

  /** The same letter, in either case of the ASCII alphabet. */
  predicate SameLetter(a: char, b: char) {
    || a == b
    || ('A' <= a <= 'Z' && b as int == a as int + 32)
    || ('A' <= b <= 'Z' && a as int == b as int + 32)
  }

  predicate SameLetters(a: string, b: string) {
    |a| == |b| && forall i :: 0 <= i < |a| ==> SameLetter(a[i], b[i])
  }

  predicate LettersAt(part: string, s: string, i: int) {
    0 <= i && i + |part| <= |s| && SameLetters(s[i..i + |part|], part)
  }

  lemma LowerSame(a: string, b: string)
    ensures Lower(a) == Lower(b) <==> SameLetters(a, b)
  {
    if Lower(a) == Lower(b) {
      assert |a| == |Lower(a)| == |b|;
      forall i | 0 <= i < |a| ensures SameLetter(a[i], b[i]) {
        assert Lower(a)[i] == Lower(b)[i];
      }
    }
  }

  /** What fires the trigger: without a keyword an event that tells of an error or a device fault, with one
      any record whose detail has the keyword in it, in any case. */
  lemma HitMeans(t: Trigger, r: Record)
    ensures Hit(t, r) <==>
            && r.protocol != "recording-context"
            && if t.keyword == "" then
                 r.direction == "event" && (Occurs("result=Err(", r.detail) || Occurs("device-fault", r.detail))
               else
                 exists i :: LettersAt(t.keyword, r.detail, i)
  {
    hide Contains, Occurs, Lower, LettersAt;
    ContainsOccurs(r.detail, "result=Err(");
    ContainsOccurs(r.detail, "device-fault");
    ContainsOccurs(Lower(r.detail), Lower(t.keyword));
    LowerOccurs(t.keyword, r.detail);
  }

  lemma LowerOccurs(k: string, s: string)
    ensures Occurs(Lower(k), Lower(s)) <==> exists i :: LettersAt(k, s, i)
  {
    forall i ensures OccursAt(Lower(k), Lower(s), i) <==> LettersAt(k, s, i) {
      if 0 <= i && i + |k| <= |s| {
        assert Lower(s)[i..i + |k|] == Lower(s[i..i + |k|]);
        LowerSame(s[i..i + |k|], k);
      }
    }
  }

  // ---- selections from a log ----

  datatype Kind = Contexts | Others | UpTo(end: nat)

  predicate Takes(kind: Kind, r: Record) {
    match kind
    case Contexts => IsContext(r)
    case Others => !IsContext(r)
    case UpTo(end) => r.elapsed <= end
  }

  function One(kind: Kind, r: Record): seq<Record> {
    if Takes(kind, r) then [r] else []
  }

  function Filter(kind: Kind, rs: seq<Record>): seq<Record> {
    if rs == [] then [] else Filter(kind, rs[..|rs| - 1]) + One(kind, rs[|rs| - 1])
  }

  lemma FilterSnoc(kind: Kind, rs: seq<Record>, r: Record)
    ensures Filter(kind, rs + [r]) == Filter(kind, rs) + One(kind, r)
  {
    assert (rs + [r])[..|rs|] == rs;
  }

  lemma FilterNone(kind: Kind, rs: seq<Record>)
    requires rs == []
    ensures Filter(kind, rs) == []
  {}

  lemma {:induction false} FilterConcat(kind: Kind, a: seq<Record>, b: seq<Record>)
    ensures Filter(kind, a + b) == Filter(kind, a) + Filter(kind, b)
  {
    hide Filter, One;
    if b == [] {
      FilterNone(kind, b);
      assert a + b == a && Filter(kind, a) + [] == Filter(kind, a);
    } else {
      var c, r := b[..|b| - 1], b[|b| - 1];
      assert b == c + [r] && a + b == a + c + [r];
      FilterConcat(kind, a, c);
      FilterSnoc(kind, a + c, r);
      FilterSnoc(kind, c, r);
      assert Filter(kind, a) + Filter(kind, c) + One(kind, r) == Filter(kind, a) + (Filter(kind, c) + One(kind, r));
    }
  }

  lemma {:induction false} FilterAll(kind: Kind, rs: seq<Record>)
    requires forall r :: r in rs ==> Takes(kind, r)
    ensures Filter(kind, rs) == rs
  {
    if rs != [] {
      var r := rs[|rs| - 1];
      assert r in rs && rs == rs[..|rs| - 1] + [r];
      FilterAll(kind, rs[..|rs| - 1]);
    }
  }

  /** A filter selects: everything it returns is taken and comes from the log, in order. */
  lemma {:induction false} FilterTakes(kind: Kind, rs: seq<Record>)
    ensures |Filter(kind, rs)| <= |rs|
    ensures forall r :: r in Filter(kind, rs) <==> r in rs && Takes(kind, r)
  {
    if rs != [] {
      FilterTakes(kind, rs[..|rs| - 1]);
      assert rs == rs[..|rs| - 1] + [rs[|rs| - 1]];
    }
  }

  // ---- the pre-trigger window ----

  /** What a record costs in the ring. */
  function Cost(r: Record): nat {
    |r.bytes| + |r.detail| + |r.source| + 256
  }

  function Weight(rs: seq<Record>, k: nat): nat
    requires k <= |rs|
    decreases |rs| - k
  {
    if k == |rs| then 0 else Cost(rs[k]) + Weight(rs, k + 1)
  }

  function Since(newest: Record, r: Record): nat {
    if r.elapsed <= newest.elapsed then newest.elapsed - r.elapsed else 0
  }

  /** The ring may start at record k: it is the newest, or recent enough with all after it fitting. */
  predicate Fits(pre: nat, rs: seq<Record>, k: nat)
    requires k < |rs|
  {
    || k == |rs| - 1
    || (Since(rs[|rs| - 1], rs[k]) <= pre * 1_000_000 && Weight(rs, k) <= RING_LIMIT)
  }

  function Start(pre: nat, rs: seq<Record>, k: nat): (start: nat)
    requires k < |rs|
    ensures k <= start < |rs| && Fits(pre, rs, start)
    ensures forall j :: k <= j < start ==> !Fits(pre, rs, j)
    decreases |rs| - k
  {
    if Fits(pre, rs, k) then k else Start(pre, rs, k + 1)
  }

  /** The records a ring holds after rs went through it. */
  function Window(pre: nat, rs: seq<Record>): seq<Record> {
    if rs == [] then [] else rs[Start(pre, rs, 0)..]
  }

  predicate Sorted(rs: seq<Record>) {
    forall i, j :: 0 <= i <= j < |rs| ==> rs[i].elapsed <= rs[j].elapsed
  }

  lemma WeightStep(rs: seq<Record>, k: nat)
    requires k < |rs|
    ensures Weight(rs, k) == Cost(rs[k]) + Weight(rs, k + 1)
  {}

  lemma {:induction false} WeightSnoc(rs: seq<Record>, r: Record, k: nat)
    requires k <= |rs|
    ensures Weight(rs + [r], k) == Weight(rs, k) + Cost(r)
    decreases |rs| - k
  {
    if k < |rs| {
      WeightSnoc(rs, r, k + 1);
    } else {
      assert Weight(rs + [r], |rs| + 1) == 0;
    }
  }

  lemma {:induction false} WeightSuffix(rs: seq<Record>, k: nat, i: nat)
    requires k + i <= |rs|
    ensures Weight(rs[k..], i) == Weight(rs, k + i)
    decreases |rs| - i
  {
    if k + i < |rs| {
      WeightSuffix(rs, k, i + 1);
    }
  }

  lemma {:induction false} WeightDrops(rs: seq<Record>, k: nat, j: nat)
    requires k <= j <= |rs|
    ensures Weight(rs, j) <= Weight(rs, k)
    decreases j - k
  {
    if k < j {
      WeightDrops(rs, k + 1, j);
    }
  }

  /** Start is the only index with its two properties. */
  lemma StartIs(pre: nat, rs: seq<Record>, k: nat)
    requires k < |rs| && Fits(pre, rs, k)
    requires forall j :: 0 <= j < k ==> !Fits(pre, rs, j)
    ensures Start(pre, rs, 0) == k && Window(pre, rs) == rs[k..]
  {}

  lemma LastOne(rs: seq<Record>, k: nat)
    requires k < |rs|
    ensures rs[k..|rs| - 1] + [rs[|rs| - 1]] == rs[k..]
  {}

  lemma FitsSuffix(pre: nat, rs: seq<Record>, k: nat, i: nat)
    requires k + i < |rs|
    ensures Fits(pre, rs[k..], i) == Fits(pre, rs, k + i)
  {
    WeightSuffix(rs, k, i);
  }

  /** A start that did not fit does not fit again when a newer record arrives. */
  lemma StaysOut(pre: nat, rs: seq<Record>, r: Record, j: nat)
    requires j < |rs| && Sorted(rs + [r]) && !Fits(pre, rs, j)
    ensures !Fits(pre, rs + [r], j)
  {
    WeightSnoc(rs, r, j);
    var all := rs + [r];
    assert all[j] == rs[j] && all[|rs| - 1] == rs[|rs| - 1] && all[|rs|] == r;
    assert rs[|rs| - 1].elapsed <= r.elapsed;
  }

  /** Evicting step by step keeps the window of everything received. */
  lemma WindowSnoc(pre: nat, rs: seq<Record>, r: Record)
    requires Sorted(rs + [r])
    ensures Window(pre, Window(pre, rs) + [r]) == Window(pre, rs + [r])
  {
    if rs == [] {
      assert Window(pre, rs) + [r] == rs + [r];
    } else {
      var all := rs + [r];
      var k := Start(pre, rs, 0);
      assert rs[k..] + [r] == all[k..];
      var i := Start(pre, all[k..], 0);
      FitsSuffix(pre, all, k, i);
      forall j | 0 <= j < k + i ensures !Fits(pre, all, j) {
        if j < k {
          StaysOut(pre, rs, r, j);
        } else {
          FitsSuffix(pre, all, k, j - k);
        }
      }
      StartIs(pre, all, k + i);
      assert all[k..][i..] == all[k + i..];
    }
  }

  /** The bytes some records take in the ring. */
  function Held(rs: seq<Record>): nat {
    if rs == [] then 0
    else
      var r := rs[|rs| - 1];
      Held(rs[..|rs| - 1]) + |r.bytes| + |r.detail| + |r.source| + 256
  }

  lemma {:induction false} WeightHeld(rs: seq<Record>)
    ensures Weight(rs, 0) == Held(rs)
  {
    if rs != [] {
      var front, r := rs[..|rs| - 1], rs[|rs| - 1];
      assert rs == front + [r];
      WeightSnoc(front, r, 0);
      WeightHeld(front);
    }
  }

  /** A suffix that may stay: all of it within the time before the newest record, and within 16 MiB. */
  predicate Recent(pre: nat, rs: seq<Record>, k: nat)
    requires k < |rs|
  {
    && Held(rs[k..]) <= 16_777_216
    && forall j :: k <= j < |rs| ==> rs[|rs| - 1].elapsed <= rs[j].elapsed + pre * 1_000_000
  }

  /** The window is the longest suffix of what was received whose records all lie within the
      pre-trigger time of the newest and fit the ring together; the newest is always kept. */
  lemma WindowIsLongest(pre: nat, rs: seq<Record>)
    requires Sorted(rs) && rs != []
    ensures var w := Window(pre, rs); var k := |rs| - |w|;
            && 0 <= k < |rs| && w == rs[k..]
            && (Recent(pre, rs, k) || k == |rs| - 1)
            && (forall j :: 0 <= j < k ==> !Recent(pre, rs, j))
  {
    var k := Start(pre, rs, 0);
    forall j | 0 <= j < |rs| ensures Fits(pre, rs, j) <==> Recent(pre, rs, j) || j == |rs| - 1 {
      WeightHeld(rs[j..]);
      WeightSuffix(rs, j, 0);
      assert rs[j].elapsed <= rs[|rs| - 1].elapsed;
      if Recent(pre, rs, j) {
        assert rs[|rs| - 1].elapsed <= rs[j].elapsed + pre * 1_000_000;
      }
    }
  }

  // ---- the content of the volumes ----

  /** The first record at or after k that fires the trigger, or the length. */
  function First(t: Trigger, log: seq<Record>, k: nat): (first: nat)
    requires k <= |log|
    ensures k <= first <= |log|
    ensures first < |log| ==> Hit(t, log[first])
    ensures forall j :: k <= j < first ==> !Hit(t, log[j])
    decreases |log| - k
  {
    if k == |log| || Hit(t, log[k]) then k else First(t, log, k + 1)
  }

  function Deadline(t: Trigger, r: Record): nat {
    r.elapsed + t.postSeconds * 1_000_000
  }

  /** What the volumes of a session hold in the end, as a function of the log it accepted: all of it
      without a trigger; only the context records when the trigger never fires; else the context
      records before the firing record, the window up to and including it, and what came after it
      until the deadline. */
  function Content(trigger: Option<Trigger>, log: seq<Record>): seq<Record> {
    match trigger
    case None => log
    case Some(t) =>
      var first := First(t, log, 0);
      if first == |log| then Filter(Contexts, log)
      else Filter(Contexts, log[..first])
           + Window(t.preSeconds, Filter(Others, log[..first + 1]))
           + Filter(UpTo(Deadline(t, log[first])), log[first + 1..])
  }

  lemma {:induction false} FirstSnoc(t: Trigger, log: seq<Record>, r: Record, k: nat)
    requires k <= |log|
    ensures First(t, log + [r], k) ==
            if First(t, log, k) < |log| || Hit(t, r) then First(t, log, k) else |log| + 1
    decreases |log| - k
  {
    var all := log + [r];
    if k < |log| {
      assert all[k] == log[k];
      FirstSnoc(t, log, r, k + 1);
    } else {
      assert all[k] == r;
    }
  }

  predicate Fired(t: Trigger, log: seq<Record>) {
    First(t, log, 0) < |log|
  }

  function End(t: Trigger, log: seq<Record>): nat
    requires Fired(t, log)
  {
    Deadline(t, log[First(t, log, 0)])
  }

  /** After the trigger, content grows by the records up to the deadline. */
  lemma {:induction false} ContentAfter(t: Trigger, log: seq<Record>, more: seq<Record>)
    requires Fired(t, log)
    ensures Fired(t, log + more) && End(t, log + more) == End(t, log)
    ensures Content(Some(t), log + more) == Content(Some(t), log) + Filter(UpTo(End(t, log)), more)
  {
    hide Filter, Window, Hit, First;
    FirstAfter(t, log, more, 0);
    var all, first, kind := log + more, First(t, log, 0), UpTo(End(t, log));
    assert all[..first] == log[..first] && all[..first + 1] == log[..first + 1];
    assert all[first + 1..] == log[first + 1..] + more;
    FilterConcat(kind, log[first + 1..], more);
  }

  lemma {:induction false} FirstAfter(t: Trigger, log: seq<Record>, more: seq<Record>, k: nat)
    requires k <= |log| && First(t, log, k) < |log|
    ensures First(t, log + more, k) == First(t, log, k)
    decreases |log| - k
  {
    assert (log + more)[k] == log[k];
    if !Hit(t, log[k]) {
      FirstAfter(t, log, more, k + 1);
    }
  }

  /** The record that fires closes the window. */
  lemma ContentFires(t: Trigger, log: seq<Record>, r: Record)
    requires !Fired(t, log) && Hit(t, r)
    ensures Fired(t, log + [r]) && End(t, log + [r]) == Deadline(t, r)
    ensures Content(Some(t), log + [r]) ==
            Filter(Contexts, log) + Window(t.preSeconds, Filter(Others, log + [r]))
  {
    hide Window, Hit, First;
    FirstSnoc(t, log, r, 0);
    var all := log + [r];
    assert all[..|log|] == log && all[..|log| + 1] == all && all[|log| + 1..] == [];
    FilterNone(UpTo(Deadline(t, r)), all[|log| + 1..]);
  }
}
