/** The topology and parent search inside ecx_config_init (SOEM).
    Slaves are numbered from 1 in the order in which the frame passes them, which is the
    preorder of the tree of links. The master only learns how many links each slave has. */
module Topology {

  /** The wiring as it really is: a list of slaves in port order, each with the slaves that hang
      off its own ports. */
  datatype Slaves = None | Slave(children: Slaves, next: Slaves)

  ghost function Width(slaves: Slaves): nat {
    match slaves
    case None => 0
    case Slave(_, next) => 1 + Width(next)
  }

  /** Number of children of every slave, in frame order. */
  ghost function Counts(slaves: Slaves): seq<nat> {
    match slaves
    case None => []
    case Slave(children, next) => [Width(children)] + Counts(children) + Counts(next)
  }

  /** True tree parent of every slave, in frame order: the listed slaves hang off `parent`, and
      the first of them has number `first`. */
  ghost function Parents(slaves: Slaves, parent: nat, first: nat): (p: seq<nat>)
    ensures |p| == |Counts(slaves)|
  {
    match slaves
    case None => []
    case Slave(children, next) =>
      [parent] + Parents(children, first, first + 1) + Parents(next, parent, first + 1 + |Counts(children)|)
  }

  /** What the walk accumulates over a range: each slave contributes its children minus one. */
  ghost function Span(counts: seq<nat>, from: nat, to: nat): int
    requires from <= to <= |counts|
    decreases |counts| - from
  {
    if from == to then 0 else counts[from] - 1 + Span(counts, from + 1, to)
  }

  lemma {:induction false} SpanSplit(counts: seq<nat>, from: nat, mid: nat, to: nat)
    requires from <= mid <= to <= |counts|
    ensures Span(counts, from, to) == Span(counts, from, mid) + Span(counts, mid, to)
    decreases |counts| - from
  {
    if from < mid {
      SpanSplit(counts, from + 1, mid, to);
    }
  }

  /** A range inside the middle part of a concatenation weighs what it weighs in that part. */
  lemma {:induction false} SpanInside(left: seq<nat>, mid: seq<nat>, right: seq<nat>, from: nat, to: nat)
    requires from <= to <= |mid|
    ensures Span(left + mid + right, |left| + from, |left| + to) == Span(mid, from, to)
    decreases |mid| - from
  {
    if from < to {
      SpanInside(left, mid, right, from + 1, to);
    }
  }

  /** A complete tree weighs -1, so a list of slaves weighs minus its width, and every non-empty
      suffix of the frame order, which consists of complete trees, weighs less than 0. */
  lemma {:induction false} ForestWeight(slaves: Slaves)
    ensures Span(Counts(slaves), 0, |Counts(slaves)|) == -(Width(slaves) as int)
  {
    if slaves.Slave? {
      var c, sub, rest := Width(slaves.children), Counts(slaves.children), Counts(slaves.next);
      ForestWeight(slaves.children);
      ForestWeight(slaves.next);
      SpanParts(c, sub, rest, 1);
    }
  }

  lemma SpanParts(c: nat, sub: seq<nat>, rest: seq<nat>, j: nat)
    requires 1 <= j <= 1 + |sub|
    ensures var counts := [c] + sub + rest;
            && Span(counts, j, |counts|) == Span(sub, j - 1, |sub|) + Span(rest, 0, |rest|)
            && Span(counts, 0, |counts|) == c - 1 + Span(sub, 0, |sub|) + Span(rest, 0, |rest|)
  {
    var counts := [c] + sub + rest;
    SpanInside([c], sub, rest, j - 1, |sub|);
    SpanInside([c], sub, rest, 0, |sub|);
    SpanInside([c] + sub, rest, [], 0, |rest|);
    assert [c] + sub + rest + [] == counts;
    SpanSplit(counts, j, 1 + |sub|, |counts|);
    SpanSplit(counts, 1, 1 + |sub|, |counts|);
  }

  lemma {:induction false} SuffixNegative(slaves: Slaves, j: nat)
    requires j < |Counts(slaves)|
    ensures Span(Counts(slaves), j, |Counts(slaves)|) < 0
  {
    var c, sub, rest := Width(slaves.children), Counts(slaves.children), Counts(slaves.next);
    if j == 0 {
      ForestWeight(slaves);
    } else if j <= |sub| {
      SuffixNegative(slaves.children, j - 1);
      ForestWeight(slaves.next);
      SpanParts(c, sub, rest, j);
    } else {
      SuffixNegative(slaves.next, j - 1 - |sub|);
      SpanInside([c] + sub, rest, [], j - 1 - |sub|, |rest|);
      assert [c] + sub + rest + [] == [c] + sub + rest;
    }
  }

  /** `q` is the nearest earlier position at which the walk from `i` has a non-negative weight. */
  ghost predicate Settles(counts: seq<nat>, i: nat, q: int) {
    && 0 <= q < i <= |counts|
    && counts[q] >= 1
    && Span(counts, q, i) >= 0
    && forall j :: q < j < i ==> Span(counts, j, i) < 0
  }

  /** The walk from `i` crosses the whole forest without settling. */
  ghost predicate Passes(counts: seq<nat>, i: nat)
    requires i <= |counts|
  {
    forall j :: 0 <= j < i ==> Span(counts, j, i) < 0
  }

  lemma SettlesInside(left: seq<nat>, mid: seq<nat>, right: seq<nat>, i: nat, q: nat)
    requires Settles(mid, i, q)
    ensures Settles(left + mid + right, |left| + i, |left| + q)
  {
    var counts, end := left + mid + right, |left| + i;
    SpanInside(left, mid, right, q, i);
    forall j | |left| + q < j < end ensures Span(counts, j, end) < 0 {
      SpanInside(left, mid, right, j - |left|, i);
    }
  }

  /** Children of the same slave: the walk from a child crosses its earlier siblings and settles
      at the slave, because a slave with c children adds c - 1 and each sibling takes 1 away. */
  lemma SettlesAtHead(c: nat, sub: seq<nat>, rest: seq<nat>, i: nat)
    requires i < |sub| && Passes(sub, i) && Span(sub, 0, i) + c > 0 && c >= 1
    ensures Settles([c] + sub + rest, i + 1, 0)
  {
    var counts, end := [c] + sub + rest, i + 1;
    SpanInside([c], sub, rest, 0, i);
    forall j | 0 < j < end ensures Span(counts, j, end) < 0 {
      SpanInside([c], sub, rest, j - 1, i);
    }
  }

  /** A complete tree: it weighs -1, and every suffix of it weighs less than 0. */
  ghost predicate Complete(tree: seq<nat>) {
    Span(tree, 0, |tree|) == -1 && forall j :: 0 <= j < |tree| ==> Span(tree, j, |tree|) < 0
  }

  lemma TreeComplete(children: Slaves)
    ensures Complete([Width(children)] + Counts(children))
  {
    var tree := Slave(children, None);
    var counts := [Width(children)] + Counts(children);
    assert Counts(tree) == counts + [] == counts;
    ForestWeight(tree);
    forall j | 0 <= j < |counts| ensures Span(counts, j, |counts|) < 0 {
      SuffixNegative(tree, j);
    }
  }

  /** A later root of a list: the walk also crosses the whole first tree. */
  lemma PassesTree(tree: seq<nat>, rest: seq<nat>, k: nat)
    requires Complete(tree) && k < |rest| && Passes(rest, k)
    ensures Passes(tree + rest, |tree| + k)
    ensures Span(tree + rest, 0, |tree| + k) == Span(rest, 0, k) - 1
  {
    var counts, end := tree + rest, |tree| + k;
    assert tree + rest + [] == [] + tree + rest == counts;
    assert k > 0 ==> Span(rest, 0, k) < 0;
    forall j | 0 <= j <= |tree| ensures Span(counts, j, end) == Span(tree, j, |tree|) + Span(rest, 0, k) {
      SpanSplit(counts, j, |tree|, end);
      SpanInside([], tree, rest, j, |tree|);
      SpanInside(tree, rest, [], 0, k);
    }
    forall j | |tree| <= j < end ensures Span(counts, j, end) < 0 {
      SpanInside(tree, rest, [], j - |tree|, k);
    }
  }

  /** Where the walk from position i of a forest with `trees` trees ends: either it crosses
      everything before it and its parent is outside the forest, or it settles at position q. */
  ghost predicate WalkEnds(trees: nat, counts: seq<nat>, i: nat, outside: bool, q: int) {
    && i < |counts|
    && if outside then Passes(counts, i) && Span(counts, 0, i) + trees > 0 else Settles(counts, i, q)
  }

  lemma WalkInFirst(trees: nat, c: nat, sub: seq<nat>, rest: seq<nat>, i: nat, parent: nat, first: nat, q: nat)
    requires 0 < i && parent < first <= q && WalkEnds(c, sub, i - 1, q == first, q - first - 1)
    ensures WalkEnds(trees, [c] + sub + rest, i, q == parent, q - first)
  {
    if q == first {
      assert i > 1 ==> Span(sub, 0, i - 1) < 0;
      SettlesAtHead(c, sub, rest, i - 1);
    } else {
      SettlesInside([c], sub, rest, i - 1, q - first - 1);
    }
  }

  lemma WalkInRest(trees: nat, tree: seq<nat>, rest: seq<nat>, i: nat, parent: nat, first: nat, q: nat)
    requires i >= |tree| && Complete(tree) && WalkEnds(trees, rest, i - |tree|, q == parent, q - first - |tree|)
    ensures WalkEnds(trees + 1, tree + rest, i, q == parent, q - first)
  {
    if q == parent {
      PassesTree(tree, rest, i - |tree|);
    } else {
      SettlesInside(tree, rest, [], i - |tree|, q - first - |tree|);
      assert tree + rest + [] == tree + rest;
    }
  }

  lemma {:induction false} WalkInForest(slaves: Slaves, parent: nat, first: nat, i: nat)
    requires parent < first && i < |Counts(slaves)|
    ensures var q := Parents(slaves, parent, first)[i];
            && (q == parent || first <= q)
            && WalkEnds(Width(slaves), Counts(slaves), i, q == parent, q - first)
  {
    hide WalkEnds, Parents;
    var n := 1 + |Counts(slaves.children)|;
    ParentsAt(slaves, parent, first, i);
    if i == 0 {
      WalkFromFirst(slaves, parent, first);
    } else if i < n {
      WalkInForest(slaves.children, first, first + 1, i - 1);
      WalkDown(slaves, parent, first, i, Parents(slaves.children, first, first + 1)[i - 1]);
    } else {
      WalkInForest(slaves.next, parent, first + n, i - n);
      WalkOn(slaves, parent, first, i, Parents(slaves.next, parent, first + n)[i - n]);
    }
  }

  lemma ParentsAt(slaves: Slaves, parent: nat, first: nat, i: nat)
    requires i < |Counts(slaves)|
    ensures slaves.Slave?
    ensures var n := 1 + |Counts(slaves.children)|;
            Parents(slaves, parent, first)[i] ==
            if i == 0 then parent
            else if i < n then Parents(slaves.children, first, first + 1)[i - 1]
            else Parents(slaves.next, parent, first + n)[i - n]
  {}

  lemma WalkFromFirst(slaves: Slaves, parent: nat, first: nat)
    requires parent < first && slaves.Slave?
    ensures WalkEnds(Width(slaves), Counts(slaves), 0, true, parent - first)
  {}

  lemma WalkDown(slaves: Slaves, parent: nat, first: nat, i: nat, q: nat)
    requires slaves.Slave? && 0 < i && parent < first <= q
    requires WalkEnds(Width(slaves.children), Counts(slaves.children), i - 1, q == first, q - first - 1)
    ensures WalkEnds(Width(slaves), Counts(slaves), i, q == parent, q - first)
  {
    WalkInFirst(Width(slaves), Width(slaves.children), Counts(slaves.children), Counts(slaves.next), i, parent, first,
                q);
  }

  lemma CountsOf(slaves: Slaves)
    requires slaves.Slave?
    ensures Counts(slaves) == [Width(slaves.children)] + Counts(slaves.children) + Counts(slaves.next)
    ensures Width(slaves) == Width(slaves.next) + 1
  {}

  lemma WalkOn(slaves: Slaves, parent: nat, first: nat, i: nat, q: nat)
    requires slaves.Slave? && i > |Counts(slaves.children)|
    requires var n := 1 + |Counts(slaves.children)|;
             WalkEnds(Width(slaves.next), Counts(slaves.next), i - n, q == parent, q - first - n)
    ensures WalkEnds(Width(slaves), Counts(slaves), i, q == parent, q - first)
  {
    hide WalkEnds, Complete, Counts, Width;
    CountsOf(slaves);
    var tree := [Width(slaves.children)] + Counts(slaves.children);
    TreeComplete(slaves.children);
    WalkInRest(Width(slaves.next), tree, Counts(slaves.next), i, parent, first, q);
  }

  /** Ports of a slave that are open with communication established: two bits of DL status each. */
  function OpenPorts(dlstatus: nat): (h: nat)
    ensures h <= 4
  {
    (if dlstatus / 0x100 % 4 == 2 then 1 else 0) + (if dlstatus / 0x400 % 4 == 2 then 1 else 0) +
    (if dlstatus / 0x1000 % 4 == 2 then 1 else 0) + (if dlstatus / 0x4000 % 4 == 2 then 1 else 0)
  }

  /** Port p is open: its two bits in the upper half of the DL status are 10. */
  predicate PortOpen(dlstatus: nat, p: nat) {
    match p
    case 0 => dlstatus / 256 % 4 == 2
    case 1 => dlstatus / 1024 % 4 == 2
    case 2 => dlstatus / 4096 % 4 == 2
    case 3 => dlstatus / 16384 % 4 == 2
    case _ => false
  }

  lemma OpenPortsCounted(dlstatus: nat)
    ensures OpenPorts(dlstatus) == |set p: nat | p < 4 && PortOpen(dlstatus, p)|
  {
    hide PortOpen;
    PortsOne(dlstatus);
    CountPorts(set p: nat | p < 4 && PortOpen(dlstatus, p));
  }

  lemma PortsOne(dlstatus: nat)
    ensures OpenPorts(dlstatus) == (if PortOpen(dlstatus, 0) then 1 else 0) + (if PortOpen(dlstatus, 1) then 1 else 0)
                                   + (if PortOpen(dlstatus, 2) then 1 else 0) + (if PortOpen(dlstatus, 3) then 1 else 0)
  {}

  function One(b: bool): nat {
    if b then 1 else 0
  }

  lemma CountPorts(open: set<nat>)
    requires forall p :: p in open ==> p < 4
    ensures |open| == One(0 in open) + One(1 in open) + One(2 in open) + One(3 in open)
  {
    RemoveOne(open, 0);
    CountThree(open - {0});
  }

  lemma CountThree(open: set<nat>)
    requires forall p :: p in open ==> 1 <= p < 4
    ensures |open| == One(1 in open) + One(2 in open) + One(3 in open)
  {
    RemoveOne(open, 1);
    CountTwo(open - {1});
  }

  lemma CountTwo(open: set<nat>)
    requires forall p :: p in open ==> 2 <= p < 4
    ensures |open| == One(2 in open) + One(3 in open)
  {
    RemoveOne(open, 2);
    RemoveOne(open - {2}, 3);
    assert open - {2} - {3} == {};
  }

  lemma RemoveOne(open: set<nat>, p: nat)
    ensures |open| == |open - {p}| + One(p in open)
  {
    if p in open {
      assert open == (open - {p}) + {p};
    } else {
      assert open - {p} == open;
    }
  }

  /** The slaves answer the DL status reads with the links of the given wiring. */
  ghost predicate Reports(dlstatus: seq<nat>, slaves: Slaves) {
    && |dlstatus| == |Counts(slaves)|
    && forall k :: 0 <= k < |dlstatus| ==> OpenPorts(dlstatus[k]) == Counts(slaves)[k] + 1
  }

  /** Below a single first slave the walk from any later slave settles exactly at its parent. */
  lemma WalkToParent(root: Slaves, slave: nat)
    requires Width(root) == 1 && 1 < slave <= |Counts(root)|
    ensures Settles(Counts(root), slave - 1, Parents(root, 0, 1)[slave - 1] as int - 1)
  {
    WalkInForest(root, 0, 1, slave - 1);
  }

  /** A slave with c children has c + 1 links, and at most four. */
  ghost predicate LinksMatch(links: nat, counts: seq<nat>, slave: nat) {
    1 <= slave <= |counts| && links == counts[slave - 1] + 1 && links <= 4
  }

  /** One slave's parent search: walk back from the previous slave, counting endpoints down and
      split and cross points up. */
  method FindParent(topology: array<nat>, slave: nat, ghost counts: seq<nat>, ghost trueParent: nat)
    returns (parent: nat)
    requires 1 < slave <= topology.Length - 1 && |counts| == topology.Length - 1
    requires forall k :: 1 <= k < slave ==> LinksMatch(topology[k], counts, k)
    requires Settles(counts, slave - 1, trueParent - 1)
    ensures parent == trueParent
  {
    parent := 0;
    var topoc, slavec := 0, slave - 1;
    ghost var k := slave;  // the search has accumulated the weight from slave k on
    while slavec > 0
      invariant 0 <= slavec < slave
      invariant slavec > 0 ==> k == slavec + 1 && trueParent <= slavec && topoc == Span(counts, k - 1, slave - 1)
      invariant slavec == 0 ==> parent == trueParent
    {
      var links := topology[slavec];
      assert LinksMatch(links, counts, slavec);
      if links == 1 { topoc := topoc - 1; }
      if links == 3 { topoc := topoc + 1; }
      if links == 4 { topoc := topoc + 2; }
      k := slavec;
      assert topoc == Span(counts, k - 1, slave - 1);
      if (topoc >= 0 && links > 1) || slavec == 1 {
        parent := slavec;
        slavec := 1;
      }
      slavec := slavec - 1;
    }
  }

  /** The slave loop, for any link counts at which every later slave's walk settles at `truth`. */
  method ConfigureSlaves(dlstatus: seq<nat>, topology: array<nat>, parent: array<nat>,
                         ghost counts: seq<nat>, ghost truth: seq<nat>)
    requires topology != parent && topology.Length == parent.Length == |dlstatus| + 1
    requires |counts| == |truth| == |dlstatus| && (truth != [] ==> truth[0] == 0)
    requires forall k :: 0 <= k < |dlstatus| ==> OpenPorts(dlstatus[k]) == counts[k] + 1
    requires forall k :: 1 <= k < |truth| ==> Settles(counts, k, truth[k] as int - 1)
    modifies topology, parent
    ensures parent[1..] == truth
    ensures forall k :: 0 <= k < |dlstatus| ==> topology[k + 1] == OpenPorts(dlstatus[k])
    ensures parent[0] == old(parent[0]) && topology[0] == old(topology[0])
  {
    var slave := 1;
    while slave <= |dlstatus|
      invariant 1 <= slave <= |dlstatus| + 1
      invariant forall k :: 1 <= k < slave ==> topology[k] == OpenPorts(dlstatus[k - 1])
      invariant forall k :: 1 <= k < slave ==> parent[k] == truth[k - 1]
      invariant parent[0] == old(parent[0]) && topology[0] == old(topology[0])
    {
      topology[slave] := OpenPorts(dlstatus[slave - 1]);
      parent[slave] := 0;
      if slave > 1 {
        parent[slave] := FindParent(topology, slave, counts, truth[slave - 1]);
      }
      slave := slave + 1;
    }
  }

  /** The topology part of ecx_config_init: link counts from DL status, then the parent search for
      every slave. Whatever the wiring, every slave gets its true parent (0 is the master). */
  method ConfigureTopology(dlstatus: seq<nat>, topology: array<nat>, parent: array<nat>, ghost root: Slaves)
    requires topology != parent && topology.Length == parent.Length == |dlstatus| + 1
    requires Width(root) == 1 && Reports(dlstatus, root)
    modifies topology, parent
    ensures parent[1..] == Parents(root, 0, 1)
    ensures forall k :: 0 <= k < |dlstatus| ==> topology[k + 1] == OpenPorts(dlstatus[k])
    ensures parent[0] == old(parent[0]) && topology[0] == old(topology[0])
  {
    ghost var counts, truth := Counts(root), Parents(root, 0, 1);
    forall k | 1 <= k < |truth| ensures Settles(counts, k, truth[k] as int - 1) {
      WalkToParent(root, k + 1);
    }
    ConfigureSlaves(dlstatus, topology, parent, counts, truth);
  }
}
