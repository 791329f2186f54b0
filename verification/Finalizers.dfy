/** The scan of the finalizer table after a collection, `src/runtime/gc-common.c`. The table is
    a split-ordered list; a node that is logically deleted stays in it. */
module Finalizers {

  /** The next word of a node: the following node, and, in its tag, whether the node itself is
      logically deleted. */
  datatype Link = Link(to: nat, deleted: bool)

  /** A dummy node marks a bucket and has no key. */
  datatype Node = Node(dummy: bool, key: nat, data: nat, link: Link)

  datatype Entry = Entry(key: nat, data: nat)

  /** What the collection did: the new address of each object that moved, and the addresses at
      which objects survived. */
  datatype Outcome = Outcome(forwarded: map<nat, nat>, alive: set<nat>)

  /** A node that the table still counts. */
  predicate Counted(n: Node) { !n.dummy && !n.link.deleted }

  predicate Moved(o: Outcome, n: Node) {
    Counted(n) && n.key in o.forwarded
  }

  predicate Died(o: Outcome, n: Node) {
    Counted(n) && n.key !in o.forwarded && n.key !in o.alive
  }

  predicate Stays(o: Outcome, n: Node) {
    Counted(n) && n.key !in o.forwarded && n.key in o.alive
  }

  // ---- The nodes that satisfy a predicate ----

  /** The indices of the nodes that satisfy `p`, in the order of the list. */
  function Select(nodes: seq<Node>, p: Node -> bool): (r: seq<nat>)
    ensures |r| <= |nodes|
  {
    if nodes == [] then []
    else
      var last := |nodes| - 1;
      Select(nodes[..last], p) + if p(nodes[last]) then [last] else []
  }

  /** They are exactly those nodes, each once. */
  lemma {:induction false} SelectIsExact(nodes: seq<Node>, p: Node -> bool)
    ensures forall i :: i in Select(nodes, p) <==> 0 <= i < |nodes| && p(nodes[i])
    ensures forall j, k :: 0 <= j < k < |Select(nodes, p)| ==> Select(nodes, p)[j] < Select(nodes, p)[k]
  {
    if nodes != [] {
      var init := nodes[..|nodes| - 1];
      SelectIsExact(init, p);
      var r := Select(init, p);
      forall j | 0 <= j < |r| ensures 0 <= r[j] < |init| { assert r[j] in r; }
    }
  }

  function MovedNodes(o: Outcome, nodes: seq<Node>): seq<nat> { Select(nodes, n => Moved(o, n)) }

  function DiedNodes(o: Outcome, nodes: seq<Node>): seq<nat> { Select(nodes, n => Died(o, n)) }

  function StaysNodes(o: Outcome, nodes: seq<Node>): seq<nat> { Select(nodes, n => Stays(o, n)) }

  /** Every counted node moved, died or stays, and only one of these. */
  lemma {:induction false} Partition(o: Outcome, nodes: seq<Node>)
    ensures |Select(nodes, Counted)| == |MovedNodes(o, nodes)| + |DiedNodes(o, nodes)| + |StaysNodes(o, nodes)|
  {
    if nodes != [] {
      Partition(o, nodes[..|nodes| - 1]);
    }
  }

  // ---- The scan ----

  /** The node after the scan: those that moved or died are logically deleted, nothing else about
      them changes. */
  function Settled(o: Outcome, n: Node): Node {
    n.(link := n.link.(deleted := n.link.deleted || Moved(o, n) || Died(o, n)))
  }

  function Swept(o: Outcome, nodes: seq<Node>): (r: seq<Node>)
    ensures |r| == |nodes|
  {
    seq(|nodes|, i requires 0 <= i < |nodes| => Settled(o, nodes[i]))
  }

  /** The entries pushed for the nodes that moved: the last of them is in front. */
  function Rehash(o: Outcome, nodes: seq<Node>, before: seq<Entry>): seq<Entry> {
    if nodes == [] then before
    else
      var last := nodes[|nodes| - 1];
      var rest := Rehash(o, nodes[..|nodes| - 1], before);
      if Moved(o, last) then [Entry(o.forwarded[last.key], last.data)] + rest else rest
  }

  function Triggered(o: Outcome, nodes: seq<Node>, before: seq<nat>): seq<nat> {
    if nodes == [] then before
    else
      var last := nodes[|nodes| - 1];
      var rest := Triggered(o, nodes[..|nodes| - 1], before);
      if Died(o, last) then [last.data] + rest else rest
  }

  predicate EntryOf(o: Outcome, nodes: seq<Node>, i: nat, e: Entry) {
    i < |nodes| && nodes[i].key in o.forwarded && e == Entry(o.forwarded[nodes[i].key], nodes[i].data)
  }

  /** Entry by entry: in front of the old list come the new addresses and data of exactly the
      nodes that moved, each once. */
  lemma {:induction false} RehashIsExact(o: Outcome, nodes: seq<Node>, before: seq<Entry>)
    ensures var moved, r := MovedNodes(o, nodes), Rehash(o, nodes, before);
            && |r| == |moved| + |before| && r[|moved|..] == before
            && forall j :: 0 <= j < |moved| ==> EntryOf(o, nodes, moved[|moved| - 1 - j], r[j])
  {
    if nodes != [] {
      var init := nodes[..|nodes| - 1];
      RehashIsExact(o, init, before);
      var earlier, moved := MovedNodes(o, init), MovedNodes(o, nodes);
      var was, r := Rehash(o, init, before), Rehash(o, nodes, before);
      var shift := |moved| - |earlier|;
      forall j | 0 <= j < |moved| ensures EntryOf(o, nodes, moved[|moved| - 1 - j], r[j]) {
        if j >= shift {
          assert EntryOf(o, init, earlier[|earlier| - 1 - (j - shift)], was[j - shift]);
        }
      }
    }
  }

  lemma {:induction false} TriggeredIsExact(o: Outcome, nodes: seq<Node>, before: seq<nat>)
    ensures var died := DiedNodes(o, nodes);
            var r := Triggered(o, nodes, before);
            && |r| == |died| + |before| && r[|died|..] == before
            && forall j :: 0 <= j < |died| ==>
                 var i := died[|died| - 1 - j];
                 i < |nodes| && r[j] == nodes[i].data
  {
    if nodes != [] {
      TriggeredIsExact(o, nodes[..|nodes| - 1], before);
    }
  }

  /** The nodes that are still counted are those that stay. */
  lemma {:induction false} SweptCounts(o: Outcome, nodes: seq<Node>)
    ensures Select(Swept(o, nodes), Counted) == StaysNodes(o, nodes)
  {
    if nodes != [] {
      var init := nodes[..|nodes| - 1];
      SweptCounts(o, init);
      assert Swept(o, nodes)[..|nodes| - 1] == Swept(o, init);
    }
  }

  /** A second scan finds nothing to do. */
  lemma ScanIsIdempotent(o: Outcome, nodes: seq<Node>, rehash: seq<Entry>, triggered: seq<nat>)
    ensures var once := Swept(o, nodes);
            Swept(o, once) == once && Rehash(o, once, rehash) == rehash && Triggered(o, once, triggered) == triggered
  {
    var once := Swept(o, nodes);
    forall i | 0 <= i < |once| ensures !Moved(o, once[i]) && !Died(o, once[i]) { }
    NothingToDo(o, once, rehash, triggered);
  }

  lemma {:induction false} NothingToDo(o: Outcome, nodes: seq<Node>, rehash: seq<Entry>, triggered: seq<nat>)
    requires forall i :: 0 <= i < |nodes| ==> !Moved(o, nodes[i]) && !Died(o, nodes[i])
    ensures Rehash(o, nodes, rehash) == rehash && Triggered(o, nodes, triggered) == triggered
  {
    if nodes != [] {
      NothingToDo(o, nodes[..|nodes| - 1], rehash, triggered);
    }
  }

  lemma {:induction false} SelectGrows(nodes: seq<Node>, p: Node -> bool, i: nat)
    requires i <= |nodes|
    ensures |Select(nodes[..i], p)| <= |Select(nodes, p)|
  {
    if i < |nodes| {
      var init := nodes[..|nodes| - 1];
      assert init[..i] == nodes[..i];
      SelectGrows(init, p, i);
    } else {
      assert nodes[..i] == nodes;
    }
  }

  /** What node `i` adds. */
  lemma Next(o: Outcome, nodes: seq<Node>, i: nat, rehash: seq<Entry>, triggered: seq<nat>)
    requires i < |nodes|
    ensures Rehash(o, nodes[..i + 1], rehash) ==
            if Moved(o, nodes[i]) then [Entry(o.forwarded[nodes[i].key], nodes[i].data)] + Rehash(o, nodes[..i], rehash)
            else Rehash(o, nodes[..i], rehash)
    ensures Triggered(o, nodes[..i + 1], triggered) ==
            if Died(o, nodes[i]) then [nodes[i].data] + Triggered(o, nodes[..i], triggered)
            else Triggered(o, nodes[..i], triggered)
    ensures |MovedNodes(o, nodes[..i + 1])| == |MovedNodes(o, nodes[..i])| + if Moved(o, nodes[i]) then 1 else 0
    ensures |DiedNodes(o, nodes[..i + 1])| == |DiedNodes(o, nodes[..i])| + if Died(o, nodes[i]) then 1 else 0
    ensures |MovedNodes(o, nodes[..i + 1])| + |DiedNodes(o, nodes[..i + 1])| <= |Select(nodes, Counted)|
  {
    assert nodes[..i + 1][..i] == nodes[..i];
    Partition(o, nodes[..i + 1]);
    SelectGrows(nodes, Counted, i + 1);
  }

  lemma Finish(o: Outcome, nodes: seq<Node>, i: nat)
    requires i == |nodes|
    ensures nodes[..i] == nodes
    ensures |Select(nodes, Counted)| == |MovedNodes(o, nodes)| + |DiedNodes(o, nodes)| + |StaysNodes(o, nodes)|
    ensures Select(Swept(o, nodes), Counted) == StaysNodes(o, nodes)
  {
    Partition(o, nodes);
    SweptCounts(o, nodes);
  }

  /** The list runs through the nodes `order`, from `head` to the tail, whose index is `tail`. */
  ghost predicate ListOk(nodes: seq<Node>, head: nat, tail: nat, order: seq<nat>) {
    && |nodes| == tail && (forall i, j :: 0 <= i < j < |order| ==> order[i] != order[j])
    && (forall i :: 0 <= i < |order| ==> order[i] < tail && nodes[order[i]].link.to == NodeAt(order, i + 1, tail))
    && head == NodeAt(order, 0, tail)
  }

  ghost function NodeAt(order: seq<nat>, i: nat, tail: nat): nat {
    if i < |order| then order[i] else tail
  }

  lemma ListFacts(nodes: seq<Node>, head: nat, tail: nat, order: seq<nat>, i: nat)
    requires ListOk(nodes, head, tail, order) && i <= |order|
    ensures if NodeAt(order, i, tail) == tail then i == |order|
            else i < |order| && order[i] == NodeAt(order, i, tail) < tail
    ensures forall j, k :: 0 <= j < k < |order| ==> order[j] != order[k]
    ensures forall k :: 0 <= k < |order| ==> order[k] < |nodes|
    ensures |nodes| == tail && head == NodeAt(order, 0, tail)
  {
  }

  /** The nodes in the order of the list. */
  ghost function InOrder(nodes: seq<Node>, order: seq<nat>): (r: seq<Node>)
    requires forall i :: 0 <= i < |order| ==> order[i] < |nodes|
    ensures |r| == |order|
  {
    seq(|order|, i requires 0 <= i < |order| => nodes[order[i]])
  }

  /** What the scan carries: lists and count. */
  datatype Tally = Tally(rehash: seq<Entry>, triggered: seq<nat>, count: int)

  /** After the first `i` nodes of the list `was`, starting from the tally `t0`. */
  ghost predicate ScannedTo(o: Outcome, was: seq<Node>, nodes: seq<Node>, order: seq<nat>, i: nat, t0: Tally,
                            t: Tally) {
    && i <= |order| == |was| && (forall k :: 0 <= k < |order| ==> order[k] < |nodes|)
    && NodesDone(o, was, nodes, order, i) && TalliedTo(o, was[..i], t0, t)
  }

  /** What the nodes `seen` add to the tally `t0`. */
  ghost predicate TalliedTo(o: Outcome, seen: seq<Node>, t0: Tally, t: Tally) {
    && t.rehash == Rehash(o, seen, t0.rehash) && t.triggered == Triggered(o, seen, t0.triggered)
    && t.count + |MovedNodes(o, seen)| + |DiedNodes(o, seen)| == t0.count
  }

  lemma TallyStep(o: Outcome, was: seq<Node>, i: nat, t0: Tally, t: Tally)
    requires i < |was| && TalliedTo(o, was[..i], t0, t) && t0.count == |Select(was, Counted)|
    ensures TalliedTo(o, was[..i + 1], t0, Tallied(o, was[i], t))
    ensures Moved(o, was[i]) || Died(o, was[i]) ==> t.count > 0
  {
    hide Select, Rehash, Triggered, MovedNodes, DiedNodes;
    Next(o, was, i, t0.rehash, t0.triggered);
  }

  ghost predicate NodesDone(o: Outcome, was: seq<Node>, nodes: seq<Node>, order: seq<nat>, i: nat)
    requires i <= |order| == |was| && forall k :: 0 <= k < |order| ==> order[k] < |nodes|
  {
    forall k :: 0 <= k < |order| ==> nodes[order[k]] == if k < i then Settled(o, was[k]) else was[k]
  }

  lemma OneNodeDone(o: Outcome, was: seq<Node>, nodes: seq<Node>, order: seq<nat>, i: nat)
    requires i < |order| == |was| && (forall k :: 0 <= k < |order| ==> order[k] < |nodes|)
    requires NodesDone(o, was, nodes, order, i)
    requires forall j, k :: 0 <= j < k < |order| ==> order[j] != order[k]
    ensures nodes[order[i]] == was[i] && NodesDone(o, was, nodes[order[i] := Settled(o, was[i])], order, i + 1)
  {
    hide Settled;
  }

  /** The tally after one more node. */
  function Tallied(o: Outcome, n: Node, t: Tally): Tally {
    Tally((if Moved(o, n) then [Entry(o.forwarded[n.key], n.data)] else []) + t.rehash,
          (if Died(o, n) then [n.data] else []) + t.triggered,
          t.count - if Moved(o, n) || Died(o, n) then 1 else 0)
  }

  lemma ScanBegin(o: Outcome, was: seq<Node>, nodes: seq<Node>, order: seq<nat>, t: Tally)
    requires (forall k :: 0 <= k < |order| ==> order[k] < |nodes|) && was == InOrder(nodes, order)
    ensures ScannedTo(o, was, nodes, order, 0, t, t)
  {
    assert was[..0] == [];
  }

  lemma ScanStep(o: Outcome, was: seq<Node>, nodes: seq<Node>, order: seq<nat>, i: nat, t0: Tally, t: Tally)
    requires ScannedTo(o, was, nodes, order, i, t0, t) && i < |order| && t0.count == |Select(was, Counted)|
    requires forall j, k :: 0 <= j < k < |order| ==> order[j] != order[k]
    ensures nodes[order[i]] == was[i] && (Moved(o, was[i]) || Died(o, was[i]) ==> t.count > 0)
    ensures ScannedTo(o, was, nodes[order[i] := Settled(o, was[i])], order, i + 1, t0, Tallied(o, was[i], t))
  {
    hide Select, Settled, NodesDone, TalliedTo, Tallied;
    OneNodeDone(o, was, nodes, order, i);
    TallyStep(o, was, i, t0, t);
  }

  lemma ScanEnd(o: Outcome, was: seq<Node>, nodes: seq<Node>, order: seq<nat>, t0: Tally, t: Tally)
    requires ScannedTo(o, was, nodes, order, |order|, t0, t) && t0.count == |Select(was, Counted)|
    ensures (forall k :: 0 <= k < |order| ==> order[k] < |nodes|) && InOrder(nodes, order) == Swept(o, was)
    ensures t.rehash == Rehash(o, was, t0.rehash) && t.triggered == Triggered(o, was, t0.triggered)
    ensures t.count == |StaysNodes(o, was)| == |Select(Swept(o, was), Counted)|
  {
    Finish(o, was, |was|);
  }

  class Store {
    const nodes: array<Node>
    const head: nat
    var count: nat
    var rehash: seq<Entry>
    var triggered: seq<nat>
    ghost const order: seq<nat>

    ghost predicate Linked()
      reads this, nodes
    {
      ListOk(nodes[..], head, nodes.Length, order)
    }

    ghost function List(): seq<Node>
      requires Linked()
      reads this, nodes
    {
      InOrder(nodes[..], order)
    }

    /** The stored count is the number of nodes that are neither dummies nor deleted; a dummy is
        never deleted. */
    ghost predicate Valid()
      reads this, nodes
    {
      && Linked() && count == |Select(List(), Counted)|
      && forall i :: 0 <= i < |order| ==> !(List()[i].dummy && List()[i].link.deleted)
    }

    constructor (nodes: array<Node>, head: nat, count: nat, ghost order: seq<nat>)
      requires ListOk(nodes[..], head, nodes.Length, order) && count == |Select(InOrder(nodes[..], order), Counted)|
      requires forall i :: 0 <= i < |order| ==> !(nodes[order[i]].dummy && nodes[order[i]].link.deleted)
      ensures Valid() && this.nodes == nodes && this.count == count && rehash == [] && triggered == []
      ensures this.order == order
    {
      this.nodes, this.head, this.count, rehash, triggered, this.order := nodes, head, count, [], [], order;
    }

    ghost function Current(): Tally
      reads this
    {
      Tally(rehash, triggered, count)
    }

    /** What one node of the list adds; the list stays linked. */
    method Visit(o: Outcome, node: nat, ghost i: nat) returns (next: nat)
      requires Linked() && i < |order| && order[i] == node < nodes.Length
      requires !(nodes[node].dummy && nodes[node].link.deleted)
      requires Moved(o, nodes[node]) || Died(o, nodes[node]) ==> count > 0
      modifies this`count, this`rehash, this`triggered, nodes
      ensures Linked() && next == NodeAt(order, i + 1, nodes.Length)
      ensures nodes[..] == old(nodes[..])[node := Settled(o, old(nodes[node]))]
      ensures Current() == Tallied(o, old(nodes[node]), old(Current()))
    {
      var it := nodes[node];
      next := it.link.to;
      if it.link.deleted {
        assert !it.dummy;
      } else if it.dummy {
      } else if it.key in o.forwarded {
        rehash := [Entry(o.forwarded[it.key], it.data)] + rehash;
        nodes[node] := it.(link := Link(next, true));
        count := count - 1;
      } else if it.key !in o.alive {
        triggered := [it.data] + triggered;
        nodes[node] := it.(link := Link(next, true));
        count := count - 1;
      }
    }

    /** scan_finalizers */
    method Scan(o: Outcome)
      requires Valid()
      modifies this, nodes
      ensures Valid() && List() == Swept(o, old(List()))
      ensures rehash == Rehash(o, old(List()), old(rehash))
      ensures triggered == Triggered(o, old(List()), old(triggered))
      ensures count == |StaysNodes(o, old(List()))|
    {
      hide Select, Rehash, Triggered, MovedNodes, DiedNodes, StaysNodes, Tallied, Settled, ListOk, NodeAt;
      ghost var was, before, i := List(), Current(), 0;
      ListFacts(nodes[..], head, nodes.Length, order, 0);
      ScanBegin(o, was, nodes[..], order, before);
      hide ScannedTo, InOrder, Swept;
      var node := head;
      while node != nodes.Length
        invariant Linked() && 0 <= i <= |order| && node == NodeAt(order, i, nodes.Length)
        invariant ScannedTo(o, was, nodes[..], order, i, before, Current())
        decreases |order| - i
      {
        ListFacts(nodes[..], head, nodes.Length, order, i);
        ScanStep(o, was, nodes[..], order, i, before, Current());
        node := Visit(o, node, i);
        i := i + 1;
      }
      ListFacts(nodes[..], head, nodes.Length, order, i);
      ScanEnd(o, was, nodes[..], order, before, Current());
      DummiesStay(o, was);
    }
  }

  lemma DummiesStay(o: Outcome, nodes: seq<Node>)
    requires forall i :: 0 <= i < |nodes| ==> !(nodes[i].dummy && nodes[i].link.deleted)
    ensures forall i :: 0 <= i < |nodes| ==> !(Swept(o, nodes)[i].dummy && Swept(o, nodes)[i].link.deleted)
  {
  }
}
