/** The copying collector of `src/runtime/cheneygc.c` with the scavengers of
    `src/runtime/gc-common.c`: roots and copies are rewritten in place until no
    slot refers to from-space. Lists are copied in the cdr direction. An entry of a
    weak hash table keeps its halves only if it is alive; entries that are not when
    the table is scanned wait in a table of triggers. */
module Cheney {
  import opened Common

  /** A slot. Pointers carry the lowtag that tells conses from other objects. */
  datatype Ref =
    | Imm(word: int)                       // not a pointer
    | Outside(address: int)                // pointer outside both spaces
    | From(obj: nat, list: bool)           // pointer into from-space
    | New(at: nat, list: bool)             // pointer into new-space

  datatype Kind = Strong | Weak(weakness: nat)

  /** An object: a cons has two slots. The storage of a weak table has the table in slot 0, then keys at
      odd and values at even slots; only the first slot is a strong reference. */
  datatype Node = Node(list: bool, kind: Kind, slots: seq<Ref>)
  {
    predicate StrongSlot(k: nat) {
      k < |slots| && (kind.Strong? || k == 0)
    }

    /** While slot `src` is alive it keeps slot `tgt`: the key the value, the value the key, or both. */
    predicate Ties(src: nat, tgt: nat) {
      && kind.Weak? && src < |slots| && tgt < |slots|
      && (|| (kind.weakness % 2 == 1 && src % 2 == 1 && tgt == src + 1)
          || (kind.weakness / 2 % 2 == 1 && src % 2 == 0 && src > 0 && tgt == src - 1))
    }
  }

  /** A from-space object is intact or overwritten by a forwarding pointer. */
  datatype Cell = Intact(node: Node) | Forwarded(to: nat)

  type Graph = map<nat, Node>

  ghost predicate RefOk(g: Graph, r: Ref) {
    !r.New? && (r.From? ==> r.obj in g && g[r.obj].list == r.list)
  }

  ghost predicate GraphOk(g: Graph) {
    forall o :: o in g ==> NodeOk(g, g[o])
  }

  ghost predicate NodeOk(g: Graph, n: Node) {
    && (n.list ==> |n.slots| == 2 && n.kind.Strong?)
    && (n.kind.Weak? ==> |n.slots| % 2 == 1 && n.kind.weakness <= 3)
    && forall k :: 0 <= k < |n.slots| ==> RefOk(g, n.slots[k])
  }

  // ---- What is reachable ----

  ghost predicate Holds(s: set<nat>, r: Ref) {
    r.From? ==> r.obj in s
  }

  ghost predicate Closed(g: Graph, s: set<nat>) {
    s <= g.Keys && forall o :: o in s ==> Entails(s, g[o])
  }

  /** What a member of a closed set keeps: the targets of its strong slots, and in weak table storage
      whatever is tied to a slot that is alive. */
  ghost predicate Entails(s: set<nat>, n: Node) {
    && (forall k: nat :: n.StrongSlot(k) ==> Holds(s, n.slots[k]))
    && (forall src: nat, tgt: nat :: n.Ties(src, tgt) && Holds(s, n.slots[src]) ==> Holds(s, n.slots[tgt]))
  }

  /** survived_gc_yet_AND, _KEY, _VALUE, _OR */
  ghost predicate EntryAlive(w: nat, key: Ref, val: Ref, s: set<nat>) {
    if w == 0 then Holds(s, key) && Holds(s, val)
    else if w == 1 then Holds(s, key)
    else if w == 2 then Holds(s, val)
    else Holds(s, key) || Holds(s, val)
  }

  /** In other words: an entry that is alive keeps both its halves. */
  lemma TiesAreEntryRule(g: Graph, n: Node, s: set<nat>)
    requires NodeOk(g, n) && n.kind.Weak?
    ensures (forall src: nat, tgt: nat :: n.Ties(src, tgt) && Holds(s, n.slots[src]) ==> Holds(s, n.slots[tgt])) <==>
            (forall k :: 0 <= k < |n.slots| - 1 && k % 2 == 1 ==> EntryRule(n, s, k))
  {
    if forall src: nat, tgt: nat :: n.Ties(src, tgt) && Holds(s, n.slots[src]) ==> Holds(s, n.slots[tgt]) {
      forall k | 0 <= k < |n.slots| - 1 && k % 2 == 1 ensures EntryRule(n, s, k) {
        assert n.kind.weakness % 2 == 1 ==> n.Ties(k, k + 1);
        assert n.kind.weakness / 2 % 2 == 1 ==> n.Ties(k + 1, k);
      }
    }
    if forall k :: 0 <= k < |n.slots| - 1 && k % 2 == 1 ==> EntryRule(n, s, k) {
      forall src: nat, tgt: nat | n.Ties(src, tgt) && Holds(s, n.slots[src]) ensures Holds(s, n.slots[tgt]) {
        assert EntryRule(n, s, if src < tgt then src else tgt);
      }
    }
  }

  ghost predicate EntryRule(n: Node, s: set<nat>, k: nat)
    requires n.kind.Weak? && k + 1 < |n.slots|
  {
    EntryAlive(n.kind.weakness, n.slots[k], n.slots[k + 1], s) ==> Holds(s, n.slots[k]) && Holds(s, n.slots[k + 1])
  }

  /** `r` points into every closed set that the roots point into. */
  ghost predicate Reachable(g: Graph, roots: seq<Ref>, r: Ref) {
    forall s :: Closed(g, s) && (forall k :: 0 <= k < |roots| ==> Holds(s, roots[k])) ==> Holds(s, r)
  }

  lemma RootReachable(g: Graph, roots: seq<Ref>, k: nat)
    requires k < |roots|
    ensures Reachable(g, roots, roots[k])
  {
  }

  lemma SlotReachable(g: Graph, roots: seq<Ref>, r: Ref, k: nat)
    requires r.From? && r.obj in g && g[r.obj].StrongSlot(k) && Reachable(g, roots, r)
    ensures Reachable(g, roots, g[r.obj].slots[k])
  {
    forall s | Closed(g, s) && (forall k :: 0 <= k < |roots| ==> Holds(s, roots[k]))
      ensures Holds(s, g[r.obj].slots[k])
    {
      assert Entails(s, g[r.obj]);
    }
  }

  lemma TiedReachable(g: Graph, roots: seq<Ref>, r: Ref, src: nat, tgt: nat)
    requires r.From? && r.obj in g && g[r.obj].Ties(src, tgt) && Reachable(g, roots, r)
    requires Reachable(g, roots, g[r.obj].slots[src])
    ensures Reachable(g, roots, g[r.obj].slots[tgt])
  {
    forall s | Closed(g, s) && (forall k :: 0 <= k < |roots| ==> Holds(s, roots[k]))
      ensures Holds(s, g[r.obj].slots[tgt])
    {
      assert Entails(s, g[r.obj]);
    }
  }

  // ---- The invariant ----

  /** From-space, new-space, and for each copy the object it was made from. */
  datatype State = State(from: map<nat, Cell>, space: seq<Node>, origin: seq<nat>)

  /** The slot value after forwarding, if the target has been copied. */
  function Fwd(from: map<nat, Cell>, r: Ref): Ref {
    if r.From? && r.obj in from && from[r.obj].Forwarded? then New(from[r.obj].to, r.list) else r
  }

  /** The value `was` of a slot has become `now`: a pointer into from-space leads to the copy that was
      made of its object, with the same lowtag; any other value is as it was. */
  ghost predicate Leads(origin: seq<nat>, was: Ref, now: Ref) {
    if was.From? then now.New? && now.list == was.list && now.at < |origin| && origin[now.at] == was.obj
    else now == was
  }

  lemma FwdLeads(g: Graph, st: State, r: Ref)
    requires Paired(g, st) && (r.From? ==> r.obj in g) && !Fwd(st.from, r).From?
    ensures Leads(st.origin, r, Fwd(st.from, r))
  {
  }

  /** `now` is the original slot value `was` or its forwarded value. */
  ghost predicate SlotOk(from: map<nat, Cell>, was: Ref, now: Ref) {
    now == was || now == Fwd(from, was)
  }

  ghost predicate CopyOk(g: Graph, from: map<nat, Cell>, o: nat, copy: Node) {
    && o in g && copy.list == g[o].list && copy.kind == g[o].kind && |copy.slots| == |g[o].slots|
    && forall k :: 0 <= k < |copy.slots| ==> SlotOk(from, g[o].slots[k], copy.slots[k])
  }

  /** Forwarding pointers and copies correspond one to one. */
  ghost predicate Paired(g: Graph, st: State) {
    && st.from.Keys == g.Keys && |st.origin| == |st.space|
    && (forall i :: 0 <= i < |st.origin| ==> st.origin[i] in st.from && st.from[st.origin[i]] == Forwarded(i))
    && (forall o :: o in st.from ==>
          match st.from[o]
          case Intact(n) => n == g[o]
          case Forwarded(i) => i < |st.origin| && st.origin[i] == o)
  }

  ghost predicate Copies(g: Graph, roots: seq<Ref>, st: State)
    requires |st.origin| == |st.space|
  {
    forall i :: 0 <= i < |st.space| ==>
      CopyOk(g, st.from, st.origin[i], st.space[i]) && Reachable(g, roots, From(st.origin[i], st.space[i].list))
  }

  ghost predicate Inv(g: Graph, roots: seq<Ref>, st: State) {
    GraphOk(g) && Paired(g, st) && Copies(g, roots, st)
  }

  /** Copy the intact object `o`: allocate at the free pointer, leave a forwarding pointer. */
  function CopyOf(st: State, o: nat): State
    requires o in st.from && st.from[o].Intact?
  {
    State(st.from[o := Forwarded(|st.space|)], st.space + [st.from[o].node], st.origin + [o])
  }

  lemma CopyKeepsInv(g: Graph, roots: seq<Ref>, st: State, o: nat)
    requires Inv(g, roots, st) && o in g && st.from[o].Intact? && Reachable(g, roots, From(o, g[o].list))
    ensures Inv(g, roots, CopyOf(st, o))
  {
    var st' := CopyOf(st, o);
    assert st'.from.Keys == g.Keys;
    forall i | 0 <= i < |st'.space|
      ensures CopyOk(g, st'.from, st'.origin[i], st'.space[i])
      ensures Reachable(g, roots, From(st'.origin[i], st'.space[i].list))
    {
      if i < |st.space| { assert CopyOk(g, st.from, st.origin[i], st.space[i]); }
    }
  }

  /** Overwrite slot `k` of copy `i`. */
  function WithSlot(st: State, i: nat, k: nat, r: Ref): State
    requires i < |st.space| && k < |st.space[i].slots|
  {
    st.(space := st.space[i := st.space[i].(slots := st.space[i].slots[k := r])])
  }

  lemma SlotKeepsInv(g: Graph, roots: seq<Ref>, st: State, i: nat, k: nat, r: Ref)
    requires Inv(g, roots, st) && i < |st.space| && k < |st.space[i].slots| && st.origin[i] in g
    requires |g[st.origin[i]].slots| == |st.space[i].slots| && SlotOk(st.from, g[st.origin[i]].slots[k], r)
    ensures Inv(g, roots, WithSlot(st, i, k, r))
  {
    assert CopyOk(g, st.from, st.origin[i], st.space[i]);
  }

  /** The objects not yet copied. */
  ghost function IntactSet(from: map<nat, Cell>): set<nat> {
    set o | o in from && from[o].Intact?
  }

  lemma CdrFacts(g: Graph, roots: seq<Ref>, st: State, i: nat)
    requires Inv(g, roots, st) && i < |st.space| && st.space[i].list
    ensures i < |st.origin| && st.origin[i] in g && g[st.origin[i]].list
    ensures |g[st.origin[i]].slots| == 2 == |st.space[i].slots|
    ensures st.from.Keys == g.Keys && RefOk(g, g[st.origin[i]].slots[1])
    ensures Reachable(g, roots, g[st.origin[i]].slots[1])
    ensures var cdr := g[st.origin[i]].slots[1];
            cdr.From? && st.from[cdr.obj].Intact? ==> st.from[cdr.obj].node == g[cdr.obj]
  {
    assert CopyOk(g, st.from, st.origin[i], st.space[i]);
    SlotReachable(g, roots, From(st.origin[i], st.space[i].list), 1);
  }

  // ---- Triggers ----

  /** taggedptr_alivep_impl: not in from-space, or copied. */
  predicate Alive(from: map<nat, Cell>, r: Ref) {
    r.From? ==> r.obj in from && from[r.obj].Forwarded?
  }

  /** For each object that waits to be copied, the slots that it livens: copy and index. */
  type Triggers = map<nat, seq<(nat, nat)>>

  /** Slot `q` waits for the object that `r` points to. */
  ghost predicate Waits(triggers: Triggers, r: Ref, q: (nat, nat)) {
    r.From? && r.obj in triggers && q in triggers[r.obj]
  }

  /** Some slot that points to `t` keeps slot `q`. */
  ghost predicate TiedTo(g: Graph, origin: seq<nat>, t: nat, q: (nat, nat)) {
    && q.0 < |origin| && origin[q.0] in g
    && exists src: nat :: g[origin[q.0]].Ties(src, q.1) && g[origin[q.0]].slots[src].From?
                       && g[origin[q.0]].slots[src].obj == t
  }

  ghost predicate TriggersOk(g: Graph, origin: seq<nat>, triggers: Triggers) {
    && triggers.Keys <= g.Keys
    && forall t, q :: t in triggers && q in triggers[t] ==> TiedTo(g, origin, t, q)
  }

  lemma MoreCopiesKeepTriggers(g: Graph, origin: seq<nat>, more: seq<nat>, triggers: Triggers)
    requires TriggersOk(g, origin, triggers) && origin <= more
    ensures TriggersOk(g, more, triggers)
  {
    forall t, q | t in triggers && q in triggers[t] ensures TiedTo(g, more, t, q) {
      assert TiedTo(g, origin, t, q) && more[q.0] == origin[q.0];
    }
  }

  /** Add the slot `q` to those that `t` livens. */
  function WithTrigger(triggers: Triggers, t: nat, q: (nat, nat)): Triggers {
    triggers[t := [q] + if t in triggers then triggers[t] else []]
  }

  lemma WithTriggerOk(g: Graph, origin: seq<nat>, triggers: Triggers, t: nat, q: (nat, nat))
    requires TriggersOk(g, origin, triggers) && t in g && TiedTo(g, origin, t, q)
    ensures TriggersOk(g, origin, WithTrigger(triggers, t, q))
    ensures forall r, p :: Waits(triggers, r, p) ==> Waits(WithTrigger(triggers, t, q), r, p)
    ensures forall r: Ref :: r.From? && r.obj == t ==> Waits(WithTrigger(triggers, t, q), r, q)
  {
    hide TiedTo;
  }

  /** Of weak table storage `n`, copied to `i`: what is tied to one of the slots below `end` has been
      copied or waits for that slot's target. */
  ghost predicate TiesDone(n: Node, from: map<nat, Cell>, triggers: Triggers, i: nat, end: nat) {
    forall src: nat, tgt: nat :: n.Ties(src, tgt) && src < end && tgt < end ==>
      Alive(from, n.slots[tgt]) || Waits(triggers, n.slots[src], (i, tgt))
  }

  /** Forwarding pointers stay, and slots keep waiting or have been livened. */
  ghost predicate Progress(g: Graph, from: map<nat, Cell>, triggers: Triggers, origin: seq<nat>, from': map<nat, Cell>,
                           triggers': Triggers) {
    && (forall x :: x in from && from[x].Forwarded? ==> x in from' && from'[x].Forwarded?)
    && (forall r: Ref, q :: Waits(triggers, r, q) ==> Waits(triggers', r, q) || Livened(g, from', origin, q))
  }

  /** The original content of the slot has been copied. */
  ghost predicate Livened(g: Graph, from: map<nat, Cell>, origin: seq<nat>, q: (nat, nat)) {
    q.0 < |origin| && origin[q.0] in g && q.1 < |g[origin[q.0]].slots| && Alive(from, g[origin[q.0]].slots[q.1])
  }

  lemma ProgressKeepsTies(g: Graph, from: map<nat, Cell>, triggers: Triggers, origin: seq<nat>, from': map<nat, Cell>,
                          triggers': Triggers, i: nat, end: nat)
    requires Progress(g, from, triggers, origin, from', triggers') && i < |origin| && origin[i] in g
    requires TiesDone(g[origin[i]], from, triggers, i, end)
    ensures TiesDone(g[origin[i]], from', triggers', i, end)
  {
    var n := g[origin[i]];
    forall src: nat, tgt: nat | n.Ties(src, tgt) && src < end && tgt < end
      ensures Alive(from', n.slots[tgt]) || Waits(triggers', n.slots[src], (i, tgt))
    {
      assert Alive(from, n.slots[tgt]) || Waits(triggers, n.slots[src], (i, tgt));
    }
  }

  class Collector {
    ghost const g: Graph
    ghost const rootRefs: seq<Ref>
    var from: map<nat, Cell>
    var space: seq<Node>        // new_space up to new_space_free_pointer
    var triggers: Triggers      // weak_objects
    ghost var origin: seq<nat>

    ghost function St(): State
      reads this
    {
      State(from, space, origin)
    }

    ghost predicate Valid()
      reads this
    {
      Inv(g, rootRefs, St()) && TriggersOk(g, origin, triggers)
    }

    /** The forwarding pointers left so far stay, and the copies made so far are not touched. */
    twostate predicate Extends()
      reads this
    {
      && old(space) <= space && old(origin) <= origin
      && Stable(old(from)) && (|space| == |old(space)| ==> from == old(from))
    }

    ghost predicate Stable(before: map<nat, Cell>)
      reads this
    {
      forall x :: x in before && before[x].Forwarded? ==> x in from && from[x] == before[x]
    }

    /** The cdr of this copy has not been replaced yet. */
    ghost predicate IsTail(i: nat)
      reads this
    {
      && i < |space| && i < |origin| && origin[i] in g && |g[origin[i]].slots| == 2 == |space[i].slots|
      && space[i].slots[1] == g[origin[i]].slots[1]
    }

    constructor (g: Graph, ghost rootRefs: seq<Ref>)
      requires GraphOk(g)
      ensures Valid() && this.g == g && this.rootRefs == rootRefs && space == [] && triggers == map[]
    {
      this.g, this.rootRefs := g, rootRefs;
      from, space, origin, triggers := map o | o in g :: Intact(g[o]), [], [], map[];
    }

    /** gc_general_alloc, the copy, and set_forwarding_pointer. */
    method Copy(o: nat) returns (i: nat)
      requires Valid() && o in from && from[o].Intact? && Reachable(g, rootRefs, From(o, from[o].node.list))
      modifies this`from, this`space, this`origin
      ensures Valid() && Extends() && i == |old(space)|
      ensures St() == CopyOf(old(St()), o)
      ensures IntactSet(from) == IntactSet(old(from)) - {o}
      ensures space[i].list && |space[i].slots| == 2 ==> IsTail(i)
    {
      hide TriggersOk;
      CopyKeepsInv(g, rootRefs, St(), o);
      MoreCopiesKeepTriggers(g, origin, origin + [o], triggers);
      i := |space|;
      space := space + [from[o].node];
      from := from[o := Forwarded(i)];
      origin := origin + [o];
    }

    /** The conses `i..j` are chained: each cdr leads to the next cell. */
    ghost predicate Consecutive(i: nat, j: nat)
      reads this
    {
      && i <= j < |space| && |space[j].slots| == 2
      && forall k :: i <= k < j ==> |space[k].slots| == 2 && space[k].slots[1] == New(k + 1, true)
    }

    /** The list that begins with the copy `first` of `o` is copied up to the last cell `copy`. */
    ghost predicate OnChain(o: nat, first: nat, copy: nat)
      reads this
    {
      && Valid() && o in from && from[o] == Forwarded(first) && first <= copy == |space| - 1
      && space[copy].list && IsTail(copy) && Consecutive(first, copy)
    }

    lemma ChainTail(o: nat, first: nat, copy: nat)
      requires OnChain(o, first, copy)
      ensures Valid() && first <= copy == |space| - 1 && |space[copy].slots| == 2
      ensures var cdr := space[copy].slots[1];
              && !cdr.New? && (cdr.From? ==> RefOk(g, cdr) && cdr.obj in from)
              && (cdr.From? && from[cdr.obj].Intact? ==> Reachable(g, rootRefs, cdr))
    {
      hide Reachable, Copies, GraphOk, TriggersOk, Consecutive;
      CdrFacts(g, rootRefs, St(), copy);
    }

    /** A step of trans_list: copy the cons that the cdr of `copy` leads to, next to it. */
    method CopyCdr(copy: nat, ghost o: nat, ghost first: nat) returns (next: nat)
      requires OnChain(o, first, copy)
      requires var cdr := space[copy].slots[1]; cdr.From? && cdr.list && cdr.obj in from && from[cdr.obj].Intact?
      modifies this`from, this`space, this`origin
      ensures OnChain(o, first, next)
      ensures first <= |space| && first <= |old(space)| && space[..first] == old(space)[..first]
      ensures Stable(old(from)) && IntactSet(from) < IntactSet(old(from)) && old(origin) <= origin
    {
      hide Reachable, Copies, Paired, GraphOk, TriggersOk;
      CdrFacts(g, rootRefs, St(), copy);
      next := Copy(space[copy].slots[1].obj);
      CdrFacts(g, rootRefs, St(), copy);
      CdrFacts(g, rootRefs, St(), next);
      Link(copy, 1, New(next, true));
    }

    /** Store the cdr of the last cell of a list. */
    method EndList(copy: nat, cdr: Ref, ghost o: nat, ghost first: nat)
      requires OnChain(o, first, copy) && SlotOk(from, space[copy].slots[1], cdr) && !(cdr.From? && cdr.list)
      modifies this`space
      ensures Valid() && Consecutive(first, |space| - 1) && space[|space| - 1].slots[1] == cdr
      ensures first <= |space| == |old(space)| && space[..first] == old(space)[..first]
    {
      hide Reachable, Copies, Paired, GraphOk, TriggersOk;
      CdrFacts(g, rootRefs, St(), copy);
      Link(copy, 1, cdr);
    }

    /** trans_list: copy a cons and, as long as it leads to uncopied conses, its cdr chain to
        consecutive cells. A cdr that is already copied is fixed at once. */
    method TransList(o: nat) returns (first: nat)
      requires Valid() && o in from && from[o].Intact? && from[o].node.list && Reachable(g, rootRefs, From(o, true))
      modifies this`from, this`space, this`origin
      ensures Valid() && Extends()
      ensures o in from && from[o] == Forwarded(first)
      ensures Consecutive(first, |space| - 1)
      ensures var last := space[|space| - 1].slots[1]; !(last.From? && last.list)
    {
      hide Reachable, Copies, Paired, GraphOk, TriggersOk;
      first := Copy(o);
      var copy := first;
      CdrFacts(g, rootRefs, St(), copy);
      assert OnChain(o, first, copy);
      ChainTail(o, first, copy);
      hide OnChain, Valid;
      var cdr := space[copy].slots[1];
      while cdr.From? && cdr.list
        invariant OnChain(o, first, copy) && copy < |space| && |space[copy].slots| == 2
        invariant |old(space)| == first < |space| && space[..first] == old(space)
        invariant Stable(old(from)) && old(origin) <= origin && o in from && from[o] == Forwarded(first)
        invariant cdr == space[copy].slots[1]
        decreases IntactSet(from)
      {
        ChainTail(o, first, copy);
        if from[cdr.obj].Forwarded? {
          cdr := New(from[cdr.obj].to, true);
          break;
        }
        copy := CopyCdr(copy, o, first);
        ChainTail(o, first, copy);
        cdr := space[copy].slots[1];
      }
      EndList(copy, cdr, o, first);
    }

    /** Store into a slot of a copy. */
    method Link(i: nat, k: nat, r: Ref)
      requires Valid() && i < |space| && i < |origin| && k < |space[i].slots|
      requires origin[i] in g && |g[origin[i]].slots| == |space[i].slots| && SlotOk(from, g[origin[i]].slots[k], r)
      modifies this`space
      ensures Valid() && St() == WithSlot(old(St()), i, k, r)
    {
      SlotKeepsInv(g, rootRefs, St(), i, k, r);
      space := space[i := space[i].(slots := space[i].slots[k := r])];
    }

    /** scav1: the new value of a slot that holds `r`. */
    method Scav1(r: Ref) returns (r': Ref)
      requires Valid() && (r.From? ==> RefOk(g, r)) && Reachable(g, rootRefs, r)
      modifies this`from, this`space, this`origin
      ensures Valid() && Extends() && r' == Fwd(from, r) && !r'.From?
      ensures |origin| == |space| && Leads(origin, r, r')
    {
      hide Reachable, Copies, GraphOk, TriggersOk;
      if !r.From? {
        return r;
      }
      if from[r.obj].Forwarded? {
        return New(from[r.obj].to, r.list);
      }
      var i: nat;
      if r.list {
        i := TransList(r.obj);
      } else {
        i := Copy(r.obj);
      }
      return New(i, r.list);
    }

    /** Of copy `i` no strong slot below `k` points into from-space, and whatever is tied to a slot below
        `k` has been copied or waits. */
    ghost predicate Clean(i: nat, k: nat)
      reads this
    {
      && i < |space| && i < |origin| && origin[i] in g && k <= |space[i].slots|
      && (forall j: nat :: j < k && space[i].StrongSlot(j) ==> !space[i].slots[j].From?)
      && TiesDone(g[origin[i]], from, triggers, i, k)
    }

    ghost predicate CleanBelow(i: nat)
      reads this
    {
      i <= |space| && forall j :: 0 <= j < i ==> Clean(j, |space[j].slots|)
    }

    /** Clean copies stay clean while others are made and slots wait or are livened. */
    twostate lemma CleanStays(n: nat)
      requires old(CleanBelow(n)) && n <= |space| && old(origin) <= origin
      requires forall j :: 0 <= j < n ==> space[j] == old(space)[j]
      requires Progress(g, old(from), old(triggers), old(origin), from, triggers)
      ensures CleanBelow(n)
    {
      hide TiesDone, Progress;
      forall j | 0 <= j < n ensures Clean(j, |space[j].slots|) {
        assert old(Clean(j, |space[j].slots|));
        ProgressKeepsTies(g, old(from), old(triggers), old(origin), from, triggers, j, |space[j].slots|);
      }
    }

    /** Replace slot `k` of copy `i` by its forwarded value. */
    method ScavengeSlot(i: nat, k: nat)
      requires Valid() && i < |space| && k < |space[i].slots| && CleanBelow(i)
      requires Reachable(g, rootRefs, space[i].slots[k])
      modifies this`from, this`space, this`origin
      ensures Valid() && CleanBelow(i) && Stable(old(from)) && old(origin) <= origin && |old(space)| <= |space|
      ensures space[i].kind == old(space)[i].kind && |space[i].slots| == |old(space)[i].slots|
      ensures forall j :: 0 <= j < |space[i].slots| && j != k ==> space[i].slots[j] == old(space)[i].slots[j]
      ensures !space[i].slots[k].From?
      ensures i < |origin| && origin[i] in g && k < |g[origin[i]].slots| && Alive(from, g[origin[i]].slots[k])
    {
      hide Reachable, Copies, GraphOk, Paired, TriggersOk, TiesDone, Clean;
      SlotFacts(g, rootRefs, St(), i, k);
      var r := Scav1(space[i].slots[k]);
      SlotFacts(g, rootRefs, St(), i, k);
      StableProgress(g, old(from), triggers, old(origin), from);
      CleanStays(i);
      label scavenged:
      Link(i, k, r);
      StableProgress(g, from, triggers, origin, from);
      CleanStays@scavenged(i);
    }

    /** heap_scavenge over the copies `start..end`; more copies may be made meanwhile. */
    method HeapScavenge(start: nat, end: nat)
      requires Valid() && start <= end <= |space| && CleanBelow(start)
      modifies this
      ensures Valid() && Stable(old(from)) && |old(space)| <= |space| && CleanBelow(end)
    {
      hide Reachable, Copies, GraphOk, Paired, TriggersOk, Clean;
      for i := start to end
        invariant Valid() && Stable(old(from)) && |old(space)| <= |space| && end <= |space| && CleanBelow(i)
      {
        ScavengeObject(i);
      }
    }

    method ScavengeObject(i: nat)
      requires Valid() && i < |space| && CleanBelow(i)
      modifies this
      ensures Valid() && Stable(old(from)) && |old(space)| <= |space| && CleanBelow(i + 1)
    {
      hide Reachable, Copies, GraphOk, Paired, TriggersOk, Clean, TiesDone;
      if space[i].kind.Strong? {
        ScavengeSlots(i);
      } else {
        ScanWeak(i);
      }
    }

    /** Every slot of an object without weak references. */
    method ScavengeSlots(i: nat)
      requires Valid() && i < |space| && CleanBelow(i) && space[i].kind.Strong?
      modifies this`from, this`space, this`origin
      ensures Valid() && Stable(old(from)) && |old(space)| <= |space| && CleanBelow(i) && Clean(i, |space[i].slots|)
    {
      hide Reachable, Copies, GraphOk, Paired, TriggersOk, CleanBelow;
      var n := |space[i].slots|;
      CopyFacts(g, rootRefs, St(), i);
      for k := 0 to n
        invariant Valid() && Stable(old(from)) && |old(space)| <= |space| && CleanBelow(i)
        invariant |space[i].slots| == n && space[i].kind.Strong? && Clean(i, k)
      {
        StrongReachable(g, rootRefs, St(), i, k);
        ScavengeSlot(i, k);
        CopyFacts(g, rootRefs, St(), i);
      }
    }

    /** scan_weak_hashtable: the strong slot of the storage, then entry by entry. */
    method ScanWeak(i: nat)
      requires Valid() && i < |space| && CleanBelow(i) && space[i].kind.Weak?
      modifies this
      ensures Valid() && Stable(old(from)) && |old(space)| <= |space| && CleanBelow(i) && Clean(i, |space[i].slots|)
    {
      hide Reachable, Copies, GraphOk, Paired, TriggersOk, CleanBelow;
      var n := |space[i].slots|;
      CopyFacts(g, rootRefs, St(), i);
      StrongReachable(g, rootRefs, St(), i, 0);
      ScavengeSlot(i, 0);
      assert Clean(i, 1);
      hide Clean;
      var k := 1;
      while k < n
        invariant k % 2 == 1 && k <= n && Valid() && Stable(old(from)) && |old(space)| <= |space| && CleanBelow(i)
        invariant |space[i].slots| == n && space[i].kind.Weak? && Clean(i, k)
      {
        ScanPair(i, k);
        k := k + 2;
      }
    }

    /** One entry: trace its halves if it is alive, otherwise let each tied slot wait. */
    method ScanPair(i: nat, k: nat)
      requires Valid() && CleanBelow(i) && Clean(i, k) && space[i].kind.Weak?
      requires k % 2 == 1 && k + 1 < |space[i].slots|
      modifies this
      ensures Valid() && Stable(old(from)) && |old(space)| <= |space| && CleanBelow(i) && Clean(i, k + 2)
      ensures space[i].kind == old(space)[i].kind && |space[i].slots| == |old(space)[i].slots|
    {
      hide Reachable, Copies, GraphOk, Paired, TriggersOk, CleanBelow, TiesDone, Waits, Alive, EntryLives;
      CopyFacts(g, rootRefs, St(), i);
      var w := space[i].kind.weakness;
      if EntryLives(w, from, space[i].slots[k], space[i].slots[k + 1]) {
        ScavengePair(i, k);
      } else {
        DeferPair(i, k);
      }
    }

    method ScavengePair(i: nat, k: nat)
      requires Valid() && CleanBelow(i) && Clean(i, k) && space[i].kind.Weak?
      requires k % 2 == 1 && k + 1 < |space[i].slots|
      requires EntryLives(space[i].kind.weakness, from, space[i].slots[k], space[i].slots[k + 1])
      modifies this`from, this`space, this`origin
      ensures Valid() && Stable(old(from)) && |old(space)| <= |space| && CleanBelow(i) && Clean(i, k + 2)
      ensures space[i].kind == old(space)[i].kind && |space[i].slots| == |old(space)[i].slots|
    {
      hide Reachable, Copies, GraphOk, Paired, TriggersOk, CleanBelow, TiesDone, Waits;
      CopyFacts(g, rootRefs, St(), i);
      EntryReachable(g, rootRefs, St(), i, k);
      ghost var n := g[origin[i]];
      ScavengeSlot(i, k);
      ScavengeSlot(i, k + 1);
      CopyFacts(g, rootRefs, St(), i);
      StableProgress(g, old(from), triggers, old(origin), from);
      ProgressKeepsTies(g, old(from), triggers, old(origin), from, triggers, i, k);
      PairDone(n, from, triggers, i, k);
    }

    /** add_kv_triggers */
    method DeferPair(i: nat, k: nat)
      requires Valid() && CleanBelow(i) && Clean(i, k) && space[i].kind.Weak?
      requires k % 2 == 1 && k + 1 < |space[i].slots|
      requires !EntryLives(space[i].kind.weakness, from, space[i].slots[k], space[i].slots[k + 1])
      modifies this`triggers
      ensures Valid() && CleanBelow(i) && Clean(i, k + 2)
    {
      hide Reachable, Copies, GraphOk, Paired, TriggersOk, CleanBelow, TiesDone, Waits;
      CopyFacts(g, rootRefs, St(), i);
      SlotFacts(g, rootRefs, St(), i, k);
      SlotFacts(g, rootRefs, St(), i, k + 1);
      var w := space[i].kind.weakness;
      ghost var n := g[origin[i]];
      if w % 2 == 1 {
        AddTrigger(i, k, k + 1);
      }
      if w / 2 % 2 == 1 {
        AddTrigger(i, k + 1, k);
      }
      WaitingProgress(g, from, old(triggers), origin, triggers);
      ProgressKeepsTies(g, from, old(triggers), origin, from, triggers, i, k);
      PairDone(n, from, triggers, i, k);
    }

    /** add_trigger: slot `tgt` of copy `i` waits for the object that slot `src` points to, if it holds
        a pointer at all. */
    method AddTrigger(i: nat, src: nat, tgt: nat)
      requires Valid() && CleanBelow(i) && i < |space| && i < |origin| && origin[i] in g
      requires g[origin[i]].Ties(src, tgt) && |space[i].slots| == |g[origin[i]].slots| && space[i].slots[src].From?
      modifies this`triggers
      ensures Valid() && CleanBelow(i)
      ensures Alive(from, g[origin[i]].slots[tgt]) || Waits(triggers, g[origin[i]].slots[src], (i, tgt))
      ensures forall r, q :: Waits(old(triggers), r, q) ==> Waits(triggers, r, q)
    {
      hide Reachable, Copies, GraphOk, Paired, TriggersOk, Clean;
      SlotFacts(g, rootRefs, St(), i, src);
      SlotFacts(g, rootRefs, St(), i, tgt);
      if !space[i].slots[tgt].Imm? {
        var t := space[i].slots[src].obj;
        WithTriggerOk(g, origin, triggers, t, (i, tgt));
        hide Waits;
        triggers := WithTrigger(triggers, t, (i, tgt));
        WaitingProgress(g, from, old(triggers), origin, triggers);
        CleanStays(i);
      }
    }

    /** Trace what the slots waiting for `t` hold. The slots themselves are left as they are. */
    method Fire(t: nat, ghost here: nat)
      requires Valid() && CleanBelow(here) && t in triggers && t in from && from[t].Forwarded?
      modifies this
      ensures Valid() && CleanBelow(here) && Extends() && triggers == old(triggers) - {t}
    {
      hide Reachable, Copies, GraphOk, Paired, TriggersOk, Clean, TiedTo, Livened;
      var chain := triggers[t];
      for j := 0 to |chain|
        invariant Valid() && Extends() && triggers == old(triggers) && t in from && from[t].Forwarded?
        invariant forall q :: q in chain[..j] ==> Livened(g, from, origin, q)
      {
        assert chain[j] in triggers[t];
        FiredSlot(g, rootRefs, St(), triggers, t, chain[j]);
        ghost var from0, origin0 := from, origin;
        var r := Scav1(space[chain[j].0].slots[chain[j].1]);
        LivenedStays(g, from0, origin0, from, origin);
        SlotFacts(g, rootRefs, St(), chain[j].0, chain[j].1);
        assert Livened(g, from, origin, chain[j]) by { FiredIsLivened(g, rootRefs, St(), chain[j], r); }
      }
      assert chain[..|chain|] == chain;
      FireKeepsTriggers(g, origin, triggers, t);
      triggers := triggers - {t};
      FiredProgress(g, old(from), old(triggers), old(origin), from, t, origin);
      CleanStays(here);
    }

    /** test_weak_triggers: fire every trigger whose object has been copied; true if there was one. If
        nothing was copied meanwhile, no trigger is left whose object has been copied. */
    method TestWeakTriggers(ghost here: nat) returns (fired: bool)
      requires Valid() && CleanBelow(here)
      modifies this
      ensures Valid() && CleanBelow(here) && Stable(old(from)) && |old(space)| <= |space|
      ensures !fired ==> |space| == |old(space)|
      ensures |space| == |old(space)| ==> forall t :: t in triggers ==> !Copied(t)
    {
      hide Reachable, Copies, GraphOk, Paired, TriggersOk, Clean, CleanBelow;
      var count := |triggers|;
      var todo := triggers.Keys;
      while todo != {}
        invariant Valid() && CleanBelow(here) && Stable(old(from)) && |old(space)| <= |space|
        invariant todo <= triggers.Keys <= old(triggers).Keys
        invariant |space| == |old(space)| ==> from == old(from)
        invariant triggers.Keys == old(triggers).Keys ==> |space| == |old(space)|
        invariant |space| == |old(space)| ==> forall t :: t in triggers && t !in todo ==> !Copied(t)
        decreases todo
      {
        var t :| t in todo;
        todo := todo - {t};
        if t in from && from[t].Forwarded? {
          Fire(t, here);
        }
      }
      fired := |triggers| != count;
      SubsetCard(triggers.Keys, old(triggers).Keys);
    }

    predicate Copied(o: nat)
      reads this`from
    {
      o in from && from[o].Forwarded?
    }

    /** scavenge_newspace: scan the copies, including those made by the scan itself, until neither the
        scan nor a trigger has led to a further copy. */
    method ScavengeNewspace()
      requires Valid() && CleanBelow(0)
      modifies this
      ensures Valid() && Stable(old(from)) && CleanBelow(|space|) && forall t :: t in triggers ==> !Copied(t)
    {
      hide Reachable, Copies, GraphOk, Paired, TriggersOk, Clean;
      var here: nat := 0;
      var first, more := true, true;
      CopiesFit(g, rootRefs, St());
      while more
        invariant Valid() && Stable(old(from)) && CleanBelow(here) && here <= |space| <= |g|
        invariant more && !first ==> here < |space|
        invariant !more ==> here == |space| && forall t :: t in triggers ==> !Copied(t)
        decreases more, first, |g| - here
      {
        var next := |space|;
        HeapScavenge(here, next);
        here, first := next, false;
        more := |space| > here;
        if !more {
          var fired := TestWeakTriggers(here);
          more := fired && |space| > here;
        }
        CopiesFit(g, rootRefs, St());
      }
    }

    lemma RootLeads(k: nat)
      requires Valid() && k < |rootRefs| && RefOk(g, rootRefs[k]) && !Fwd(from, rootRefs[k]).From?
      ensures |origin| == |space| && Leads(origin, rootRefs[k], Fwd(from, rootRefs[k]))
    {
      hide Reachable, Copies, GraphOk, TriggersOk;
      FwdLeads(g, St(), rootRefs[k]);
    }

    /** Scavenge the root slots in place. */
    method ScavengeRoots(roots: array<Ref>)
      requires Valid() && roots[..] == rootRefs && forall k :: 0 <= k < |rootRefs| ==> RefOk(g, rootRefs[k])
      modifies this`from, this`space, this`origin, roots
      ensures Valid() && roots.Length == |rootRefs|
      ensures forall k :: 0 <= k < roots.Length ==> roots[k] == Fwd(from, rootRefs[k]) && !roots[k].From?
      ensures forall k :: 0 <= k < roots.Length ==> Leads(origin, rootRefs[k], roots[k])
    {
      hide Reachable, Copies, GraphOk, Paired, TriggersOk, Leads;
      for k := 0 to roots.Length
        invariant Valid() && roots.Length == |rootRefs|
        invariant forall j :: 0 <= j < k ==> roots[j] == Fwd(from, rootRefs[j]) && !roots[j].From?
        invariant forall j :: k <= j < roots.Length ==> roots[j] == rootRefs[j]
      {
        RootReachable(g, rootRefs, k);
        var r := Scav1(roots[k]);
        roots[k] := r;
      }
      forall k | 0 <= k < roots.Length ensures Leads(origin, rootRefs[k], roots[k]) { RootLeads(k); }
    }
  }

  lemma SlotFacts(g: Graph, roots: seq<Ref>, st: State, i: nat, k: nat)
    requires Inv(g, roots, st) && i < |st.space| && k < |st.space[i].slots|
    ensures i < |st.origin| && st.origin[i] in g && |g[st.origin[i]].slots| == |st.space[i].slots|
    ensures var was, now := g[st.origin[i]].slots[k], st.space[i].slots[k];
            SlotOk(st.from, was, now) && RefOk(g, was) && (now.From? ==> now == was)
  {
    assert CopyOk(g, st.from, st.origin[i], st.space[i]);
  }

  lemma CopyFacts(g: Graph, roots: seq<Ref>, st: State, i: nat)
    requires Inv(g, roots, st) && i < |st.space|
    ensures i < |st.origin| && st.origin[i] in g && NodeOk(g, g[st.origin[i]])
    ensures g[st.origin[i]].kind == st.space[i].kind && |g[st.origin[i]].slots| == |st.space[i].slots|
  {
    assert CopyOk(g, st.from, st.origin[i], st.space[i]);
  }

  lemma StrongReachable(g: Graph, roots: seq<Ref>, st: State, i: nat, k: nat)
    requires Inv(g, roots, st) && i < |st.space| && st.space[i].StrongSlot(k)
    ensures Reachable(g, roots, st.space[i].slots[k])
  {
    assert CopyOk(g, st.from, st.origin[i], st.space[i]);
    SlotReachable(g, roots, From(st.origin[i], st.space[i].list), k);
  }

  /** Copying alone is progress. */
  lemma StableProgress(g: Graph, from: map<nat, Cell>, triggers: Triggers, origin: seq<nat>, from': map<nat, Cell>)
    requires forall x :: x in from && from[x].Forwarded? ==> x in from' && from'[x] == from[x]
    ensures Progress(g, from, triggers, origin, from', triggers)
  {
  }

  /** Waiting longer is progress. */
  lemma WaitingProgress(g: Graph, from: map<nat, Cell>, triggers: Triggers, origin: seq<nat>, triggers': Triggers)
    requires forall r, q :: Waits(triggers, r, q) ==> Waits(triggers', r, q)
    ensures Progress(g, from, triggers, origin, from, triggers')
  {
  }

  /** Firing a trigger whose slots have been livened is progress. */
  lemma FiredProgress(g: Graph, from: map<nat, Cell>, triggers: Triggers, origin: seq<nat>, from': map<nat, Cell>,
                      t: nat, origin': seq<nat>)
    requires forall x :: x in from && from[x].Forwarded? ==> x in from' && from'[x] == from[x]
    requires t in triggers && TriggersOk(g, origin, triggers) && origin <= origin'
    requires forall q :: q in triggers[t] ==> Livened(g, from', origin', q)
    ensures Progress(g, from, triggers, origin, from', triggers - {t})
  {
    forall r: Ref, q | Waits(triggers, r, q) ensures Waits(triggers - {t}, r, q) || Livened(g, from', origin, q) {
      assert TiedTo(g, origin, r.obj, q);
    }
  }

  lemma FireKeepsTriggers(g: Graph, origin: seq<nat>, triggers: Triggers, t: nat)
    requires TriggersOk(g, origin, triggers)
    ensures TriggersOk(g, origin, triggers - {t})
  {
    hide TiedTo;
  }

  lemma LivenedStays(g: Graph, from: map<nat, Cell>, origin: seq<nat>, from': map<nat, Cell>, origin': seq<nat>)
    requires forall x :: x in from && from[x].Forwarded? ==> x in from' && from'[x] == from[x]
    requires origin <= origin'
    ensures forall q :: Livened(g, from, origin, q) ==> Livened(g, from', origin', q)
  {
  }

  /** The slot that waits for a copied object can be reached. */
  lemma FiredSlot(g: Graph, roots: seq<Ref>, st: State, triggers: Triggers, t: nat, q: (nat, nat))
    requires Inv(g, roots, st) && TriggersOk(g, st.origin, triggers) && t in triggers && q in triggers[t]
    requires t in st.from && st.from[t].Forwarded?
    ensures q.0 < |st.space| && q.1 < |st.space[q.0].slots| && Reachable(g, roots, st.space[q.0].slots[q.1])
    ensures st.space[q.0].slots[q.1].From? ==> RefOk(g, st.space[q.0].slots[q.1])
  {
    assert TiedTo(g, st.origin, t, q);
    var o := st.origin[q.0];
    var src: nat :| g[o].Ties(src, q.1) && g[o].slots[src].From? && g[o].slots[src].obj == t;
    hide Reachable;
    assert CopyOk(g, st.from, o, st.space[q.0]);
    AliveReachable(g, roots, st, g[o].slots[src]);
    TiedReachable(g, roots, From(o, st.space[q.0].list), src, q.1);
    SlotFacts(g, roots, st, q.0, q.1);
    NewReachable(g, roots, st.space[q.0].slots[q.1]);
  }

  lemma NewReachable(g: Graph, roots: seq<Ref>, r: Ref)
    ensures !r.From? ==> Reachable(g, roots, r)
  {
  }

  lemma FiredIsLivened(g: Graph, roots: seq<Ref>, st: State, q: (nat, nat), r: Ref)
    requires Inv(g, roots, st) && q.0 < |st.space| && q.1 < |st.space[q.0].slots|
    requires r == Fwd(st.from, st.space[q.0].slots[q.1]) && !r.From?
    ensures Livened(g, st.from, st.origin, q)
  {
    SlotFacts(g, roots, st, q.0, q.1);
  }

  /** What has been copied can be reached. */
  lemma AliveReachable(g: Graph, roots: seq<Ref>, st: State, r: Ref)
    requires Inv(g, roots, st) && Alive(st.from, r) && (r.From? ==> RefOk(g, r))
    ensures Reachable(g, roots, r)
  {
    if r.From? {
      hide Reachable;
      var i := st.from[r.obj].to;
      assert CopyOk(g, st.from, st.origin[i], st.space[i]);
    }
  }

  /** The test of the entry while the collection is under way. */
  predicate EntryLives(w: nat, from: map<nat, Cell>, key: Ref, val: Ref) {
    if w == 0 then Alive(from, key) && Alive(from, val)
    else if w == 1 then Alive(from, key)
    else if w == 2 then Alive(from, val)
    else Alive(from, key) || Alive(from, val)
  }

  /** Both halves of an entry that is alive can be reached. */
  lemma EntryReachable(g: Graph, roots: seq<Ref>, st: State, i: nat, k: nat)
    requires Inv(g, roots, st) && i < |st.space| && st.space[i].kind.Weak? && k % 2 == 1 && k + 1 < |st.space[i].slots|
    requires EntryLives(st.space[i].kind.weakness, st.from, st.space[i].slots[k], st.space[i].slots[k + 1])
    ensures Reachable(g, roots, st.space[i].slots[k]) && Reachable(g, roots, st.space[i].slots[k + 1])
  {
    hide Reachable;
    CopyFacts(g, roots, st, i);
    HalfReachable(g, roots, st, i, k);
    HalfReachable(g, roots, st, i, k + 1);
    TiedHalf(g, roots, st, i, k, k + 1);
    TiedHalf(g, roots, st, i, k + 1, k);
  }

  lemma HalfReachable(g: Graph, roots: seq<Ref>, st: State, i: nat, k: nat)
    requires Inv(g, roots, st) && i < |st.space| && k < |st.space[i].slots|
    ensures Alive(st.from, st.space[i].slots[k]) ==> Reachable(g, roots, st.space[i].slots[k])
  {
    if Alive(st.from, st.space[i].slots[k]) {
      SlotFacts(g, roots, st, i, k);
      AliveReachable(g, roots, st, st.space[i].slots[k]);
    }
  }

  lemma TiedHalf(g: Graph, roots: seq<Ref>, st: State, i: nat, src: nat, tgt: nat)
    requires Inv(g, roots, st) && i < |st.space| && src < |st.space[i].slots| && tgt < |st.space[i].slots|
    ensures i < |st.origin| && st.origin[i] in g
    ensures g[st.origin[i]].Ties(src, tgt) && Alive(st.from, st.space[i].slots[src]) ==>
              Reachable(g, roots, st.space[i].slots[tgt])
  {
    hide Reachable;
    CopyFacts(g, roots, st, i);
    var o := st.origin[i];
    if g[o].Ties(src, tgt) && Alive(st.from, st.space[i].slots[src]) {
      SlotFacts(g, roots, st, i, src);
      SlotFacts(g, roots, st, i, tgt);
      AliveReachable(g, roots, st, g[o].slots[src]);
      assert CopyOk(g, st.from, o, st.space[i]);
      TiedReachable(g, roots, From(o, st.space[i].list), src, tgt);
      NewReachable(g, roots, st.space[i].slots[tgt]);
    }
  }

  /** One more entry is done. */
  lemma PairDone(n: Node, from: map<nat, Cell>, triggers: Triggers, i: nat, k: nat)
    requires TiesDone(n, from, triggers, i, k) && k % 2 == 1 && k + 1 < |n.slots|
    requires n.Ties(k, k + 1) ==> Alive(from, n.slots[k + 1]) || Waits(triggers, n.slots[k], (i, k + 1))
    requires n.Ties(k + 1, k) ==> Alive(from, n.slots[k]) || Waits(triggers, n.slots[k + 1], (i, k))
    ensures TiesDone(n, from, triggers, i, k + 2)
  {
    hide Alive, Waits;
  }

  lemma CopiesFit(g: Graph, roots: seq<Ref>, st: State)
    requires Inv(g, roots, st)
    ensures |st.space| <= |g|
  {
    hide Copies, GraphOk, CopyOk;
    var n := |st.origin|;
    assert forall i, j :: 0 <= i < j < n ==> st.origin[i] != st.origin[j];
    DistinctCard(st.origin, n);
    forall o | o in Origins(st.origin, n) ensures o in g.Keys { }
    SubsetCard(Origins(st.origin, n), g.Keys);
  }

  lemma {:induction false} DistinctCard(origin: seq<nat>, n: nat)
    requires n <= |origin| && forall i, j :: 0 <= i < j < n ==> origin[i] != origin[j]
    ensures |Origins(origin, n)| == n
  {
    if n == 0 {
      assert Origins(origin, n) == {};
    } else {
      DistinctCard(origin, n - 1);
      OneMoreOrigin(origin, n - 1);
      assert forall i :: 0 <= i < n - 1 ==> origin[i] != origin[n - 1];
    }
  }

  /** The objects that the first `n` copies were made from. */
  ghost function Origins(origin: seq<nat>, n: nat): set<nat>
    requires n <= |origin|
  {
    set i | 0 <= i < n :: origin[i]
  }

  lemma OneMoreOrigin(origin: seq<nat>, n: nat)
    requires n < |origin|
    ensures Origins(origin, n + 1) == Origins(origin, n) + {origin[n]}
  {
    forall o | o in Origins(origin, n + 1) ensures o in Origins(origin, n) + {origin[n]} {
      var i :| 0 <= i < n + 1 && o == origin[i];
      assert i < n ==> o in Origins(origin, n);
    }
  }

  /** New-space is an isomorphic image of the reachable part of from-space: the copies correspond
      one to one to the reachable objects, and every strong slot of a copy, and every root, is the
      forwarded original. Slots of weak entries are as they were or forwarded; what an entry keeps
      has been copied. */
  ghost predicate Isomorphic(g: Graph, roots: seq<Ref>, now: seq<Ref>, from: map<nat, Cell>, space: seq<Node>,
                             origin: seq<nat>) {
    && |origin| == |space| && |now| == |roots| && from.Keys == g.Keys
    && (forall i :: 0 <= i < |origin| ==> origin[i] in g && from[origin[i]] == Forwarded(i))
    && (forall o :: o in g ==> (from[o].Forwarded? <==> Reachable(g, roots, From(o, g[o].list))))
    && (forall o :: o in g && from[o].Forwarded? ==> from[o].to < |origin| && origin[from[o].to] == o)
    && (forall i :: 0 <= i < |space| ==> ImageOf(origin, g[origin[i]], space[i]))
    && (forall k :: 0 <= k < |now| ==> Leads(origin, roots[k], now[k]))
  }

  ghost predicate ImageOf(origin: seq<nat>, was: Node, now: Node) {
    && now.list == was.list && now.kind == was.kind && |now.slots| == |was.slots|
    && (forall k :: 0 <= k < |now.slots| ==> now.slots[k] == was.slots[k] || Leads(origin, was.slots[k], now.slots[k]))
    && (forall k: nat :: now.StrongSlot(k) ==> Leads(origin, was.slots[k], now.slots[k]))
    && (forall src: nat, tgt: nat :: was.Ties(src, tgt) && HasCopy(origin, was.slots[src]) ==>
          HasCopy(origin, was.slots[tgt]))
  }

  /** The slot does not point into from-space, or to an object that was copied. */
  ghost predicate HasCopy(origin: seq<nat>, r: Ref) {
    r.From? ==> r.obj in origin
  }

  lemma AliveHasCopy(g: Graph, st: State, r: Ref)
    requires Paired(g, st) && (r.From? ==> r.obj in g)
    ensures HasCopy(st.origin, r) <==> Alive(st.from, r)
  {
  }

  /** No strong slot points into from-space, and no slot waits for an object that has been copied. */
  ghost predicate Quiescent(g: Graph, st: State, triggers: Triggers)
    requires |st.origin| == |st.space|
  {
    && (forall i: nat, k: nat :: i < |st.space| && st.space[i].StrongSlot(k) ==> !st.space[i].slots[k].From?)
    && (forall i :: 0 <= i < |st.space| ==>
          st.origin[i] in g && TiesDone(g[st.origin[i]], st.from, triggers, i, |g[st.origin[i]].slots|))
    && (forall t :: t in triggers && t in st.from ==> st.from[t].Intact?)
  }

  lemma CopyIsImage(g: Graph, roots: seq<Ref>, st: State, triggers: Triggers, i: nat)
    requires Inv(g, roots, st) && Quiescent(g, st, triggers) && TriggersOk(g, st.origin, triggers) && i < |st.space|
    ensures st.origin[i] in g && ImageOf(st.origin, g[st.origin[i]], st.space[i])
    ensures var n := g[st.origin[i]];
            && (forall k: nat :: n.StrongSlot(k) ==> Alive(st.from, n.slots[k]))
            && (forall src: nat, tgt: nat :: n.Ties(src, tgt) && Alive(st.from, n.slots[src]) ==>
                  Alive(st.from, n.slots[tgt]))
  {
    hide Reachable, TiedTo;
    assert CopyOk(g, st.from, st.origin[i], st.space[i]);
    var n, now := g[st.origin[i]], st.space[i];
    assert NodeOk(g, n);
    assert TiesDone(n, st.from, triggers, i, |n.slots|);
    forall k: nat | k < |n.slots|
      ensures now.slots[k] == n.slots[k] || Leads(st.origin, n.slots[k], now.slots[k])
      ensures now.StrongSlot(k) ==> Leads(st.origin, n.slots[k], now.slots[k])
      ensures HasCopy(st.origin, n.slots[k]) <==> Alive(st.from, n.slots[k])
    {
      assert RefOk(g, n.slots[k]) && SlotOk(st.from, n.slots[k], now.slots[k]);
      AliveHasCopy(g, st, n.slots[k]);
      if !Fwd(st.from, n.slots[k]).From? { FwdLeads(g, st, n.slots[k]); }
    }
  }

  /** Then exactly the reachable objects are copied. */
  lemma CleanIsIsomorphic(g: Graph, roots: seq<Ref>, now: seq<Ref>, st: State, triggers: Triggers)
    requires Inv(g, roots, st) && |now| == |roots| && forall k :: 0 <= k < |roots| ==> RefOk(g, roots[k])
    requires forall k :: 0 <= k < |now| ==> now[k] == Fwd(st.from, roots[k]) && !now[k].From?
    requires Quiescent(g, st, triggers) && TriggersOk(g, st.origin, triggers)
    ensures Isomorphic(g, roots, now, st.from, st.space, st.origin)
  {
    forall i | 0 <= i < |st.space| ensures ImageOf(st.origin, g[st.origin[i]], st.space[i]) {
      CopyIsImage(g, roots, st, triggers, i);
    }
    forall k | 0 <= k < |now| ensures Leads(st.origin, roots[k], now[k]) {
      assert RefOk(g, roots[k]);
      FwdLeads(g, st, roots[k]);
    }
    CopiedIsClosed(g, roots, now, st, triggers);
    var copied := CopiedSet(g, st.from);
    forall o | o in g ensures st.from[o].Forwarded? <==> Reachable(g, roots, From(o, g[o].list)) {
      if st.from[o].Forwarded? {
        assert CopyOk(g, st.from, o, st.space[st.from[o].to]);
      }
      if Reachable(g, roots, From(o, g[o].list)) {
        assert Holds(copied, From(o, g[o].list));
      }
    }
  }

  ghost function CopiedSet(g: Graph, from: map<nat, Cell>): set<nat> {
    set o | o in g && o in from && from[o].Forwarded?
  }

  lemma CopiedIsClosed(g: Graph, roots: seq<Ref>, now: seq<Ref>, st: State, triggers: Triggers)
    requires Inv(g, roots, st) && |now| == |roots| && forall k :: 0 <= k < |roots| ==> RefOk(g, roots[k])
    requires forall k :: 0 <= k < |now| ==> now[k] == Fwd(st.from, roots[k]) && !now[k].From?
    requires Quiescent(g, st, triggers) && TriggersOk(g, st.origin, triggers)
    ensures Closed(g, CopiedSet(g, st.from))
    ensures forall k :: 0 <= k < |roots| ==> Holds(CopiedSet(g, st.from), roots[k])
  {
    hide Reachable, Quiescent, TriggersOk;
    var copied := CopiedSet(g, st.from);
    forall o | o in copied ensures Entails(copied, g[o]) {
      var i := st.from[o].to;
      CopyIsImage(g, roots, st, triggers, i);
      assert NodeOk(g, g[o]);
      forall k: nat | k < |g[o].slots| ensures Holds(copied, g[o].slots[k]) <==> Alive(st.from, g[o].slots[k]) {
        assert RefOk(g, g[o].slots[k]);
      }
    }
    forall k | 0 <= k < |roots| ensures Holds(copied, roots[k]) {
      assert RefOk(g, roots[k]) && !now[k].From?;
    }
  }

  /** collect_garbage: scavenge the roots, then new-space, to the end. */
  method Collect(g: Graph, roots: array<Ref>) returns (c: Collector)
    requires GraphOk(g) && forall k :: 0 <= k < roots.Length ==> RefOk(g, roots[k])
    modifies roots
    ensures Isomorphic(g, old(roots[..]), roots[..], c.from, c.space, c.origin)
  {
    hide Reachable, Copies, GraphOk, TriggersOk, TiesDone;
    ghost var before := roots[..];
    c := new Collector(g, before);
    c.ScavengeRoots(roots);
    ghost var now := roots[..];
    c.ScavengeNewspace();
    forall i | 0 <= i < |c.space|
      ensures c.Clean(i, |c.space[i].slots|) && |c.space[i].slots| == |g[c.origin[i]].slots|
    {
      CopyFacts(g, before, c.St(), i);
    }
    CleanIsIsomorphic(g, before, now, c.St(), c.triggers);
    assert roots[..] == now;
  }
}
