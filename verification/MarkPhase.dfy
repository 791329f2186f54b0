/** The full mark phase of `src/runtime/fullcgc.c` together with the weak-table
    triggers of `src/runtime/gc-common.c`: what ends up marked is the least set
    closed under strong references and under the rule that a live entry of a live
    weak table keeps both its halves. */
module MarkPhase {
  import opened Common

  type Obj = nat

  /** A slot: a pointer to an object of the graph, or anything else. */
  datatype Ref = NonHeap | Ptr(obj: Obj)

  datatype Node =
    | Cons(car: Ref, cdr: Ref)
    | Boxed(slots: seq<Ref>)
    | Leaf                                              // unboxed contents, never traced
    | Code(consts: seq<Ref>, funs: seq<Obj>)            // embeds its simple-funs
    | Fun(code: Obj)                                    // a simple-fun inside a code object
    | WeakPairs(table: Ref, weakness: nat, pairs: seq<(Ref, Ref)>)  // storage vector of a weak hash table

  /** `fixed` are the objects outside the collected spaces: they have no mark bit,
      always survive, and are all traced. */
  datatype Heap = Heap(node: map<Obj, Node>, fixed: set<Obj>)

  ghost predicate RefOk(h: Heap, r: Ref) {
    r.Ptr? ==> r.obj in h.node
  }

  ghost predicate NodeOk(h: Heap, o: Obj)
    requires o in h.node
  {
    match h.node[o]
    case Cons(a, d) => RefOk(h, a) && RefOk(h, d)
    case Boxed(s) => forall i :: 0 <= i < |s| ==> RefOk(h, s[i])
    case Leaf => true
    case Code(c, fs) =>
      && (forall i :: 0 <= i < |c| ==> RefOk(h, c[i]))
      && (forall i :: 0 <= i < |fs| ==> fs[i] in h.node && h.node[fs[i]] == Fun(o))
    case Fun(c) => c in h.node && h.node[c].Code? && o in h.node[c].funs && (o in h.fixed <==> c in h.fixed)
    case WeakPairs(t, w, ps) =>
      && RefOk(h, t) && w <= 3
      && (forall i :: 0 <= i < |ps| ==> RefOk(h, ps[i].0) && RefOk(h, ps[i].1))
  }

  ghost predicate HeapOk(h: Heap) {
    && h.fixed <= h.node.Keys
    && forall o :: o in h.node ==> NodeOk(h, o)
  }

  predicate Live(s: set<Obj>, r: Ref) {
    r.Ptr? ==> r.obj in s
  }

  /** survived_gc_yet_AND, _KEY, _VALUE, _OR */
  predicate EntryAlive(w: nat, key: Ref, val: Ref, s: set<Obj>)
    requires w <= 3
  {
    if w == 0 then Live(s, key) && Live(s, val)
    else if w == 1 then Live(s, key)
    else if w == 2 then Live(s, val)
    else Live(s, key) || Live(s, val)
  }

  /** What the liveness of `o` entails in a closed set. */
  ghost predicate Entails(h: Heap, s: set<Obj>, o: Obj)
    requires o in h.node && NodeOk(h, o)
  {
    match h.node[o]
    case Cons(a, d) => Live(s, a) && Live(s, d)
    case Boxed(slots) => forall i :: 0 <= i < |slots| ==> Live(s, slots[i])
    case Leaf => true
    case Code(c, fs) => (forall i :: 0 <= i < |c| ==> Live(s, c[i])) && (forall i :: 0 <= i < |fs| ==> fs[i] in s)
    case Fun(c) => c in s
    case WeakPairs(t, w, ps) =>
      && Live(s, t)
      && (w != 0 ==>
            forall i :: 0 <= i < |ps| && EntryAlive(w, ps[i].0, ps[i].1, s) ==> Live(s, ps[i].0) && Live(s, ps[i].1))
  }

  ghost predicate Closed(h: Heap, s: set<Obj>)
    requires HeapOk(h)
  {
    s <= h.node.Keys && forall o :: o in s ==> Entails(h, s, o)
  }

  /** Everything in `s` belongs to every closed set over `base`. */
  ghost predicate Forced(h: Heap, base: set<Obj>, s: set<Obj>)
    requires HeapOk(h)
  {
    forall t :: Closed(h, t) && base <= t ==> s <= t
  }

  /** The least closed set that contains `base`. */
  ghost predicate IsLeastClosed(h: Heap, base: set<Obj>, s: set<Obj>)
    requires HeapOk(h)
  {
    base <= s && Closed(h, s) && Forced(h, base, s)
  }

  lemma LeastClosedIsUnique(h: Heap, base: set<Obj>, s: set<Obj>, t: set<Obj>)
    requires HeapOk(h) && IsLeastClosed(h, base, s) && IsLeastClosed(h, base, t)
    ensures s == t
  {
    assert s <= t;
    assert t <= s;
  }

  // ---- Weak links: the trigger rules seen one direction at a time ----

  /** In weak table storage `o` the liveness of `src` keeps `tgt`. */
  ghost predicate Links(h: Heap, o: Obj, src: Ref, tgt: Ref)
  {
    && o in h.node && h.node[o].WeakPairs?
    && exists i :: 0 <= i < |h.node[o].pairs| && PairLinks(h.node[o].weakness, h.node[o].pairs[i], src, tgt)
  }

  ghost predicate PairLinks(w: nat, pair: (Ref, Ref), src: Ref, tgt: Ref) {
    || (w % 2 == 1 && pair == (src, tgt))
    || (w / 2 % 2 == 1 && pair == (tgt, src))
  }

  lemma LinkIndex(h: Heap, o: Obj, src: Ref, tgt: Ref)
    requires Links(h, o, src, tgt)
    ensures exists i :: 0 <= i < |h.node[o].pairs| && PairLinks(h.node[o].weakness, h.node[o].pairs[i], src, tgt)
  {
  }

  lemma PairLinksOf(h: Heap, o: Obj, i: nat)
    requires o in h.node && h.node[o].WeakPairs? && i < |h.node[o].pairs|
    ensures h.node[o].weakness % 2 == 1 ==> Links(h, o, h.node[o].pairs[i].0, h.node[o].pairs[i].1)
    ensures h.node[o].weakness / 2 % 2 == 1 ==> Links(h, o, h.node[o].pairs[i].1, h.node[o].pairs[i].0)
  {
    var w, p := h.node[o].weakness, h.node[o].pairs[i];
    assert w % 2 == 1 ==> PairLinks(w, p, p.0, p.1);
    assert w / 2 % 2 == 1 ==> PairLinks(w, p, p.1, p.0);
  }

  lemma PairRefsOk(h: Heap, o: Obj, i: nat)
    requires HeapOk(h) && o in h.node && h.node[o].WeakPairs? && i < |h.node[o].pairs|
    ensures RefOk(h, h.node[o].pairs[i].0) && RefOk(h, h.node[o].pairs[i].1)
  {
    assert NodeOk(h, o);
  }

  /** A closed set respects every link of its weak tables. */
  lemma ClosedRespectsLinks(h: Heap, s: set<Obj>, o: Obj, src: Ref, tgt: Ref)
    requires HeapOk(h) && Closed(h, s) && o in s && Links(h, o, src, tgt) && Live(s, src)
    ensures Live(s, tgt)
  {
    assert NodeOk(h, o) && Entails(h, s, o);
    var i :| 0 <= i < |h.node[o].pairs| && PairLinks(h.node[o].weakness, h.node[o].pairs[i], src, tgt);
    var p := h.node[o].pairs[i];
    assert EntryAlive(h.node[o].weakness, p.0, p.1, s);
  }

  /** Conversely, respecting every link in both directions is what the entry rule asks for. */
  lemma LinksGiveEntryRule(h: Heap, s: set<Obj>, o: Obj, i: nat)
    requires HeapOk(h) && o in h.node && h.node[o].WeakPairs? && h.node[o].weakness <= 3 && i < |h.node[o].pairs|
    requires forall src, tgt :: PairLinks(h.node[o].weakness, h.node[o].pairs[i], src, tgt) && Live(s, src) ==>
               Live(s, tgt)
    requires h.node[o].weakness != 0 && EntryAlive(h.node[o].weakness, h.node[o].pairs[i].0, h.node[o].pairs[i].1, s)
    ensures Live(s, h.node[o].pairs[i].0) && Live(s, h.node[o].pairs[i].1)
  {
    var w, p := h.node[o].weakness, h.node[o].pairs[i];
    assert w % 2 == 1 ==> PairLinks(w, p, p.0, p.1);
    assert w / 2 % 2 == 1 ==> PairLinks(w, p, p.1, p.0);
  }

  // ---- The invariant of the marking loop ----

  /** Mark bits, work queue, trigger table and list of weak tables to cull; `traced` are the
      objects whose slots have been visited, `busy` the one whose slots are being visited. */
  datatype State = State(marks: set<Obj>, queue: seq<Obj>, triggers: map<Obj, seq<Ref>>,
                         weakTables: seq<Obj>, traced: set<Obj>, busy: set<Obj>)

  /** pointer_survived_gc_yet */
  ghost function Survivors(h: Heap, st: State): set<Obj> {
    st.marks + h.fixed
  }

  ghost predicate StrongDone(h: Heap, s: set<Obj>, o: Obj)
    requires o in h.node
  {
    match h.node[o]
    case Cons(a, d) => Live(s, a) && Live(s, d)
    case Boxed(slots) => forall i :: 0 <= i < |slots| ==> Live(s, slots[i])
    case Leaf => true
    case Code(c, fs) => forall i :: 0 <= i < |c| ==> Live(s, c[i])
    case Fun(c) => true
    case WeakPairs(t, w, ps) => Live(s, t)
  }

  ghost predicate Pending(triggers: map<Obj, seq<Ref>>, src: Ref, tgt: Ref) {
    src.Ptr? && src.obj in triggers && tgt in triggers[src.obj]
  }

  /** Each link of a traced table has been followed or waits in the trigger table. */
  ghost predicate LinksDone(h: Heap, s: set<Obj>, triggers: map<Obj, seq<Ref>>, o: Obj) {
    forall src, tgt :: Links(h, o, src, tgt) ==> Live(s, tgt) || Pending(triggers, src, tgt)
  }

  /** A table that is not on the list of tables to cull has only live entries. */
  ghost predicate Listed(h: Heap, s: set<Obj>, weakTables: seq<Obj>, o: Obj)
    requires o in h.node
  {
    h.node[o].WeakPairs? && o !in weakTables ==>
      h.node[o].weakness != 0 &&
      forall i :: 0 <= i < |h.node[o].pairs| ==> Live(s, h.node[o].pairs[i].0) && Live(s, h.node[o].pairs[i].1)
  }

  ghost predicate TracedOk(h: Heap, s: set<Obj>, st: State)
    requires st.traced <= h.node.Keys
  {
    forall o :: o in st.traced ==>
      StrongDone(h, s, o) && LinksDone(h, s, st.triggers, o) && Listed(h, s, st.weakTables, o)
  }

  /** Marking a code object marks its simple-funs and the other way round. */
  ghost predicate FunsOk(h: Heap, marks: set<Obj>)
    requires marks <= h.node.Keys
  {
    && (forall o :: o in marks && h.node[o].Fun? ==> h.node[o].code in marks)
    && (forall o, f :: o in marks && h.node[o].Code? && f in h.node[o].funs ==> f in marks)
  }

  ghost predicate Covered(h: Heap, s: set<Obj>, st: State)
    requires s <= h.node.Keys
  {
    forall o :: o in s ==> o in st.traced || o in st.queue || o in st.busy || h.node[o].Leaf? || h.node[o].Fun?
  }

  ghost predicate QueueOk(h: Heap, s: set<Obj>, st: State)
    requires s <= h.node.Keys
  {
    && (forall o :: o in st.queue ==> o in s && o !in st.traced && o !in st.busy)
    && (forall i, j :: 0 <= i < j < |st.queue| ==> st.queue[i] != st.queue[j])
    && st.traced <= s && st.busy <= s
  }

  /** Every waiting trigger comes from a link of a surviving table. */
  ghost predicate TriggersOk(h: Heap, s: set<Obj>, triggers: map<Obj, seq<Ref>>) {
    && (forall t :: t in triggers ==> t in h.node && |triggers[t]| > 0)
    && (forall t, r :: t in triggers && r in triggers[t] ==> RefOk(h, r) && LinkedBySome(h, s, t, r))
  }

  ghost predicate LinkedBySome(h: Heap, s: set<Obj>, t: Obj, r: Ref) {
    exists o :: o in s && Links(h, o, Ptr(t), r)
  }

  /** A table is put on the list when it is traced, so at most once. */
  ghost predicate WeakListOk(h: Heap, st: State) {
    && (forall o :: o in st.weakTables ==> (o in st.traced || o in st.busy) && o in h.node && h.node[o].WeakPairs?)
    && (forall i, j :: 0 <= i < j < |st.weakTables| ==> st.weakTables[i] != st.weakTables[j])
  }

  ghost predicate Inv(h: Heap, base: set<Obj>, st: State)
  {
    && HeapOk(h) && h.fixed <= base
    && st.marks <= h.node.Keys && st.marks !! h.fixed
    && Forced(h, base, st.marks)
    && FunsOk(h, st.marks)
    && WeakListOk(h, st)
    && var s := Survivors(h, st);
    && QueueOk(h, s, st) && Covered(h, s, st) && TracedOk(h, s, st) && TriggersOk(h, s, st.triggers)
  }

  /** Marking `more`, of which `q` is enqueued. */
  function Marked(st: State, more: set<Obj>, q: seq<Obj>): State {
    st.(marks := st.marks + more, queue := st.queue + q)
  }

  lemma MarkKeepsInv(h: Heap, base: set<Obj>, st: State, more: set<Obj>, q: seq<Obj>)
    requires Inv(h, base, st)
    requires more <= h.node.Keys && more !! Survivors(h, st) && Forced(h, base, more)
    requires FunsOk(h, st.marks + more)
    requires forall o :: o in more ==> o in q || h.node[o].Leaf? || h.node[o].Fun?
    requires |q| <= 1 && forall o :: o in q ==> o in more
    ensures Inv(h, base, Marked(st, more, q))
  {
    var st' := Marked(st, more, q);
    var s, s' := Survivors(h, st), Survivors(h, st');
    assert s' == s + more;
    MoreKeepsTraced(h, s, s', st, st');
    MoreKeepsTriggers(h, s, s', st.triggers);
    assert Forced(h, base, st'.marks);
    forall i, j | 0 <= i < j < |st'.queue| ensures st'.queue[i] != st'.queue[j] {
      if j == |st.queue| { assert st'.queue[j] in q && st'.queue[i] in st.queue; }
    }
    assert QueueOk(h, s', st');
    assert Covered(h, s', st');
  }

  lemma MoreKeepsTraced(h: Heap, s: set<Obj>, s': set<Obj>, st: State, st': State)
    requires st.traced <= h.node.Keys && TracedOk(h, s, st) && s <= s'
    requires st'.traced == st.traced && st'.triggers == st.triggers && st'.weakTables == st.weakTables
    ensures TracedOk(h, s', st')
  {
    forall o | o in st.traced
      ensures StrongDone(h, s', o) && LinksDone(h, s', st.triggers, o) && Listed(h, s', st.weakTables, o)
    {
      assert StrongDone(h, s, o) && LinksDone(h, s, st.triggers, o) && Listed(h, s, st.weakTables, o);
    }
  }

  lemma MoreKeepsTriggers(h: Heap, s: set<Obj>, s': set<Obj>, triggers: map<Obj, seq<Ref>>)
    requires TriggersOk(h, s, triggers) && s <= s'
    ensures TriggersOk(h, s', triggers)
  {
    forall t, r | t in triggers && r in triggers[t] ensures LinkedBySome(h, s', t, r) {
      assert LinkedBySome(h, s, t, r);
    }
  }

  /** `r` is live in every closed set over `base`. */
  ghost predicate ForcedRef(h: Heap, base: set<Obj>, r: Ref)
    requires HeapOk(h)
  {
    forall t :: Closed(h, t) && base <= t ==> Live(t, r)
  }

  /** The objects whose bits __mark_obj sets for the unmarked object `o`. */
  function MarkSet(h: Heap, o: Obj): set<Obj>
    requires o in h.node
  {
    match h.node[o]
    case Fun(c) => {c} + if c in h.node && h.node[c].Code? then set f | f in h.node[c].funs else {}
    case Code(_, fs) => {o} + set f | f in fs
    case _ => {o}
  }

  lemma MarkSetForced(h: Heap, base: set<Obj>, o: Obj)
    requires HeapOk(h) && o in h.node && ForcedRef(h, base, Ptr(o))
    ensures Forced(h, base, MarkSet(h, o)) && MarkSet(h, o) <= h.node.Keys && o in MarkSet(h, o)
  {
    assert NodeOk(h, o);
    forall t | Closed(h, t) && base <= t ensures MarkSet(h, o) <= t {
      assert Live(t, Ptr(o)) && Entails(h, t, o);
      if h.node[o].Fun? {
        assert Entails(h, t, h.node[o].code);
      }
    }
    if h.node[o].Fun? { assert NodeOk(h, h.node[o].code); }
  }

  lemma MarkSetFresh(h: Heap, base: set<Obj>, st: State, o: Obj)
    requires Inv(h, base, st) && o in h.node && o !in Survivors(h, st) && MarkSet(h, o) <= h.node.Keys
    ensures MarkSet(h, o) !! Survivors(h, st)
    ensures FunsOk(h, st.marks + MarkSet(h, o))
    ensures forall x :: x in MarkSet(h, o) && !h.node[x].Fun? ==> x == if h.node[o].Fun? then h.node[o].code else o
  {
    assert NodeOk(h, o);
    var c := if h.node[o].Fun? then h.node[o].code else o;
    assert NodeOk(h, c);
    forall x | x in MarkSet(h, o) ensures x !in Survivors(h, st) && (x == c || h.node[x] == Fun(c)) {
      assert NodeOk(h, x);
    }
    forall x, f | x in st.marks + MarkSet(h, o) && h.node[x].Code? && f in h.node[x].funs
      ensures f in st.marks + MarkSet(h, o)
    {
    }
  }

  /** Whatever a surviving object refers to strongly is forced. */
  lemma StrongChildForced(h: Heap, base: set<Obj>, st: State, o: Obj, r: Ref)
    requires Inv(h, base, st) && o in Survivors(h, st)
    requires match h.node[o]
             case Cons(a, d) => r == a || r == d
             case Boxed(s) => r in s
             case Code(c, _) => r in c
             case WeakPairs(t, _, _) => r == t
             case _ => false
    ensures RefOk(h, r) && ForcedRef(h, base, r)
  {
    assert NodeOk(h, o);
    forall t | Closed(h, t) && base <= t ensures Live(t, r) {
      assert o in t && Entails(h, t, o);
    }
  }

  /** Both halves of an entry that is alive among the survivors are forced. */
  lemma LivePairForced(h: Heap, base: set<Obj>, st: State, o: Obj, i: nat)
    requires Inv(h, base, st) && o in Survivors(h, st) && h.node[o].WeakPairs? && i < |h.node[o].pairs|
    requires h.node[o].weakness <= 3 && h.node[o].weakness != 0
    requires EntryAlive(h.node[o].weakness, h.node[o].pairs[i].0, h.node[o].pairs[i].1, Survivors(h, st))
    ensures RefOk(h, h.node[o].pairs[i].0) && ForcedRef(h, base, h.node[o].pairs[i].0)
    ensures RefOk(h, h.node[o].pairs[i].1) && ForcedRef(h, base, h.node[o].pairs[i].1)
  {
    assert NodeOk(h, o);
    forall t | Closed(h, t) && base <= t
      ensures Live(t, h.node[o].pairs[i].0) && Live(t, h.node[o].pairs[i].1)
    {
      assert Survivors(h, st) <= t;
      assert o in t && Entails(h, t, o);
    }
  }

  /** A trigger whose source survives forces its targets. */
  lemma TriggerForced(h: Heap, base: set<Obj>, st: State, t: Obj, r: Ref)
    requires Inv(h, base, st) && t in st.triggers && r in st.triggers[t] && t in Survivors(h, st)
    ensures RefOk(h, r) && ForcedRef(h, base, r)
  {
    assert LinkedBySome(h, Survivors(h, st), t, r);
    var o :| o in Survivors(h, st) && Links(h, o, Ptr(t), r);
    forall c | Closed(h, c) && base <= c ensures Live(c, r) {
      ClosedRespectsLinks(h, c, o, Ptr(t), r);
    }
  }

  /** Taking the next object off the queue. */
  lemma DequeueKeepsInv(h: Heap, base: set<Obj>, st: State)
    requires Inv(h, base, st) && st.queue != [] && st.busy == {}
    ensures Inv(h, base, st.(queue := st.queue[1..], busy := {st.queue[0]}))
    ensures st.queue[0] in Survivors(h, st) && st.queue[0] !in st.traced && st.queue[0] !in st.weakTables
  {
    var st' := st.(queue := st.queue[1..], busy := {st.queue[0]});
    var s := Survivors(h, st);
    assert Survivors(h, st') == s;
    assert st.queue[0] in st.queue;
    forall o | o in st'.queue ensures o in st.queue && o != st.queue[0] {
      var i :| 0 <= i < |st'.queue| && st'.queue[i] == o;
      assert st.queue[i + 1] == o;
    }
    assert QueueOk(h, s, st');
    assert forall o :: o in st.queue ==> o == st.queue[0] || o in st'.queue;
    assert Covered(h, s, st');
    MoreKeepsTraced(h, s, s, st, st');
  }

  /** All slots of the busy object have been visited. */
  lemma FinishKeepsInv(h: Heap, base: set<Obj>, st: State, o: Obj)
    requires Inv(h, base, st) && st.busy == {o} && o in h.node
    requires var s := Survivors(h, st);
             StrongDone(h, s, o) && LinksDone(h, s, st.triggers, o) && Listed(h, s, st.weakTables, o)
    ensures Inv(h, base, st.(traced := st.traced + {o}, busy := {}))
  {
    var st' := st.(traced := st.traced + {o}, busy := {});
    assert Survivors(h, st') == Survivors(h, st);
    assert TracedOk(h, Survivors(h, st), st');
    assert Covered(h, Survivors(h, st), st');
  }

  /** Adding a trigger for a link of a surviving table. */
  lemma AddTriggerKeepsInv(h: Heap, base: set<Obj>, st: State, o: Obj, t: Obj, r: Ref, rs: seq<Ref>)
    requires Inv(h, base, st) && o in Survivors(h, st) && Links(h, o, Ptr(t), r) && t in h.node && RefOk(h, r)
    requires rs == [r] + if t in st.triggers then st.triggers[t] else []
    ensures Inv(h, base, st.(triggers := st.triggers[t := rs]))
    ensures Pending(st.triggers[t := rs], Ptr(t), r)
    ensures forall src, tgt :: Pending(st.triggers, src, tgt) ==> Pending(st.triggers[t := rs], src, tgt)
  {
    var st' := st.(triggers := st.triggers[t := rs]);
    var s := Survivors(h, st);
    assert Pending(st'.triggers, Ptr(t), r);
    MoreTriggersOk(h, s, st.triggers, o, t, r, rs);
    MorePendingKeepsTraced(h, s, st, st');
    TriggersOnly(h, base, st, st'.triggers);
  }

  lemma MoreTriggersOk(h: Heap, s: set<Obj>, triggers: map<Obj, seq<Ref>>, o: Obj, t: Obj, r: Ref, rs: seq<Ref>)
    requires TriggersOk(h, s, triggers) && o in s && Links(h, o, Ptr(t), r) && t in h.node && RefOk(h, r)
    requires rs == [r] + if t in triggers then triggers[t] else []
    ensures TriggersOk(h, s, triggers[t := rs])
  {
    hide Links;
    assert LinkedBySome(h, s, t, r);
    hide LinkedBySome;
    var triggers' := triggers[t := rs];
    forall x, y | x in triggers' && y in triggers'[x] ensures RefOk(h, y) && LinkedBySome(h, s, x, y) {
      if !(x == t && y == r) { assert x in triggers && y in triggers[x]; }
    }
  }

  /** The other parts of the invariant do not depend on the trigger table. */
  lemma TriggersOnly(h: Heap, base: set<Obj>, st: State, triggers: map<Obj, seq<Ref>>)
    requires Inv(h, base, st)
    requires TracedOk(h, Survivors(h, st), st.(triggers := triggers)) && TriggersOk(h, Survivors(h, st), triggers)
    ensures Inv(h, base, st.(triggers := triggers))
  {
    hide TracedOk, TriggersOk, Forced, FunsOk, HeapOk;
    assert Survivors(h, st.(triggers := triggers)) == Survivors(h, st);
  }

  lemma MorePendingKeepsTraced(h: Heap, s: set<Obj>, st: State, st': State)
    requires st.traced <= h.node.Keys && TracedOk(h, s, st)
    requires st'.traced == st.traced && st'.weakTables == st.weakTables
    requires forall src, tgt :: Pending(st.triggers, src, tgt) ==> Pending(st'.triggers, src, tgt)
    ensures TracedOk(h, s, st')
  {
    forall o | o in st.traced ensures LinksDone(h, s, st'.triggers, o) {
      assert LinksDone(h, s, st.triggers, o);
    }
  }

  /** Removing a trigger all of whose targets survive. */
  lemma FireKeepsInv(h: Heap, base: set<Obj>, st: State, t: Obj)
    requires Inv(h, base, st) && t in st.triggers
    requires forall r :: r in st.triggers[t] ==> Live(Survivors(h, st), r)
    ensures Inv(h, base, st.(triggers := st.triggers - {t}))
  {
    var s := Survivors(h, st);
    FiredKeepsTraced(h, s, st, t);
    FewerTriggersOk(h, s, st.triggers, t);
    hide TracedOk, TriggersOk;
    TriggersOnly(h, base, st, st.triggers - {t});
  }

  lemma FiredKeepsTraced(h: Heap, s: set<Obj>, st: State, t: Obj)
    requires st.traced <= h.node.Keys && TracedOk(h, s, st) && t in st.triggers
    requires forall r :: r in st.triggers[t] ==> Live(s, r)
    ensures TracedOk(h, s, st.(triggers := st.triggers - {t}))
  {
    hide StrongDone, Listed, Links, Live;
    forall o | o in st.traced ensures LinksDone(h, s, st.triggers - {t}, o) {
      assert LinksDone(h, s, st.triggers, o);
    }
  }

  lemma FewerTriggersOk(h: Heap, s: set<Obj>, triggers: map<Obj, seq<Ref>>, t: Obj)
    requires TriggersOk(h, s, triggers)
    ensures TriggersOk(h, s, triggers - {t})
  {
    hide LinkedBySome;
  }

  /** Putting the busy table on the list of tables to cull. */
  lemma PushTableKeepsInv(h: Heap, base: set<Obj>, st: State, o: Obj)
    requires Inv(h, base, st) && st.busy == {o} && o in h.node && h.node[o].WeakPairs? && o !in st.weakTables
    ensures Inv(h, base, st.(weakTables := [o] + st.weakTables))
  {
    var st' := st.(weakTables := [o] + st.weakTables);
    var s := Survivors(h, st);
    forall x | x in st.traced ensures Listed(h, s, st'.weakTables, x) {
      assert Listed(h, s, st.weakTables, x);
    }
    assert TracedOk(h, s, st');
  }

  /** When nothing is queued and no waiting trigger has a surviving source, marking is complete. */
  lemma QuiescentIsLeast(h: Heap, base: set<Obj>, st: State)
    requires Inv(h, base, st) && st.queue == [] && st.busy == {} && base <= Survivors(h, st)
    requires forall t :: t in st.triggers ==> t !in Survivors(h, st)
    ensures IsLeastClosed(h, base, Survivors(h, st))
  {
    var s := Survivors(h, st);
    forall o | o in s ensures Entails(h, s, o) {
      assert NodeOk(h, o);
      match h.node[o] {
        case Leaf =>
        case Fun(c) =>
        case Code(_, fs) =>
          assert StrongDone(h, s, o);
          forall i | 0 <= i < |fs| ensures fs[i] in s { assert NodeOk(h, fs[i]); }
        case WeakPairs(_, w, ps) =>
          assert StrongDone(h, s, o) && LinksDone(h, s, st.triggers, o);
          forall i | 0 <= i < |ps| && w != 0 && EntryAlive(w, ps[i].0, ps[i].1, s)
            ensures Live(s, ps[i].0) && Live(s, ps[i].1)
          {
            forall src, tgt | PairLinks(w, ps[i], src, tgt) && Live(s, src) ensures Live(s, tgt) {
              assert Links(h, o, src, tgt);
            }
            LinksGiveEntryRule(h, s, o, i);
          }
        case _ => assert StrongDone(h, s, o);
      }
    }
  }

  lemma SurvivorInHeap(h: Heap, base: set<Obj>, st: State, o: Obj)
    requires Inv(h, base, st) && o in Survivors(h, st)
    ensures o in h.node
  {
  }

  lemma TracedInHeap(h: Heap, base: set<Obj>, st: State)
    requires Inv(h, base, st)
    ensures st.traced <= h.node.Keys
  {
  }

  lemma WeaknessRange(h: Heap, o: Obj)
    requires HeapOk(h) && o in h.node && h.node[o].WeakPairs?
    ensures h.node[o].weakness <= 3
  {
    assert NodeOk(h, o);
  }

  lemma NoLinks(h: Heap, o: Obj)
    requires o in h.node && h.node[o].WeakPairs? && h.node[o].weakness == 0
    ensures forall src, tgt :: !Links(h, o, src, tgt)
  {
  }

  lemma AllListed(h: Heap, base: set<Obj>, st: State)
    requires Inv(h, base, st) && st.queue == [] && st.busy == {}
    ensures forall o :: o in Survivors(h, st) ==> o in h.node && Listed(h, Survivors(h, st), st.weakTables, o)
  {
  }

  class Marker {
    const h: Heap
    ghost const base: set<Obj>
    var marks: set<Obj>            // fullcgcmarks
    var queue: seq<Obj>            // work_queue
    var leafMarked: bool
    var triggers: map<Obj, seq<Ref>>   // weak_objects
    var weakTables: seq<Obj>       // weak_hash_tables
    ghost var traced: set<Obj>
    ghost var busy: set<Obj>

    ghost function St(): State
      reads this
    {
      State(marks, queue, triggers, weakTables, traced, busy)
    }

    ghost predicate Valid()
      reads this
    {
      Inv(h, base, St())
    }

    ghost function Survived(): set<Obj>
      reads this
    {
      marks + h.fixed
    }

    /** gc_mark_obj and __mark_obj */
    method Mark(r: Ref)
      requires Valid() && RefOk(h, r) && ForcedRef(h, base, r)
      modifies this`marks, this`queue, this`leafMarked
      ensures Valid() && Live(Survived(), r)
      ensures old(marks) <= marks && old(queue) <= queue
      ensures marks == old(marks) || |queue| > |old(queue)| || leafMarked
      ensures marks == old(marks) ==> queue == old(queue)
      ensures old(leafMarked) ==> leafMarked
    {
      hide QueueOk, Covered, TracedOk, TriggersOk, FunsOk, Forced, HeapOk, ForcedRef, WeakListOk;
      if r.NonHeap? || r.obj in h.fixed || r.obj in marks {
        return;
      }
      var o := r.obj;
      ghost var st := St();
      MarkSetForced(h, base, o);
      MarkSetFresh(h, base, st, o);
      var more := MarkSet(h, o);
      if h.node[o].Leaf? {
        MarkKeepsInv(h, base, st, more, []);
        marks := marks + more;
        leafMarked := true;
        assert St() == Marked(st, more, []);
      } else {
        var c := if h.node[o].Fun? then h.node[o].code else o;
        MarkKeepsInv(h, base, st, more, [c]);
        marks := marks + more;
        queue := queue + [c];
        assert St() == Marked(st, more, [c]);
      }
    }

    /** Mark every element of a run of slots. */
    method MarkAll(rs: seq<Ref>)
      requires Valid() && forall r :: r in rs ==> RefOk(h, r) && ForcedRef(h, base, r)
      modifies this`marks, this`queue, this`leafMarked
      ensures Valid() && forall r :: r in rs ==> Live(Survived(), r)
      ensures old(marks) <= marks && old(queue) <= queue
      ensures marks == old(marks) || |queue| > |old(queue)| || leafMarked
      ensures marks == old(marks) ==> queue == old(queue)
      ensures old(leafMarked) ==> leafMarked
    {
      hide QueueOk, Covered, TracedOk, TriggersOk, FunsOk, Forced, HeapOk, ForcedRef, WeakListOk;
      for i := 0 to |rs|
        invariant Valid() && forall j :: 0 <= j < i ==> Live(Survived(), rs[j])
        invariant old(marks) <= marks && old(queue) <= queue
        invariant marks == old(marks) || |queue| > |old(queue)| || leafMarked
        invariant marks == old(marks) ==> queue == old(queue)
        invariant old(leafMarked) ==> leafMarked
      {
        Mark(rs[i]);
      }
    }

    /** add_trigger; non-pointers are ignored. */
    method AddTrigger(t: Obj, r: Ref, ghost o: Obj)
      requires Valid() && o in Survived() && Links(h, o, Ptr(t), r) && t in h.node && RefOk(h, r)
      modifies this`triggers
      ensures Valid() && (Live({}, r) || Pending(triggers, Ptr(t), r))
      ensures forall src, tgt :: Pending(old(triggers), src, tgt) ==> Pending(triggers, src, tgt)
    {
      hide QueueOk, Covered, TracedOk, TriggersOk, FunsOk, Forced, HeapOk, ForcedRef, WeakListOk;
      hide Links;
      if r.Ptr? {
        var rs := [r] + if t in triggers then triggers[t] else [];
        AddTriggerKeepsInv(h, base, St(), o, t, r, rs);
        triggers := triggers[t := rs];
      }
    }

    /** scan_weak_hashtable on the storage vector `o`: trace the entries that are alive now,
        leave triggers for the others. Returns whether any entry was deferred. */
    method ScanPairs(o: Obj) returns (deferred: bool)
      requires Valid() && busy == {o} && o in Survived() && o in h.node && h.node[o].WeakPairs?
      requires 0 < h.node[o].weakness <= 3
      modifies this`marks, this`queue, this`leafMarked, this`triggers
      ensures Valid() && old(marks) <= marks
      ensures LinksDone(h, Survived(), triggers, o)
      ensures !deferred ==> forall i :: 0 <= i < |h.node[o].pairs| ==>
                Live(Survived(), h.node[o].pairs[i].0) && Live(Survived(), h.node[o].pairs[i].1)
    {
      hide QueueOk, Covered, TracedOk, TriggersOk, FunsOk, Forced, HeapOk, ForcedRef, WeakListOk;
      hide EntryAlive, Links, Pending;
      var w, pairs := h.node[o].weakness, h.node[o].pairs;
      deferred := false;
      for i := 0 to |pairs|
        invariant Valid() && old(marks) <= marks
        invariant forall j, src, tgt :: 0 <= j < i && PairLinks(w, pairs[j], src, tgt) ==>
                    Live(Survived(), tgt) || Pending(triggers, src, tgt)
        invariant !deferred ==> forall j :: 0 <= j < i ==> Live(Survived(), pairs[j].0) && Live(Survived(), pairs[j].1)
      {
        var d := ScanPair(o, i);
        deferred := deferred || d;
      }
      forall src, tgt | Links(h, o, src, tgt) ensures Live(Survived(), tgt) || Pending(triggers, src, tgt) {
        LinkIndex(h, o, src, tgt);
      }
    }

    /** One entry of the scan. */
    method ScanPair(o: Obj, i: nat) returns (deferred: bool)
      requires Valid() && o in Survived() && o in h.node && h.node[o].WeakPairs? && 0 < h.node[o].weakness <= 3
      requires i < |h.node[o].pairs|
      modifies this`marks, this`queue, this`leafMarked, this`triggers
      ensures Valid() && old(marks) <= marks
      ensures forall src, tgt :: Pending(old(triggers), src, tgt) ==> Pending(triggers, src, tgt)
      ensures forall src, tgt :: PairLinks(h.node[o].weakness, h.node[o].pairs[i], src, tgt) ==>
                Live(Survived(), tgt) || Pending(triggers, src, tgt)
      ensures !deferred ==> Live(Survived(), h.node[o].pairs[i].0) && Live(Survived(), h.node[o].pairs[i].1)
    {
      hide QueueOk, Covered, TracedOk, TriggersOk, FunsOk, Forced, HeapOk, ForcedRef, WeakListOk;
      hide Links, Pending;
      var w, key, val := h.node[o].weakness, h.node[o].pairs[i].0, h.node[o].pairs[i].1;
      PairLinksOf(h, o, i);
      if EntryAlive(w, key, val, marks + h.fixed) {
        LivePairForced(h, base, St(), o, i);
        Mark(key);
        Mark(val);
        return false;
      }
      PairRefsOk(h, o, i);
      if w % 2 == 1 {
        AddTrigger(key.obj, val, o);
      }
      if w / 2 == 1 {
        AddTrigger(val.obj, key, o);
      }
      return true;
    }

    /** Dequeue one object and visit its slots: mark_pair or trace_object. */
    method TraceNext()
      requires Valid() && queue != [] && busy == {}
      modifies this
      ensures Valid() && busy == {} && old(marks) <= marks
      ensures old(queue[0]) !in old(traced) && traced == old(traced) + {old(queue[0])} && traced <= h.node.Keys
    {
      hide QueueOk, Covered, TracedOk, TriggersOk, FunsOk, Forced, HeapOk, ForcedRef, WeakListOk;
      hide Links, Pending, LinksDone, Listed;
      var o := queue[0];
      DequeueKeepsInv(h, base, St());
      queue := queue[1..];
      busy := {o};
      SurvivorInHeap(h, base, St(), o);
      match h.node[o] {
        case WeakPairs(t, w, ps) => VisitWeak(o);
        case _ => VisitStrong(o);
      }
      FinishKeepsInv(h, base, St(), o);
      traced := traced + {o};
      busy := {};
      TracedInHeap(h, base, St());
    }

    method VisitStrong(o: Obj)
      requires Valid() && busy == {o} && o in Survived() && o in h.node && !h.node[o].WeakPairs?
      modifies this`marks, this`queue, this`leafMarked
      ensures Valid() && old(marks) <= marks
      ensures StrongDone(h, Survived(), o) && LinksDone(h, Survived(), triggers, o)
      ensures Listed(h, Survived(), weakTables, o)
    {
      hide QueueOk, Covered, TracedOk, TriggersOk, FunsOk, Forced, HeapOk, ForcedRef, WeakListOk;
      var rs := match h.node[o]
                case Cons(a, d) => [a, d]
                case Boxed(s) => s
                case Code(c, _) => c
                case _ => [];
      forall r | r in rs ensures RefOk(h, r) && ForcedRef(h, base, r) {
        StrongChildForced(h, base, St(), o, r);
      }
      MarkAll(rs);
      assert h.node[o].Cons? ==> h.node[o].car in rs && h.node[o].cdr in rs;
    }

    method VisitWeak(o: Obj)
      requires Valid() && busy == {o} && o in Survived() && o in h.node && h.node[o].WeakPairs? && o !in weakTables
      modifies this`marks, this`queue, this`leafMarked, this`triggers, this`weakTables
      ensures Valid() && old(marks) <= marks
      ensures StrongDone(h, Survived(), o) && LinksDone(h, Survived(), triggers, o)
      ensures Listed(h, Survived(), weakTables, o)
    {
      hide QueueOk, Covered, TracedOk, TriggersOk, FunsOk, Forced, HeapOk, ForcedRef, WeakListOk;
      hide Links, Pending;
      StrongChildForced(h, base, St(), o, h.node[o].table);
      WeaknessRange(h, o);
      Mark(h.node[o].table);
      var defer := true;
      if h.node[o].weakness != 0 {
        defer := ScanPairs(o);
      } else {
        NoLinks(h, o);
      }
      if defer {
        PushTableKeepsInv(h, base, St(), o);
        weakTables := [o] + weakTables;
      }
    }

    /** test_weak_triggers: returns whether any trigger fired. A trigger that stays was dead
        when it was looked at. */
    method TestWeakTriggers() returns (fired: bool)
      requires Valid()
      modifies this`marks, this`queue, this`leafMarked, this`triggers
      ensures Valid() && old(marks) <= marks && old(queue) <= queue
      ensures marks == old(marks) || |queue| > |old(queue)| || leafMarked
      ensures fired ==> |triggers| < |old(triggers)|
      ensures marks == old(marks) || !fired ==> queue == old(queue) && forall t :: t in triggers ==> t !in Survived()
    {
      hide QueueOk, Covered, TracedOk, TriggersOk, FunsOk, Forced, HeapOk, ForcedRef, WeakListOk;
      hide Links, Pending;
      var oldCount := |triggers|;
      var todo := triggers.Keys;
      while todo != {}
        invariant Valid() && old(marks) <= marks && old(queue) <= queue
        invariant todo <= triggers.Keys <= old(triggers).Keys
        invariant triggers.Keys == old(triggers).Keys ==> marks == old(marks)
        invariant marks == old(marks) || |queue| > |old(queue)| || leafMarked
        invariant marks == old(marks) ==> queue == old(queue)
        invariant marks == old(marks) ==> forall t :: t in triggers && t !in todo ==> t !in Survived()
        decreases todo
      {
        var t :| t in todo;
        todo := todo - {t};
        if t in marks + h.fixed {
          Fire(t);
        }
      }
      fired := |triggers| != oldCount;
      SubsetCard(triggers.Keys, old(triggers).Keys);
    }

    /** Liven everything that waits for the surviving object `t`. */
    method Fire(t: Obj)
      requires Valid() && t in triggers && t in Survived()
      modifies this`marks, this`queue, this`leafMarked, this`triggers
      ensures Valid() && old(marks) <= marks && old(queue) <= queue
      ensures marks == old(marks) || |queue| > |old(queue)| || leafMarked
      ensures marks == old(marks) ==> queue == old(queue)
      ensures old(leafMarked) ==> leafMarked
      ensures triggers == old(triggers) - {t}
    {
      hide QueueOk, Covered, TracedOk, TriggersOk, FunsOk, Forced, HeapOk, ForcedRef, WeakListOk;
      hide Links, Pending;
      forall r | r in triggers[t] ensures RefOk(h, r) && ForcedRef(h, base, r) {
        TriggerForced(h, base, St(), t, r);
      }
      MarkAll(triggers[t]);
      FireKeepsInv(h, base, St(), t);
      triggers := triggers - {t};
    }

    /** test_all_weak_triggers: true if there is work in the queue; otherwise no waiting trigger
        has a surviving source, even through leaf objects that are never enqueued. */
    method TestAllWeakTriggers() returns (more: bool)
      requires Valid() && queue == []
      modifies this`marks, this`queue, this`leafMarked, this`triggers
      ensures Valid() && old(marks) <= marks
      ensures more <==> queue != []
      ensures !more ==> forall t :: t in triggers ==> t !in Survived()
    {
      hide QueueOk, Covered, TracedOk, TriggersOk, FunsOk, Forced, HeapOk, ForcedRef, WeakListOk;
      while true
        invariant Valid() && queue == [] && old(marks) <= marks
        decreases |triggers|
      {
        leafMarked := false;
        var fired := TestWeakTriggers();
        if fired {
          if queue != [] {
            return true;
          }
          if leafMarked {
            continue;
          }
        }
        return false;
      }
    }

    /** execute_full_mark_phase, after the roots have been marked and the objects of the
        uncollected spaces enqueued: the survivors are exactly the least closed set over the roots.
        Every surviving weak table with a dead entry is on the list of tables to cull. */
    method Execute()
      requires Valid() && queue != [] && busy == {} && base <= Survived()
      modifies this
      ensures Valid() && IsLeastClosed(h, base, Survived())
      ensures forall o :: o in Survived() && h.node[o].WeakPairs? && o !in weakTables ==>
                h.node[o].weakness != 0 &&
                forall i :: 0 <= i < |h.node[o].pairs| ==>
                    Live(Survived(), h.node[o].pairs[i].0) && Live(Survived(), h.node[o].pairs[i].1)
    {
      hide QueueOk, Covered, TracedOk, TriggersOk, FunsOk, Forced, HeapOk, ForcedRef, WeakListOk;
      while true
        invariant Valid() && queue != [] && busy == {} && base <= Survived()
        decreases h.node.Keys - traced
      {
        TraceNext();
        if queue == [] {
          var more := TestAllWeakTriggers();
          if !more {
            break;
          }
        }
      }
      QuiescentIsLeast(h, base, St());
      AllListed(h, base, St());
    }

    /** prepare_for_full_mark_phase: no bit set, nothing queued. The objects of the uncollected
        spaces are still to be enqueued. */
    constructor (h: Heap, ghost base: set<Obj>)
      requires HeapOk(h) && h.fixed <= base
      ensures Valid() && this.h == h && this.base == base
      ensures marks == {} && queue == [] && triggers == map[] && weakTables == [] && traced == {} && busy == h.fixed
    {
      this.h, this.base := h, base;
      marks, queue, leafMarked, triggers, weakTables, traced, busy := {}, [], false, map[], [], {}, h.fixed;
    }

    /** enqueue_static_like_range for all objects outside the collected spaces. */
    method EnqueueFixed(order: seq<Obj>)
      requires Valid() && busy == h.fixed && traced == {} && weakTables == []
      requires FixedOrder(h, order)
      modifies this`queue, this`busy
      ensures Valid() && queue == old(queue) + order && busy == {}
    {
      EnqueueKeepsInv(h, base, St(), order);
      queue := queue + order;
      busy := {};
    }
  }

  /** The objects outside the collected spaces in memory order; simple-funs are not separate. */
  ghost predicate FixedOrder(h: Heap, order: seq<Obj>) {
    && (forall o :: o in order ==> o in h.fixed)
    && (forall o :: o in h.fixed ==> o in h.node && (o in order || h.node[o].Fun?))
    && (forall i, j :: 0 <= i < j < |order| ==> order[i] != order[j])
  }

  lemma EnqueueKeepsInv(h: Heap, base: set<Obj>, st: State, order: seq<Obj>)
    requires Inv(h, base, st) && st.busy == h.fixed && st.traced == {} && st.weakTables == [] && FixedOrder(h, order)
    ensures Inv(h, base, st.(queue := st.queue + order, busy := {}))
  {
    var st' := st.(queue := st.queue + order, busy := {});
    var s := Survivors(h, st);
    assert Survivors(h, st') == s;
    forall i, j | 0 <= i < j < |st'.queue| ensures st'.queue[i] != st'.queue[j] {
      if i < |st.queue| <= j {
        assert st'.queue[i] in st.queue && st'.queue[j] in order;
      }
    }
    assert QueueOk(h, s, st');
    assert Covered(h, s, st');
  }

  ghost function RootObjects(roots: seq<Ref>): set<Obj> {
    set r | r in roots && r.Ptr? :: r.obj
  }

  /** gc_trace_from_specified_roots: mark the roots, then run the mark phase. What survives is
      the least set that contains the roots and the uncollected spaces and is closed. */
  method MarkHeap(h: Heap, roots: seq<Ref>, order: seq<Obj>) returns (m: Marker)
    requires HeapOk(h) && FixedOrder(h, order) && order != []
    requires forall r :: r in roots ==> RefOk(h, r)
    ensures IsLeastClosed(h, h.fixed + RootObjects(roots), m.marks + h.fixed)
    ensures m.marks !! h.fixed
    ensures forall o :: o in m.weakTables ==> o in m.marks + h.fixed && o in h.node && h.node[o].WeakPairs?
    ensures forall i, j :: 0 <= i < j < |m.weakTables| ==> m.weakTables[i] != m.weakTables[j]
    ensures forall o :: o in m.marks + h.fixed && o in h.node && h.node[o].WeakPairs? && o !in m.weakTables ==>
              forall i :: 0 <= i < |h.node[o].pairs| ==>
                Live(m.marks + h.fixed, h.node[o].pairs[i].0) && Live(m.marks + h.fixed, h.node[o].pairs[i].1)
  {
    ghost var base := h.fixed + RootObjects(roots);
    m := new Marker(h, base);
    forall r | r in roots ensures ForcedRef(h, base, r) {
      assert r.Ptr? ==> r.obj in base;
    }
    m.MarkAll(roots);
    assert base <= m.marks + h.fixed;
    m.EnqueueFixed(order);
    m.Execute();
  }
}
