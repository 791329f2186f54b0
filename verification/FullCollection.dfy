/** A full collection without moving, `src/runtime/fullcgc.c`: the mark phase over the graph of
    objects, then the sweep over the memory in which they lie. An object is named by its address. */
module FullCollection {
  import Mark = MarkPhase
  import opened Sweep

  /** A range of collected memory that begins at address `base`. */
  datatype Region = Region(base: nat, sweeper: Sweeper, space: Space)

  predicate IsFiller(w: Word) {
    w.Header? && w.tag == FillerTag
  }

  /** The object `o` with the first word `w`: fillers are not part of the graph, conses have no header,
      and text space has nothing but code. */
  ghost predicate ObjectAt(h: Mark.Heap, o: nat, w: Word, space: Space) {
    if IsFiller(w) then o !in h.node
    else
      && o in h.node && o !in h.fixed && !h.node[o].Fun? && (h.node[o].Cons? <==> w.Plain?)
      && (h.node[o].Code? <==> w.Header? && w.tag == CodeTag) && (space.Text? ==> h.node[o].Code?)
  }

  /** The objects of the graph that lie in the range, apart from functions inside code, are those of
      the walk over its words. */
  ghost predicate Laid(h: Mark.Heap, base: nat, mem: seq<Word>, space: Space) {
    && Walkable(mem, 0)
    && (forall a :: a in Starts(mem, 0) ==> a < |mem| && ObjectAt(h, base + a, mem[a], space))
    && (forall o :: o in h.node && o !in h.fixed && !h.node[o].Fun? && base <= o < base + |mem| ==>
          o - base in Starts(mem, 0))
  }

  /** The mark bits of a range, by offset. */
  function Bits(marks: set<nat>, base: nat): set<nat> {
    set o | o in marks && o >= base :: o - base
  }

  /** The words of live objects and of fillers are as they were; every other object is overwritten. */
  ghost predicate OnlyLiveKept(live: set<nat>, base: nat, was: seq<Word>, now: seq<Word>, space: Space)
    requires |was| == |now| && Walkable(was, 0)
  {
    forall a :: a in Starts(was, 0) ==>
      && a < |was| && 2 <= Size(was[a]) && a + Size(was[a]) <= |was|
      && if base + a in live || IsFiller(was[a]) then Same(was, now, a, a + Size(was[a]))
         else exists next :: Clobbered(was, now, a, space, next)
  }

  /** What a later walk comes across: live objects with all their words, fillers, and pairs of
      non-pointers. */
  ghost predicate NoGarbage(live: set<nat>, base: nat, was: seq<Word>, now: seq<Word>)
    requires |was| == |now| && Walkable(was, 0) && Walkable(now, 0)
  {
    forall b :: b in Starts(now, 0) ==> NotGarbage(live, base, was, now, b)
  }

  ghost predicate NotGarbage(live: set<nat>, base: nat, was: seq<Word>, now: seq<Word>, b: nat)
    requires |was| == |now| && Walkable(was, 0)
  {
    && b + 1 < |now|
    && (|| (base + b in live && b in Starts(was, 0) && Same(was, now, b, b + Size(was[b])))
        || IsFiller(now[b])
        || (now[b] in {Plain(0), Plain(-1)} && now[b + 1] == now[b]))
  }

  lemma SweepKeepsLive(h: Mark.Heap, marks: set<nat>, base: nat, was: seq<Word>, now: seq<Word>, space: Space)
    requires |was| == |now| && Laid(h, base, was, space)
    requires SweptBetween(was, now, 0, |was|, Bits(marks, base), space)
    ensures OnlyLiveKept(marks + h.fixed, base, was, now, space)
  {
    hide Walkable, Starts, Clobbered, Same;
    forall a | a in Starts(was, 0)
      ensures a < |was| && Doomed(was, a, Bits(marks, base), space) <==>
                             a < |was| && base + a !in marks + h.fixed && !IsFiller(was[a])
    {
      assert ObjectAt(h, base + a, was[a], space);
      assert a in Bits(marks, base) <==> base + a in marks;
    }
  }

  /** After the sweep an object starts where one did, or within an object that was zeroed. */
  lemma {:induction false} StartsAfter(was: seq<Word>, now: seq<Word>, i: nat, marks: set<nat>, space: Space, b: nat)
    requires |was| == |now| && Walkable(was, 0) && Walkable(was, i) && Starts(was, i) <= Starts(was, 0)
    requires SweptBetween(was, now, i, |was|, marks, space)
    requires Walkable(now, i) && b in Starts(now, i)
    ensures b + 1 < |now| && (b in Starts(was, i) || (now[b] == Plain(0) && now[b + 1] == Plain(0)))
    decreases |was| - i
  {
    if i < |was| {
      hide Swept;
      var j := i + Size(was[i]);
      assert i in Starts(was, i);
      assert Starts(was, j) <= Starts(was, i);
      SweptWalks(was, now, j, marks, space);
      StartsHere(was, now, i, marks, space, b);
      if b in Starts(now, j) { StartsAfter(was, now, j, marks, space, b); }
    }
  }

  /** The same for the words of one object. */
  lemma StartsHere(was: seq<Word>, now: seq<Word>, i: nat, marks: set<nat>, space: Space, b: nat)
    requires |was| == |now| && i < |was| && Walkable(was, i) && Walkable(now, i) && Swept(was, now, i, marks, space)
    requires Walkable(now, i + Size(was[i])) && b in Starts(now, i)
    ensures b in Starts(now, i + Size(was[i])) || (b == i && b + 1 < |now|) ||
            (b + 1 < |now| && now[b] == Plain(0) && now[b + 1] == Plain(0))
  {
    hide Swept;
    SweptForm(was, now, i, marks, space);
    if Size(now[i]) != Size(was[i]) { StartsInZeros(now, i, i + Size(was[i]), b); }
  }

  /** In a zeroed range objects are pairs of zeros. */
  lemma {:induction false} StartsInZeros(mem: seq<Word>, i: nat, j: nat, b: nat)
    requires i <= j <= |mem| && (j - i) % 2 == 0 && Walkable(mem, j) && Walkable(mem, i) && b in Starts(mem, i)
    requires forall k :: i <= k < j ==> mem[k] == Plain(0)
    ensures b in Starts(mem, j) || (b + 1 < |mem| && mem[b] == Plain(0) && mem[b + 1] == Plain(0))
    decreases j - i
  {
    if i < j && b != i { StartsInZeros(mem, i + 2, j, b); }
  }

  lemma SweepLeavesNoGarbage(h: Mark.Heap, marks: set<nat>, base: nat, was: seq<Word>, now: seq<Word>, space: Space)
    requires |was| == |now| && Laid(h, base, was, space) && Walkable(now, 0)
    requires SweptBetween(was, now, 0, |was|, Bits(marks, base), space)
    ensures NoGarbage(marks + h.fixed, base, was, now)
  {
    hide Walkable, Starts, SweptBetween, OnlyLiveKept, Laid, NotGarbage;
    assert Walkable(was, 0) by { LaidWalks(h, base, was, space); }
    SweepKeepsLive(h, marks, base, was, now, space);
    forall b | b in Starts(now, 0) ensures NotGarbage(marks + h.fixed, base, was, now, b) {
      StartsAfter(was, now, 0, Bits(marks, base), space, b);
      if b in Starts(was, 0) {
        KeptOrGone(marks + h.fixed, base, was, now, space, b);
      } else {
        PairIsNoGarbage(marks + h.fixed, base, was, now, b);
      }
    }
  }

  lemma LaidWalks(h: Mark.Heap, base: nat, mem: seq<Word>, space: Space)
    requires Laid(h, base, mem, space)
    ensures Walkable(mem, 0)
  {
  }

  lemma PairIsNoGarbage(live: set<nat>, base: nat, was: seq<Word>, now: seq<Word>, b: nat)
    requires |was| == |now| && Walkable(was, 0) && b + 1 < |now| && now[b] == now[b + 1] == Plain(0)
    ensures NotGarbage(live, base, was, now, b)
  {
  }

  /** An object of the walk before the sweep is live, or has become a filler or a pair. */
  lemma KeptOrGone(live: set<nat>, base: nat, was: seq<Word>, now: seq<Word>, space: Space, b: nat)
    requires |was| == |now| && Walkable(was, 0) && OnlyLiveKept(live, base, was, now, space) && b in Starts(was, 0)
    ensures NotGarbage(live, base, was, now, b)
  {
    hide Walkable, Starts;
    assert b < |was|;
    if base + b !in live && !IsFiller(was[b]) {
      var next :| Clobbered(was, now, b, space, next);
    }
  }

  // ---- Both phases ----

  /** The range is ready to be swept. */
  ghost predicate Ready(h: Mark.Heap, base: nat, mem: seq<Word>, freelist: seq<nat>, space: Space) {
    && Laid(h, base, mem, space)
    && (space.Text? ==> Chained(mem, freelist) && forall a :: a in freelist ==> a in Starts(mem, 0))
  }

  /** The range has been swept, and what survived the mark phase is `live`. */
  ghost predicate Cleaned(live: set<nat>, base: nat, was: seq<Word>, now: seq<Word>, space: Space) {
    && |was| == |now| && Walkable(was, 0) && Walkable(now, 0) && Starts(was, 0) <= Starts(now, 0)
    && OnlyLiveKept(live, base, was, now, space) && NoGarbage(live, base, was, now)
  }

  /** The sweep of one range. */
  method SweepRegion(h: Mark.Heap, marks: set<nat>, r: Region)
    requires Ready(h, r.base, r.sweeper.mem[..], r.sweeper.freelist, r.space)
    modifies r.sweeper`freelist, r.sweeper.mem
    ensures Cleaned(marks + h.fixed, r.base, old(r.sweeper.mem[..]), r.sweeper.mem[..], r.space)
  {
    hide Walkable, Starts, Chained, Freed, SweptBetween, ObjectAt, OnlyLiveKept, NoGarbage;
    ghost var was := r.sweeper.mem[..];
    r.sweeper.SweepRange(Bits(marks, r.base), r.space);
    ghost var now := r.sweeper.mem[..];
    SweepKeepsLive(h, marks, r.base, was, now, r.space);
    SweepLeavesNoGarbage(h, marks, r.base, was, now, r.space);
  }

  ghost predicate Separate(regions: seq<Region>)
    reads set r | r in regions :: r.sweeper
  {
    forall i, j :: 0 <= i < j < |regions| ==>
      regions[i].sweeper != regions[j].sweeper && regions[i].sweeper.mem != regions[j].sweeper.mem
  }

  /** gc_trace_from_specified_roots and the sweep of all ranges: exactly the objects of the least set
      that is closed over the roots and the uncollected spaces keep their words. */
  method CollectFully(h: Mark.Heap, roots: seq<Mark.Ref>, order: seq<Mark.Obj>, regions: seq<Region>)
    returns (m: Mark.Marker)
    requires Mark.HeapOk(h) && Mark.FixedOrder(h, order) && order != []
    requires forall r :: r in roots ==> Mark.RefOk(h, r)
    requires Separate(regions)
    requires forall r :: r in regions ==> Ready(h, r.base, r.sweeper.mem[..], r.sweeper.freelist, r.space)
    modifies set r | r in regions :: r.sweeper, set r | r in regions :: r.sweeper.mem
    ensures Mark.IsLeastClosed(h, h.fixed + Mark.RootObjects(roots), m.marks + h.fixed)
    ensures forall r :: r in regions ==>
              Cleaned(m.marks + h.fixed, r.base, old(r.sweeper.mem[..]), r.sweeper.mem[..], r.space)
  {
    hide *;
    m := Mark.MarkHeap(h, roots, order);
    SweepAll(h, m.marks, regions);
  }

  /** execute_full_sweep_phase */
  method SweepAll(h: Mark.Heap, marks: set<nat>, regions: seq<Region>)
    requires Separate(regions)
    requires forall r :: r in regions ==> Ready(h, r.base, r.sweeper.mem[..], r.sweeper.freelist, r.space)
    modifies set r | r in regions :: r.sweeper, set r | r in regions :: r.sweeper.mem
    ensures forall r :: r in regions ==>
              Cleaned(marks + h.fixed, r.base, old(r.sweeper.mem[..]), r.sweeper.mem[..], r.space)
  {
    hide Ready, Cleaned;
    ghost var live := marks + h.fixed;
    for i := 0 to |regions|
      invariant forall k :: 0 <= k < |regions| ==> regions[k].sweeper.mem == old(regions[k].sweeper.mem)
      invariant forall k :: 0 <= k < i ==>
                  Cleaned(live, regions[k].base, old(regions[k].sweeper.mem[..]), regions[k].sweeper.mem[..],
                          regions[k].space)
      invariant forall k :: i <= k < |regions| ==>
                  regions[k].sweeper.mem[..] == old(regions[k].sweeper.mem[..]) &&
                  regions[k].sweeper.freelist == old(regions[k].sweeper.freelist)
    {
      assert regions[i] in regions;
      assert forall k :: 0 <= k < |regions| && k != i ==> regions[k].sweeper.mem != regions[i].sweeper.mem;
      SweepRegion(h, marks, regions[i]);
    }
  }
}
