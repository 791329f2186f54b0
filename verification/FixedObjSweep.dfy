/** The sweep of one page of fixed-size immobile objects in
    `src/runtime/immobile-space.c`: dead objects become holes, the chain of holes is
    rebuilt in address order, survivors change generation. */
module FixedObjSweep {
  import opened Common
  import opened Arithmetic
  import opened FixedObjPage

  /** The words of a cell. */
  datatype Cell = Cell(head: Word, body: seq<Word>)

  function Zeros(n: nat): seq<Word> {
    seq(n, _ => Hole(0))
  }

  /** The size of `n` cells. */
  function Bytes(n: nat, spacing: nat): nat {
    n * spacing
  }

  /** The number of cells that `disp` bytes span. */
  function Span(disp: nat, spacing: nat): nat
    requires spacing > 0
  {
    disp / spacing
  }

  // ---- The chain of holes ----

  /** Indices of the holes from `i` on, in increasing order. */
  function HolesFrom(cells: seq<Cell>, i: nat): seq<nat>
    decreases |cells| - i
  {
    if i >= |cells| then [] else (if cells[i].head.Hole? then [i] else []) + HolesFrom(cells, i + 1)
  }

  /** The cells visited by following displacements from cell `i`. */
  function Follow(cells: seq<Cell>, spacing: nat, i: nat): seq<nat>
    requires spacing > 0
    decreases |cells| - i
  {
    if i >= |cells| || !cells[i].head.Hole? then []
    else [i] + Follow(cells, spacing, i + 1 + Span(cells[i].head.disp, spacing))
  }

  /** The first hole from `i` on, or the end. */
  function NextHole(cells: seq<Cell>, i: nat): (j: nat)
    requires i <= |cells|
    ensures i <= j <= |cells| && (j < |cells| ==> cells[j].head.Hole?)
    ensures forall k :: i <= k < j ==> !cells[k].head.Hole?
    decreases |cells| - i
  {
    if i == |cells| || cells[i].head.Hole? then i else NextHole(cells, i + 1)
  }

  /** The hole `i` stores the distance from its end to the next hole. */
  ghost predicate LinkOk(cells: seq<Cell>, spacing: nat, i: nat)
    requires i < |cells| && cells[i].head.Hole?
  {
    cells[i].head.disp == Bytes(NextHole(cells, i + 1) - i - 1, spacing)
  }

  lemma LinkMeans(cells: seq<Cell>, spacing: nat, i: nat)
    requires i < |cells| && cells[i].head.Hole?
    ensures LinkOk(cells, spacing, i) <==> cells[i].head.disp == Bytes(NextHole(cells, i + 1) - i - 1, spacing)
  {
  }

  /** All holes before `end` are linked. */
  ghost predicate LinkedBefore(cells: seq<Cell>, spacing: nat, end: int)
    requires end <= |cells|
  {
    forall i :: 0 <= i < end && cells[i].head.Hole? ==> LinkOk(cells, spacing, i)
  }

  ghost predicate Linked(cells: seq<Cell>, spacing: nat) {
    LinkedBefore(cells, spacing, |cells|)
  }

  /** Where the first hole is does not depend on what comes after it, nor on displacements. */
  lemma NextHoleSame(a: seq<Cell>, b: seq<Cell>, i: nat)
    requires i <= |a| <= |b|
    requires forall k :: i <= k < |a| ==> (a[k].head.Hole? <==> b[k].head.Hole?)
    requires NextHole(a, i) < |a| || |a| == |b|
    ensures NextHole(b, i) == NextHole(a, i)
  {
    var j, m := NextHole(a, i), NextHole(b, i);
    assert j < |a| ==> b[j].head.Hole?;
    assert m < |a| ==> a[m].head.Hole?;
  }

  lemma BytesDiv(n: nat, spacing: nat)
    requires spacing > 0
    ensures Span(Bytes(n, spacing), spacing) == n && Bytes(n, spacing) % spacing == 0
  {
    MultipleMod(n, spacing);
  }

  lemma {:induction false} HolesSkip(cells: seq<Cell>, i: nat, j: nat)
    requires i <= |cells| && j == NextHole(cells, i)
    ensures HolesFrom(cells, i) == HolesFrom(cells, j)
    decreases |cells| - i
  {
    if i < j { HolesSkip(cells, i + 1, j); }
  }

  /** Following the displacements from a hole visits exactly the holes from there on, in order. */
  lemma {:induction false} FollowVisitsHoles(cells: seq<Cell>, spacing: nat, i: nat)
    requires spacing > 0 && Linked(cells, spacing) && i <= |cells| && (i < |cells| ==> cells[i].head.Hole?)
    ensures Follow(cells, spacing, i) == HolesFrom(cells, i)
    decreases |cells| - i
  {
    hide Bytes, Span, LinkOk, NextHole;
    if i < |cells| {
      LinkMeans(cells, spacing, i);
      var j := NextHole(cells, i + 1);
      BytesDiv(j - i - 1, spacing);
      assert i + 1 + Span(cells[i].head.disp, spacing) == j;
      FollowVisitsHoles(cells, spacing, j);
      HolesSkip(cells, i + 1, j);
    }
  }

  lemma {:induction false} HolesFromContent(cells: seq<Cell>, i: nat, k: nat)
    ensures k in HolesFrom(cells, i) <==> i <= k < |cells| && cells[k].head.Hole?
    decreases |cells| - i
  {
    if i < |cells| { HolesFromContent(cells, i + 1, k); }
  }

  predicate Increasing(s: seq<nat>) {
    forall i, j :: 0 <= i < j < |s| ==> s[i] < s[j]
  }

  lemma {:induction false} HolesIncrease(cells: seq<Cell>, i: nat)
    ensures Increasing(HolesFrom(cells, i)) && forall k :: k in HolesFrom(cells, i) ==> i <= k
    decreases |cells| - i
  {
    if i < |cells| {
      HolesIncrease(cells, i + 1);
      var rest := HolesFrom(cells, i + 1);
      assert forall j :: 0 <= j < |rest| ==> rest[j] in rest;
    }
  }

  /** Following displacements from the free index visits exactly the holes, in increasing order. */
  ghost predicate ChainOk(cells: seq<Cell>, spacing: nat, freeIndex: nat)
    requires spacing > 0
  {
    var chain := Follow(cells, spacing, Span(freeIndex, spacing));
    Increasing(chain) && forall k: nat :: k in chain <==> k < |cells| && cells[k].head.Hole?
  }

  // ---- The generation mask ----

  /** What the sweep finds in a cell: a hole or an object; flagged objects are in the generation that
      survivors were moved to, and without raising that has only flagged ones. */
  ghost predicate CellReady(g: Gens, c: Cell) {
    c.head.Hole? || (c.head.Header? && (c.head.visited ==> c.head.gen == g.to) &&
                     (c.head.gen == SCRATCH_GENERATION ==> !g.raise && c.head.visited))
  }

  ghost predicate HasGeneration(cells: seq<Cell>, x: nat) {
    exists i :: 0 <= i < |cells| && cells[i].head.Header? && cells[i].head.gen == x
  }

  /** A generation other than `except` is in the mask if and only if some object is of it. */
  ghost predicate MaskIs(gens: set<nat>, cells: seq<Cell>, except: set<nat>) {
    && (forall i :: 0 <= i < |cells| && cells[i].head.Header? ==> cells[i].head.gen in gens)
    && (forall x :: x in gens && x !in except ==> HasGeneration(cells, x))
  }

  /** The new mask is exact if the old one was, where the old one may still have the collected
      generation. If no object is left it is empty. */
  lemma NewMaskIs(g: Gens, was: seq<Cell>, now: seq<Cell>, gens: set<nat>)
    requires g.Ok() && |was| == |now| && SweptTo(g, was, now, |was|) && MaskIs(gens, was, {g.from})
    requires forall i :: 0 <= i < |was| ==> CellReady(g, was[i])
    ensures MaskIs(NewMask(g, gens, SomeKept(g, was, |was|)), now, {})
    ensures (forall i :: 0 <= i < |now| ==> now[i].head.Hole?) <==> NewMask(g, gens, SomeKept(g, was, |was|)) == {}
  {
    var mask := NewMask(g, gens, SomeKept(g, was, |was|));
    forall i | 0 <= i < |now| && now[i].head.Header? ensures now[i].head.gen in mask {
      assert CellDone(g, was[i], now[i]) && CellReady(g, was[i]);
    }
    forall x | x in mask ensures HasGeneration(now, x) { GenerationStays(g, was, now, gens, x); }
    forall i | 0 <= i < |now| && !now[i].head.Hole? ensures mask != {} {
      assert CellDone(g, was[i], now[i]) && CellReady(g, was[i]);
    }
    if x :| x in mask { assert HasGeneration(now, x); }
  }

  lemma GenerationStays(g: Gens, was: seq<Cell>, now: seq<Cell>, gens: set<nat>, x: nat)
    requires g.Ok() && |was| == |now| && SweptTo(g, was, now, |was|) && MaskIs(gens, was, {g.from})
    requires forall i :: 0 <= i < |was| ==> CellReady(g, was[i])
    requires x in NewMask(g, gens, SomeKept(g, was, |was|))
    ensures HasGeneration(now, x)
  {
    if x == g.Target() && SomeKept(g, was, |was|) {
      var i :| 0 <= i < |was| && Kept(g, was[i].head);
      assert CellDone(g, was[i], now[i]);
    } else {
      assert HasGeneration(was, x);
      var i :| 0 <= i < |was| && was[i].head.Header? && was[i].head.gen == x;
      assert CellReady(g, was[i]) && CellDone(g, was[i], now[i]);
    }
  }

  // ---- The page ----

  class Page {
    var spacing: nat          // in bytes; 0 once the page is released
    var freeIndex: nat        // in bytes
    var gens: set<nat>        // generations with objects on this page
    var cells: array<Cell>

    constructor (spacing: nat, freeIndex: nat, gens: set<nat>, cells: array<Cell>)
      ensures this.spacing == spacing && this.freeIndex == freeIndex && this.gens == gens && this.cells == cells
    {
      this.spacing, this.freeIndex, this.gens, this.cells := spacing, freeIndex, gens, cells;
    }

    /** sweep_fixedobj_pages, for a page that has something in old or new space. */
    method Sweep(g: Gens)
      requires spacing > 0 && cells.Length > 0
      modifies this, cells
      ensures cells == old(cells)
      ensures SweptTo(g, old(cells[..]), cells[..], cells.Length)
      ensures Linked(cells[..], old(spacing))
      ensures var first := NextHole(cells[..], 0);
              freeIndex == if first < cells.Length then Bytes(first, old(spacing)) else old(freeIndex)
      ensures NextHole(cells[..], 0) < cells.Length ==> ChainOk(cells[..], old(spacing), freeIndex)
      ensures gens == NewMask(g, old(gens), SomeKept(g, old(cells[..]), cells.Length))
      ensures spacing == if gens == {} then 0 else old(spacing)
      ensures g.Ok() && MaskIs(old(gens), old(cells[..]), {g.from}) &&
              (forall i :: 0 <= i < cells.Length ==> CellReady(g, old(cells[..])[i])) ==>
                && MaskIs(gens, cells[..], {})
                && ((forall i :: 0 <= i < cells.Length ==> cells[i].head.Hole?) <==> gens == {} && spacing == 0)
    {
      hide Bytes, LinkedBefore, NextHole, NewMask, CellDone, SomeKept, ChainOk, MaskIs, CellReady;
      ghost var was := cells[..];
      var hole, anyKept := Scan(g);
      ghost var mid := cells[..];
      FinishChain(hole);
      StillSwept(g, was, mid, cells[..]);
      if hole >= 0 { ChainFromFreeIndex(cells[..], spacing, freeIndex); }
      if g.Ok() && MaskIs(gens, was, {g.from}) && forall i :: 0 <= i < |was| ==> CellReady(g, was[i]) {
        NewMaskIs(g, was, cells[..], gens);
      }
      gens := NewMask(g, gens, anyKept);
      if gens == {} {
        spacing := 0;
      }
    }

    /** The do-while loop over the cells. */
    method Scan(g: Gens) returns (hole: int, anyKept: bool)
      requires spacing > 0 && cells.Length > 0
      modifies this`freeIndex, cells
      ensures SweptTo(g, old(cells[..]), cells[..], cells.Length)
      ensures LastHole(cells[..], cells.Length, hole) && LinkedBefore(cells[..], spacing, hole)
      ensures freeIndex == if hole < 0 then old(freeIndex) else Bytes(NextHole(cells[..], 0), spacing)
      ensures anyKept <==> SomeKept(g, old(cells[..]), cells.Length)
    {
      ghost var was, free := cells[..], freeIndex;
      hole, anyKept := -1, false;
      ScanBegins(g, was, spacing, free);
      hide Scanned, SomeKept, SweptTo, LastHole, LinkedBefore, Bytes, NextHole;
      var n := cells.Length;
      for i := 0 to n
        invariant Scanned(g, was, cells[..], i, hole, spacing, freeIndex, free)
        invariant anyKept <==> SomeKept(g, was, i)
      {
        var kept;
        SomeKeptStep(g, was, i);
        hole, kept := Visit(g, i, hole, was, free);
        anyKept := anyKept || kept;
      }
      ScanEnds(g, was, cells[..], hole, spacing, freeIndex, free);
    }

    /** One cell of the scan; `hole` is the last hole seen so far, or -1. */
    method Visit(g: Gens, i: nat, hole: int, ghost was: seq<Cell>, ghost free: nat) returns (last: int, kept: bool)
      requires i < cells.Length == |was| && Scanned(g, was, cells[..], i, hole, spacing, freeIndex, free)
      modifies this`freeIndex, cells
      ensures Scanned(g, was, cells[..], i + 1, last, spacing, freeIndex, free)
      ensures kept <==> Kept(g, was[i].head)
    {
      hide Bytes, LinkedBefore, NextHole, CellDone, Zeros;
      ghost var before := cells[..i];
      last, kept := hole, false;
      DoneFacts(g, was[i]);
      if hole >= 0 { LinkKeepsDone(g, was[hole], cells[hole], Bytes(i - hole - 1, spacing)); }
      if cells[i].head.Hole? || Doomed(g, cells[i].head) {
        if Doomed(g, cells[i].head) {
          cells[i] := Cell(Hole(0), Zeros(|cells[i].body|));
        }
        if hole >= 0 {
          cells[hole] := cells[hole].(head := Hole(Bytes(i - hole - 1, spacing)));
        } else {
          freeIndex := Bytes(i, spacing);
        }
        LinkAtHole(before, cells[..i + 1], spacing, hole);
        last := i;
      } else {
        if Kept(g, cells[i].head) {
          cells[i] := cells[i].(head := Header(g.Target(), false));
          kept := true;
        }
        LinkPastObject(before, cells[..i + 1], spacing, hole);
      }
    }

    /** Terminate the chain of holes. */
    method FinishChain(hole: int)
      requires LastHole(cells[..], cells.Length, hole) && LinkedBefore(cells[..], spacing, hole)
      modifies cells
      ensures Linked(cells[..], spacing)
      ensures NextHole(cells[..], 0) == old(NextHole(cells[..], 0))
      ensures (NextHole(cells[..], 0) < cells.Length <==> hole >= 0)
      ensures forall k :: 0 <= k < cells.Length ==>
                SameButDisp(cells[k], old(cells[k])) && (k != hole ==> cells[k] == old(cells[k]))
    {
      hide Bytes, LinkedBefore, NextHole;
      ghost var before := cells[..];
      if hole >= 0 {
        cells[hole] := cells[hole].(head := Hole(Bytes(cells.Length - hole - 1, spacing)));
      }
      LinkEnd(before, cells[..], spacing, hole);
    }
  }

  /** The first `i` cells have their final form except for displacements, the rest are untouched, the
      holes before `hole`, the last one, are linked, and the free index is that of the first. */
  ghost predicate Scanned(g: Gens, was: seq<Cell>, now: seq<Cell>, i: nat, hole: int, spacing: nat, freeIndex: nat,
                          free: nat) {
    && |was| == |now| && i <= |now| && Untouched(was, now, i) && SweptTo(g, was, now, i)
    && LastHole(now[..i], i, hole) && LinkedBefore(now[..i], spacing, hole)
    && freeIndex == if hole < 0 then free else Bytes(NextHole(now[..i], 0), spacing)
  }

  lemma ScanBegins(g: Gens, cells: seq<Cell>, spacing: nat, free: nat)
    ensures Scanned(g, cells, cells, 0, -1, spacing, free, free) && !SomeKept(g, cells, 0)
  {
  }

  lemma ScanEnds(g: Gens, was: seq<Cell>, now: seq<Cell>, hole: int, spacing: nat, freeIndex: nat, free: nat)
    requires Scanned(g, was, now, |now|, hole, spacing, freeIndex, free)
    ensures |was| == |now| && SweptTo(g, was, now, |now|) && LastHole(now, |now|, hole)
    ensures LinkedBefore(now, spacing, hole)
    ensures freeIndex == if hole < 0 then free else Bytes(NextHole(now, 0), spacing)
  {
    assert now[..|now|] == now;
  }

  /** One of the first `n` cells has an object that is kept. */
  ghost predicate SomeKept(g: Gens, cells: seq<Cell>, n: nat) {
    exists i :: 0 <= i < n && i < |cells| && Kept(g, cells[i].head)
  }

  lemma SomeKeptStep(g: Gens, cells: seq<Cell>, n: nat)
    requires n < |cells|
    ensures SomeKept(g, cells, n + 1) <==> SomeKept(g, cells, n) || Kept(g, cells[n].head)
  {
  }

  lemma StillSwept(g: Gens, was: seq<Cell>, mid: seq<Cell>, now: seq<Cell>)
    requires |was| == |mid| == |now| && SweptTo(g, was, mid, |was|)
    requires forall k :: 0 <= k < |now| ==> SameButDisp(now[k], mid[k])
    ensures SweptTo(g, was, now, |was|)
  {
    forall k | 0 <= k < |was| ensures CellDone(g, was[k], now[k]) {
      assert CellDone(g, was[k], mid[k]) && SameButDisp(now[k], mid[k]);
    }
  }

  /** Equal up to the displacement of a hole. */
  ghost predicate SameButDisp(a: Cell, b: Cell) {
    a.body == b.body && (a.head == b.head || (a.head.Hole? && b.head.Hole?))
  }

  /** The cell has its final form, except for the displacement: a dead object is zero, a survivor
      keeps its words under its new generation. */
  ghost predicate CellDone(g: Gens, was: Cell, now: Cell) {
    if was.head.Hole? then now.head.Hole? && now.body == was.body
    else if was.head == Header(g.from, false) then
      now.head.Hole? && |now.body| == |was.body| && forall j :: 0 <= j < |now.body| ==> now.body[j] == Hole(0)
    else if was.head == Header(g.to, true) then
      now == Cell(Header(if g.raise then g.from + 1 else g.from, false), was.body)
    else now == was
  }

  /** The final forms of a cell. */
  lemma DoneFacts(g: Gens, c: Cell)
    ensures Doomed(g, c.head) ==> CellDone(g, c, Cell(Hole(0), Zeros(|c.body|)))
    ensures c.head.Hole? ==> CellDone(g, c, c)
    ensures Kept(g, c.head) ==> CellDone(g, c, c.(head := Header(g.Target(), false)))
    ensures !Doomed(g, c.head) && !Kept(g, c.head) ==> CellDone(g, c, c)
  {
  }

  lemma LinkKeepsDone(g: Gens, was: Cell, now: Cell, disp: nat)
    requires now.head.Hole?
    ensures CellDone(g, was, now) ==> CellDone(g, was, now.(head := Hole(disp)))
  {
  }

  ghost predicate SweptTo(g: Gens, was: seq<Cell>, now: seq<Cell>, i: nat)
    requires |was| == |now|
  {
    forall k :: 0 <= k < i && k < |was| ==> CellDone(g, was[k], now[k])
  }

  ghost predicate Untouched(was: seq<Cell>, now: seq<Cell>, i: nat)
    requires |was| == |now|
  {
    forall k :: i <= k < |was| ==> now[k] == was[k]
  }

  /** `hole` is the last hole before `i`, or -1. */
  ghost predicate LastHole(cells: seq<Cell>, i: nat, hole: int)
    requires i <= |cells|
  {
    -1 <= hole < i && (hole >= 0 ==> cells[hole].head.Hole?) && forall k :: hole < k < i ==> !cells[k].head.Hole?
  }

  lemma LinkPastObject(before: seq<Cell>, now: seq<Cell>, spacing: nat, hole: int)
    requires |now| == |before| + 1 && now[..|before|] == before && !now[|before|].head.Hole?
    requires LastHole(before, |before|, hole) && LinkedBefore(before, spacing, hole)
    ensures LinkedBefore(now, spacing, hole)
    ensures hole >= 0 ==> NextHole(now, 0) == NextHole(before, 0)
  {
    hide Bytes, LinkOk, NextHole;
    assert forall k :: 0 <= k < |before| ==> now[k] == now[..|before|][k] == before[k];
    forall i | 0 <= i < hole && now[i].head.Hole? ensures LinkOk(now, spacing, i) {
      SameLink(before, now, spacing, hole, i);
    }
    if hole >= 0 { NextHoleSame(before, now, 0); }
  }

  lemma SameLink(before: seq<Cell>, now: seq<Cell>, spacing: nat, hole: int, i: nat)
    requires |before| <= |now| && (forall k :: 0 <= k < |before| ==> now[k] == before[k])
    requires LastHole(before, |before|, hole) && LinkedBefore(before, spacing, hole) && i < hole && now[i].head.Hole?
    ensures LinkOk(now, spacing, i)
  {
    hide Bytes, LinkOk, NextHole;
    LinkMeans(now, spacing, i);
    LinkMeans(before, spacing, i);
    NextHoleSame(before, now, i + 1);
  }

  lemma LinkAtHole(before: seq<Cell>, now: seq<Cell>, spacing: nat, hole: int)
    requires |now| == |before| + 1 && now[|before|].head.Hole?
    requires LastHole(before, |before|, hole) && LinkedBefore(before, spacing, hole)
    requires now[..|before|] ==
               if hole >= 0 then before[hole := before[hole].(head := Hole(Bytes(|before| - hole - 1, spacing)))]
               else before
    ensures LinkedBefore(now, spacing, |before|)
    ensures NextHole(now, 0) == if hole >= 0 then NextHole(before, 0) else |before|
  {
    hide Bytes, LinkOk, NextHole;
    var mid := now[..|before|];
    assert forall k :: 0 <= k < |before| ==> now[k] == mid[k];
    forall i | 0 <= i < |before| && now[i].head.Hole? ensures LinkOk(now, spacing, i) {
      LinkBefore(before, mid, now, spacing, hole, i);
    }
    if hole >= 0 { NextHoleSame(before, now, 0); }
  }

  lemma LinkBefore(before: seq<Cell>, mid: seq<Cell>, now: seq<Cell>, spacing: nat, hole: int, i: nat)
    requires |now| == |before| + 1 && |mid| == |before| && now[|before|].head.Hole?
    requires forall k :: 0 <= k < |before| ==> now[k] == mid[k]
    requires LastHole(before, |before|, hole) && LinkedBefore(before, spacing, hole)
    requires mid ==
               if hole >= 0 then before[hole := before[hole].(head := Hole(Bytes(|before| - hole - 1, spacing)))]
               else before
    requires i < |before| && now[i].head.Hole?
    ensures LinkOk(now, spacing, i)
  {
    hide Bytes, LinkOk, NextHole;
    LinkMeans(now, spacing, i);
    if i < hole {
      LinkMeans(before, spacing, i);
      NextHoleSame(before, now, i + 1);
    } else {
      NextIsLast(now, i);
    }
  }

  lemma NextIsLast(cells: seq<Cell>, i: nat)
    requires i + 1 < |cells| && cells[|cells| - 1].head.Hole?
    requires forall k :: i < k < |cells| - 1 ==> !cells[k].head.Hole?
    ensures NextHole(cells, i + 1) == |cells| - 1
  {
  }

  lemma LinkEnd(before: seq<Cell>, now: seq<Cell>, spacing: nat, hole: int)
    requires |now| == |before| && LastHole(before, |before|, hole) && LinkedBefore(before, spacing, hole)
    requires now ==
               if hole >= 0 then before[hole := before[hole].(head := Hole(Bytes(|before| - hole - 1, spacing)))]
               else before
    ensures Linked(now, spacing)
    ensures NextHole(now, 0) == NextHole(before, 0) && (NextHole(now, 0) < |now| <==> hole >= 0)
  {
    hide Bytes, LinkOk, NextHole;
    forall i | 0 <= i < |now| && now[i].head.Hole? ensures LinkOk(now, spacing, i) {
      LinkAtEnd(before, now, spacing, hole, i);
    }
    LinkBelow(before, now, hole, 0);
  }

  lemma LinkAtEnd(before: seq<Cell>, now: seq<Cell>, spacing: nat, hole: int, i: nat)
    requires |now| == |before| && LastHole(before, |before|, hole) && LinkedBefore(before, spacing, hole)
    requires now ==
               if hole >= 0 then before[hole := before[hole].(head := Hole(Bytes(|before| - hole - 1, spacing)))]
               else before
    requires i < |now| && now[i].head.Hole?
    ensures LinkOk(now, spacing, i)
  {
    hide Bytes, LinkOk, NextHole;
    LinkMeans(now, spacing, i);
    if i < hole {
      LinkMeans(before, spacing, i);
      LinkBelow(before, now, hole, i + 1);
    } else {
      LinkPast(now, hole);
    }
  }

  lemma LinkBelow(before: seq<Cell>, now: seq<Cell>, hole: int, i: nat)
    requires |now| == |before| && LastHole(before, |before|, hole) && i <= |now|
    requires forall k :: 0 <= k < |now| ==> (now[k].head.Hole? <==> before[k].head.Hole?)
    ensures NextHole(now, i) == NextHole(before, i)
    ensures i <= hole ==> NextHole(now, i) <= hole
  {
    NextHoleSame(before, now, i);
  }

  lemma LinkPast(now: seq<Cell>, hole: int)
    requires LastHole(now, |now|, hole) && hole >= 0
    ensures NextHole(now, hole + 1) == |now|
  {
  }

  /** If the sweep leaves any hole, the chain that starts at the free index visits exactly the
      holes of the page, in increasing order. */
  lemma ChainFromFreeIndex(cells: seq<Cell>, spacing: nat, freeIndex: nat)
    requires spacing > 0 && Linked(cells, spacing) && NextHole(cells, 0) < |cells|
    requires freeIndex == Bytes(NextHole(cells, 0), spacing)
    ensures Follow(cells, spacing, Span(freeIndex, spacing)) == HolesFrom(cells, 0)
    ensures ChainOk(cells, spacing, freeIndex)
  {
    hide Bytes, Span, LinkOk, NextHole, Increasing;
    BytesDiv(NextHole(cells, 0), spacing);
    FollowVisitsHoles(cells, spacing, NextHole(cells, 0));
    HolesSkip(cells, 0, NextHole(cells, 0));
    HolesIncrease(cells, 0);
    forall k: nat ensures k in HolesFrom(cells, 0) <==> k < |cells| && cells[k].head.Hole? {
      HolesFromContent(cells, 0, k);
    }
  }

  /** On a page without objects every hole is followed by the next, so all displacements are 0, and so
      is the free index. */
  lemma EmptyPageIsBlank(cells: seq<Cell>, spacing: nat)
    requires Linked(cells, spacing) && |cells| > 0 && forall i :: 0 <= i < |cells| ==> cells[i].head.Hole?
    ensures forall i :: 0 <= i < |cells| ==> cells[i].head == Hole(0)
    ensures Bytes(NextHole(cells, 0), spacing) == 0 && NextHole(cells, 0) < |cells|
  {
    hide LinkOk, NextHole;
    forall i | 0 <= i < |cells| ensures cells[i].head == Hole(0) {
      LinkMeans(cells, spacing, i);
      assert i + 1 < |cells| ==> cells[i + 1].head.Hole?;
    }
    assert cells[0].head.Hole?;
  }

  // ---- The sweep of the cells is the sweep of the page ----

  /** The words of page `p` from offset `at` on are those of the cell. */
  ghost predicate CellShown(p: FixedObjPage.Page, spacing: nat, c: Cell, at: nat) {
    && WordAt(p, at) == c.head && |c.body| == spacing / 8 - 1
    && forall x: nat :: InsideAt(at, spacing, x) ==> WordAt(p, x) == c.body[(x - at) / 8 - 1]
  }

  /** A word offset behind the head of the cell at `at`. */
  predicate InsideAt(at: nat, spacing: nat, x: nat)
    ensures InsideAt(at, spacing, x) ==> 0 <= (x - at) / 8 - 1 < spacing / 8 - 1
  {
    at < x < at + spacing && (x - at) % 8 == 0 && spacing % 16 == 0
  }

  /** The page with this spacing consists of these cells. */
  ghost predicate Shows(p: FixedObjPage.Page, spacing: nat, cells: seq<Cell>) {
    && |p.words| == CARD_BYTES / 8 && SpacingOk(spacing) && |cells| == CARD_BYTES / spacing
    && forall i :: 0 <= i < |cells| ==> CellShown(p, spacing, cells[i], Bytes(i, spacing))
  }

  lemma BoundaryIndex(spacing: nat, at: nat)
    requires Boundary(spacing, at)
    ensures at / spacing < CARD_BYTES / spacing && Bytes(at / spacing, spacing) == at
  {
    DivPlusOne(at, spacing);
    DivMono(at + spacing, CARD_BYTES, spacing);
  }

  lemma IndexBoundary(spacing: nat, i: nat)
    requires spacing > 0 && i < CARD_BYTES / spacing
    ensures Boundary(spacing, Bytes(i, spacing))
  {
    MultipleMod(i, spacing);
    var n := CARD_BYTES / spacing;
    assert CARD_BYTES == n * spacing + CARD_BYTES % spacing;
    MulAtLeast(n - i, spacing);
    assert (n - i) * spacing == n * spacing - i * spacing;
  }

  lemma SweptCell(g: Gens, p: FixedObjPage.Page, q: FixedObjPage.Page, was: seq<Cell>, now: seq<Cell>, at: nat)
    requires PageOk(p) && Boundary(p.spacing, at) && Shows(p, p.spacing, was) && Shows(q, p.spacing, now)
    requires SweptTo(g, was, now, |was|) && Linked(now, p.spacing)
    ensures CellSwept(g, p, q, p.spacing, at)
  {
    hide Linked, LinkedBefore, LinkOk, Bytes, NextHole, CellShown, CellDone, BodyZero, CellSwept;
    var spacing, i := p.spacing, at / p.spacing;
    BoundaryIndex(spacing, at);
    BoundaryWord(spacing, at);
    assert CellShown(p, spacing, was[i], at) && CellShown(q, spacing, now[i], at) && CellDone(g, was[i], now[i]);
    LinkIsMultiple(now, spacing, i);
    HoleIsZero(p, spacing, was[i], at);
    OneCell(g, p, q, spacing, was[i], now[i], at);
  }

  lemma LinkIsMultiple(cells: seq<Cell>, spacing: nat, i: nat)
    requires spacing > 0 && Linked(cells, spacing) && i < |cells|
    ensures cells[i].head.Hole? ==> cells[i].head.disp % spacing == 0
  {
    hide Bytes, NextHole, LinkOk;
    if cells[i].head.Hole? {
      LinkMeans(cells, spacing, i);
      BytesDiv(NextHole(cells, i + 1) - i - 1, spacing);
    }
  }

  lemma HoleIsZero(p: FixedObjPage.Page, spacing: nat, c: Cell, at: nat)
    requires PageOk(p) && p.spacing == spacing && Boundary(spacing, at) && at % 8 == 0 && CellShown(p, spacing, c, at)
    ensures c.head.Hole? ==> forall x: nat :: InsideAt(at, spacing, x) ==> WordAt(p, x) == Hole(0)
  {
    hide CellShown;
    assert WordAt(p, at) == c.head by { HeadShown(p, spacing, c, at); }
    if c.head.Hole? {
      assert BodyZero(p, at);
      forall x: nat | InsideAt(at, spacing, x) ensures WordAt(p, x) == Hole(0) { SumMultiple(at, x - at, 8); }
    }
  }

  lemma HeadShown(p: FixedObjPage.Page, spacing: nat, c: Cell, at: nat)
    requires CellShown(p, spacing, c, at)
    ensures WordAt(p, at) == c.head
  {
  }

  lemma OneCell(g: Gens, p: FixedObjPage.Page, q: FixedObjPage.Page, spacing: nat, was: Cell, now: Cell, at: nat)
    requires SpacingOk(spacing) && at % 8 == 0 && CellShown(p, spacing, was, at) && CellShown(q, spacing, now, at)
    requires CellDone(g, was, now) && (now.head.Hole? ==> now.head.disp % spacing == 0)
    requires was.head.Hole? ==> forall x: nat :: InsideAt(at, spacing, x) ==> WordAt(p, x) == Hole(0)
    ensures CellSwept(g, p, q, spacing, at)
  {
    forall x: nat | at < x < at + spacing && x % 8 == 0
      ensures WordAt(q, x) == if Free(g, was.head) then Hole(0) else WordAt(p, x)
    {
      assert InsideAt(at, spacing, x);
    }
  }

  lemma BoundaryWord(spacing: nat, at: nat)
    requires Boundary(spacing, at) && SpacingOk(spacing)
    ensures at % 8 == 0
  {
    var x, y := at / spacing, spacing / 16;
    assert at == x * spacing && spacing == y * 16;
    assert at == (2 * x * y) * 8;
    MultipleMod(2 * x * y, 8);
  }

  /** What Sweep does to the cells of a page in order is what the allocator's pages are promised of a
      sweep. */
  lemma SweepIsPageStep(g: Gens, p: FixedObjPage.Page, q: FixedObjPage.Page, was: seq<Cell>, now: seq<Cell>)
    requires PageOk(p) && p.spacing != 0 && !(p.gens !! {g.from, g.to})
    requires Shows(p, p.spacing, was) && Shows(q, p.spacing, now)
    requires forall x: nat :: InTail(p.spacing, x) ==> WordAt(q, x) == WordAt(p, x)
    requires SweptTo(g, was, now, |was|) && Linked(now, p.spacing)
    requires q.freeIndex == var first := NextHole(now, 0);
               if first < |now| then Bytes(first, p.spacing)
               else p.freeIndex
    requires q.gens == NewMask(g, p.gens, SomeKept(g, was, |was|))
    requires q.spacing == if q.gens == {} then 0 else p.spacing
    ensures PageSwept(g, p, q)
  {
    hide Linked, LinkedBefore, Bytes, NextHole, SweptTo, Kept, Free, NewMask, CellSwept, PageOk, Shows;
    var spacing := p.spacing;
    forall at: nat | Boundary(spacing, at) ensures CellSwept(g, p, q, spacing, at) { SweptCell(g, p, q, was, now, at); }
    SpacingShown(p, was);
    BytesDiv(NextHole(now, 0), spacing);
    SameKept(g, p, was);
    if forall at: nat :: Boundary(spacing, at) ==> WordAt(q, at).Hole? {
      NoObjectsLeft(q, spacing, now);
    }
    assert |q.words| == |p.words| by { WordsShown(q, spacing, now); }
  }

  lemma WordsShown(p: FixedObjPage.Page, spacing: nat, cells: seq<Cell>)
    requires Shows(p, spacing, cells)
    ensures |p.words| == CARD_BYTES / 8
  {
  }

  lemma SpacingShown(p: FixedObjPage.Page, cells: seq<Cell>)
    requires Shows(p, p.spacing, cells)
    ensures SpacingOk(p.spacing) && |p.words| == CARD_BYTES / 8
  {
  }

  lemma SameKept(g: Gens, p: FixedObjPage.Page, cells: seq<Cell>)
    requires Shows(p, p.spacing, cells)
    ensures AnyKept(g, p) <==> SomeKept(g, cells, |cells|)
  {
    hide Bytes, Kept, Shows;
    HeadsShown(p, p.spacing, cells);
    if i :| 0 <= i < |cells| && Kept(g, cells[i].head) {
      assert Boundary(p.spacing, Bytes(i, p.spacing));
    }
  }

  lemma NoObjectsLeft(q: FixedObjPage.Page, spacing: nat, cells: seq<Cell>)
    requires Shows(q, spacing, cells) && Linked(cells, spacing)
    requires forall at: nat :: Boundary(spacing, at) ==> WordAt(q, at).Hole?
    ensures Bytes(NextHole(cells, 0), spacing) == 0 && NextHole(cells, 0) < |cells|
    ensures forall at: nat :: Boundary(spacing, at) ==> WordAt(q, at) == Hole(0)
  {
    hide Bytes, NextHole, LinkedBefore, CellShown;
    FullCells(spacing);
    HeadsShown(q, spacing, cells);
    EmptyPageIsBlank(cells, spacing);
  }

  lemma FullCells(spacing: nat)
    requires SpacingOk(spacing)
    ensures CARD_BYTES / spacing > 0
  {
    DivMono(spacing, CARD_BYTES, spacing);
    ModUnique(spacing, spacing, 1, 0);
  }

  /** Heads by offset and heads by index are the same. */
  lemma HeadsShown(p: FixedObjPage.Page, spacing: nat, cells: seq<Cell>)
    requires Shows(p, spacing, cells)
    ensures forall at: nat :: Boundary(spacing, at) ==>
              at / spacing < |cells| && WordAt(p, at) == cells[at / spacing].head
    ensures forall i :: 0 <= i < |cells| ==>
              Boundary(spacing, Bytes(i, spacing)) && WordAt(p, Bytes(i, spacing)) == cells[i].head
  {
    forall at: nat | Boundary(spacing, at) ensures at / spacing < |cells| && WordAt(p, at) == cells[at / spacing].head {
      BoundaryIndex(spacing, at);
      assert CellShown(p, spacing, cells[at / spacing], Bytes(at / spacing, spacing));
    }
    forall i | 0 <= i < |cells|
      ensures Boundary(spacing, Bytes(i, spacing)) && WordAt(p, Bytes(i, spacing)) == cells[i].head
    {
      IndexBoundary(spacing, i);
      assert CellShown(p, spacing, cells[i], Bytes(i, spacing));
    }
  }
}
