/** Exactly which key sets fit a hopscotch table of a given shape. A rehash inserts into an empty
    table, so between the bin of a key and its cell there is never a free cell; from this follows
    that the greedy displacement of hopscotch_insert gives up only if the keys cannot fit at all. */
module HopscotchFit {
  import opened Common
  import opened HopBits
  import opened HopscotchInvariant

  /** The keys whose bin lies in `a..b`, both included. */
  ghost function KeysBetween(sh: Shape, ks: set<int>, a: int, b: int): set<int>
    requires sh.Ok()
  {
    set x | x in ks && a <= sh.Bin(x) <= b
  }

  /** Every interval of bins has at most as many keys as there are cells in reach of it. */
  ghost predicate Fits(sh: Shape, ks: set<int>)
    requires sh.Ok()
  {
    forall a: nat, b: nat :: a <= b < sh.size ==> |KeysBetween(sh, ks, a, b)| <= b - a + sh.hopRange
  }

  /** Some interval of bins that ends in `p` has more keys than cells before `p`: then the keys
      overflow into cell `p`. */
  ghost predicate Filled(sh: Shape, ks: set<int>, p: nat)
    requires sh.Ok()
  {
    exists a: nat :: a <= p && |KeysBetween(sh, ks, a, p)| > p - a
  }

  /** Between the bin of a key and its cell there is no free cell, except possibly `gap`. */
  ghost predicate CompactBut(sh: Shape, k: seq<int>, at: map<int, nat>, gap: int)
    requires sh.Ok()
  {
    forall x, p: nat :: x in at && sh.Bin(x) <= p <= at[x] && p != gap && p < |k| ==> k[p] != 0
  }

  ghost predicate Compact(sh: Shape, k: seq<int>, at: map<int, nat>)
    requires sh.Ok()
  {
    CompactBut(sh, k, at, -1)
  }

  /** All cells of `lo..hi` except `gap` are occupied. */
  ghost predicate RunBut(k: seq<int>, lo: nat, hi: int, gap: int) {
    hi <= |k| && forall p: nat :: lo <= p < hi && p != gap ==> k[p] != 0
  }

  // ---- Insertion keeps the table compact ----

  lemma EmptyIsCompact(sh: Shape, k: seq<int>)
    requires sh.Ok()
    ensures Compact(sh, k, map[])
  {
  }

  lemma AnyGap(sh: Shape, k: seq<int>, at: map<int, nat>, gap: int)
    requires sh.Ok() && Compact(sh, k, at)
    ensures CompactBut(sh, k, at, gap)
  {
  }

  lemma OneCellPerKey(sh: Shape, k: seq<int>, h: seq<nat>, v: seq<int>, m: map<int, int>, at: map<int, nat>)
    requires Wf(sh, k, h, v, m, at)
    ensures forall x, y :: x in at && y in at && at[x] == at[y] ==> x == y
    ensures forall p :: 0 <= p < |k| && k[p] != 0 ==> k[p] in at && at[k[p]] == p
  {
    hide OwnersHold;
    forall x | x in at ensures at[x] < |k| && k[at[x]] == x { assert KeyPlaced(sh, k, h, v, m, at, x); }
  }

  lemma PlaceKeepsCompact(sh: Shape, k: seq<int>, at: map<int, nat>, key: int, free: nat)
    requires sh.Ok() && CompactBut(sh, k, at, free) && key != 0 && key !in at
    requires free < |k| && RunBut(k, sh.Bin(key), free, free)
    ensures Compact(sh, k[free := key], at[key := free])
  {
  }

  lemma MoveKeepsCompact(sh: Shape, k: seq<int>, at: map<int, nat>, p: nat, free: nat)
    requires sh.Ok() && CompactBut(sh, k, at, free) && p < free < |k| && k[p] != 0
    requires k[p] in at && at[k[p]] == p && RunBut(k, p, free, free)
    requires forall x, y :: x in at && y in at && at[x] == at[y] ==> x == y
    ensures CompactBut(sh, k[free := k[p]][p := 0], at[k[p] := free], p)
  {
  }

  lemma MoveKeepsRun(k: seq<int>, lo: nat, hi: int, p: nat, free: nat)
    requires RunBut(k, lo, hi, free) && p < free < |k| && k[p] != 0
    ensures RunBut(k[free := k[p]][p := 0], lo, hi, p)
  {
  }

  // ---- Counting keys and cells ----

  /** Keys in different cells of `lo..hi` are at most as many as the cells. */
  lemma {:induction false} KeysPerCells(k: seq<int>, at: map<int, nat>, ks: set<int>, lo: nat, hi: nat)
    requires lo <= hi <= |k|
    requires forall x :: x in ks ==> x in at && lo <= at[x] < hi && k[at[x]] == x
    ensures |ks| <= hi - lo
    decreases hi - lo
  {
    if lo == hi {
      assert forall x :: x !in ks;
      assert ks == {};
    } else {
      KeysPerCells(k, at, ks - {k[hi - 1]}, lo, hi - 1);
    }
  }

  /** The keys of the cells `lo..hi`. */
  ghost function KeysOf(k: seq<int>, lo: nat, hi: nat): set<int>
    requires hi <= |k|
  {
    set p: nat | lo <= p < hi :: k[p]
  }

  lemma {:induction false} KeysOfCard(k: seq<int>, at: map<int, nat>, lo: nat, hi: nat)
    requires lo <= hi <= |k|
    requires forall p: nat :: lo <= p < hi ==> k[p] in at && at[k[p]] == p
    ensures |KeysOf(k, lo, hi)| == hi - lo
    decreases hi - lo
  {
    if lo == hi {
      assert KeysOf(k, lo, hi) == {};
    } else {
      KeysOfCard(k, at, lo, hi - 1);
      assert KeysOf(k, lo, hi) == KeysOf(k, lo, hi - 1) + {k[hi - 1]};
      assert k[hi - 1] !in KeysOf(k, lo, hi - 1);
    }
  }

  /** Only if: what sits in a table fits. */
  lemma WfFits(sh: Shape, k: seq<int>, h: seq<nat>, v: seq<int>, m: map<int, int>, at: map<int, nat>)
    requires Wf(sh, k, h, v, m, at)
    ensures Fits(sh, m.Keys)
  {
    forall a: nat, b: nat | a <= b < sh.size ensures |KeysBetween(sh, m.Keys, a, b)| <= b - a + sh.hopRange {
      var ks := KeysBetween(sh, m.Keys, a, b);
      forall x | x in ks ensures x in at && a <= at[x] < b + sh.hopRange && k[at[x]] == x {
        assert KeyPlaced(sh, k, h, v, m, at, x);
      }
      KeysPerCells(k, at, ks, a, b + sh.hopRange);
    }
  }

  lemma FitsSubset(sh: Shape, a: set<int>, b: set<int>)
    requires sh.Ok() && a <= b && Fits(sh, b)
    ensures Fits(sh, a)
  {
    forall lo: nat, hi: nat | lo <= hi < sh.size ensures |KeysBetween(sh, a, lo, hi)| <= hi - lo + sh.hopRange {
      SubsetCard(KeysBetween(sh, a, lo, hi), KeysBetween(sh, b, lo, hi));
    }
  }

  /** One more pair is copied: the keys so far are among all the keys. */
  lemma CopyStep(sh: Shape, src: Shape, k: seq<int>, h: seq<nat>, v: seq<int>, m: map<int, int>, at: map<int, nat>,
                 i: nat)
    requires sh.Ok() && Wf(src, k, h, v, m, at) && i < |k|
    ensures |v| == |k| && (k[i] == 0 ==> From(m, at, i) == From(m, at, i + 1))
    ensures k[i] != 0 ==> k[i] !in From(m, at, i + 1) && From(m, at, i) == From(m, at, i + 1)[k[i] := v[i]]
    ensures k[i] != 0 && Fits(sh, m.Keys) ==> Fits(sh, From(m, at, i + 1).Keys + {k[i]})
  {
    hide OwnersHold, KeysPlaced, CellsListed, Fits, From, IsPow2;
    FromStep(src, k, h, v, m, at, i);
    FromSubset(m, at, i);
    if k[i] != 0 && Fits(sh, m.Keys) {
      assert From(m, at, i).Keys == From(m, at, i + 1).Keys + {k[i]};
      FitsSubset(sh, From(m, at, i).Keys, m.Keys);
    }
  }

  /** Where the run of occupied cells around `p` begins. */
  ghost function RunStart(k: seq<int>, p: nat): (s: nat)
    requires p < |k|
    ensures s <= p && (k[p] != 0 ==> forall q: nat :: s <= q <= p ==> k[q] != 0) && (s == 0 || k[s - 1] == 0)
  {
    if p == 0 || k[p - 1] == 0 then p else RunStart(k, p - 1)
  }

  /** The keys of an occupied run that begins after a free cell have their bins in the run. */
  lemma RunBins(sh: Shape, k: seq<int>, h: seq<nat>, v: seq<int>, m: map<int, int>, at: map<int, nat>, gap: int, s: nat,
                p: nat)
    requires Wf(sh, k, h, v, m, at) && CompactBut(sh, k, at, gap)
    requires s <= p < |k| && (forall q: nat :: s <= q <= p ==> k[q] != 0) && (s == 0 || (k[s - 1] == 0 && s - 1 != gap))
    ensures k[p] in at && at[k[p]] == p && k[p] in m && s <= sh.Bin(k[p]) <= p
  {
    hide OwnersHold;
    assert k[p] in at && at[k[p]] == p;
    assert KeyPlaced(sh, k, h, v, m, at, k[p]);
  }

  /** More keys than cells for an interval of bins. */
  lemma Overfull(sh: Shape, ks: set<int>, some: set<int>, a: nat, b: nat)
    requires sh.Ok() && a <= b < sh.size && some <= KeysBetween(sh, ks, a, b) && |some| > b - a + sh.hopRange
    ensures !Fits(sh, ks)
  {
    SubsetCard(some, KeysBetween(sh, ks, a, b));
  }

  /** If no cell to the right of the bin is free, the keys of the run and the new one cannot fit. */
  lemma NoFreeCell(sh: Shape, k: seq<int>, h: seq<nat>, v: seq<int>, m: map<int, int>, at: map<int, nat>, key: int)
    requires Wf(sh, k, h, v, m, at) && Compact(sh, k, at) && key !in m
    requires RunBut(k, sh.Bin(key), |k|, -1)
    ensures !Fits(sh, m.Keys + {key})
  {
    hide OwnersHold, KeysPlaced, CellsListed, CompactBut, IsPow2, And, Fits;
    BinBelowSize(sh, key);
    var s := RunStart(k, sh.Bin(key));
    forall p: nat | s <= p < |k| ensures k[p] in at && at[k[p]] == p && k[p] in m && s <= sh.Bin(k[p]) < sh.size {
      RunBins(sh, k, h, v, m, at, -1, s, p);
      BinBelowSize(sh, k[p]);
    }
    RunOverfull(sh, k, at, m.Keys, key, s, |k|, sh.size - 1);
  }

  /** Nor can they if the free cell is too far away and nothing can be moved into it. */
  lemma StuckCell(sh: Shape, k: seq<int>, h: seq<nat>, v: seq<int>, m: map<int, int>, at: map<int, nat>, key: int,
                  free: nat)
    requires Wf(sh, k, h, v, m, at) && CompactBut(sh, k, at, free) && key !in m
    requires sh.Bin(key) + sh.hopRange <= free < |k| && RunBut(k, sh.Bin(key), free, free)
    requires StuckAt(sh, h, free)
    ensures !Fits(sh, m.Keys + {key})
  {
    hide OwnersHold, KeysPlaced, CellsListed, StuckAt, CompactBut, IsPow2, And, Fits;
    var s, b := RunStart(k, sh.Bin(key)), free - sh.hopRange;
    forall p: nat | s <= p < free ensures k[p] in at && at[k[p]] == p && k[p] in m && s <= sh.Bin(k[p]) <= b {
      RunBins(sh, k, h, v, m, at, free, s, p);
      StuckBins(sh, k, h, v, m, at, free, p);
    }
    assert b < sh.size;
    hide Wf, RunBut;
    RunOverfull(sh, k, at, m.Keys, key, s, free, b);
  }

  /** The keys in the cells `s..end` and one more have their bins in `s..b`, where there are fewer cells. */
  lemma RunOverfull(sh: Shape, k: seq<int>, at: map<int, nat>, ks: set<int>, key: int, s: nat, end: nat, b: nat)
    requires sh.Ok() && s <= end <= |k| && b < sh.size && b + sh.hopRange <= end && key !in ks && s <= sh.Bin(key) <= b
    requires forall p: nat :: s <= p < end ==> k[p] in at && at[k[p]] == p && k[p] in ks && s <= sh.Bin(k[p]) <= b
    ensures !Fits(sh, ks + {key})
  {
    hide Fits, And, IsPow2;
    KeysOfCard(k, at, s, end);
    Overfull(sh, ks + {key}, KeysOf(k, s, end) + {key}, s, b);
  }

  /** No bin within reach of the free cell owns a cell to the left of it. */
  ghost predicate StuckAt(sh: Shape, h: seq<nat>, free: nat)
    requires |h| == sh.size
  {
    forall b: nat, j: nat :: free < b + sh.hopRange && b < free && b < sh.size && Bit(h[b], j) ==> b + j >= free
  }

  lemma StuckBins(sh: Shape, k: seq<int>, h: seq<nat>, v: seq<int>, m: map<int, int>, at: map<int, nat>, free: nat,
                  p: nat)
    requires Wf(sh, k, h, v, m, at) && StuckAt(sh, h, free) && p < free && p < |k| && k[p] in at && at[k[p]] == p
    ensures sh.Bin(k[p]) <= free - sh.hopRange
  {
    hide OwnersHold;
    assert KeyPlaced(sh, k, h, v, m, at, k[p]);
    var b, j: nat := sh.Bin(k[p]), p - sh.Bin(k[p]);
    assert Bit(h[b], j);
  }

  /** The bin of the key in cell `p` claims the cell. */
  lemma OwnBit(sh: Shape, k: seq<int>, h: seq<nat>, v: seq<int>, m: map<int, int>, at: map<int, nat>, p: nat)
    requires Wf(sh, k, h, v, m, at) && p < |k| && k[p] != 0
    ensures sh.Bin(k[p]) < sh.size && sh.Bin(k[p]) <= p && Bit(h[sh.Bin(k[p])], p - sh.Bin(k[p]))
  {
    hide OwnersHold;
    assert KeyPlaced(sh, k, h, v, m, at, k[p]);
  }

  // ---- Room in any table ----

  /** The keys in the cells `b..c`, all of them occupied, cannot leave these cells, and neither can a
      key of bin `b`: keys move only to the right, and none of these reaches `c`. */
  ghost predicate Blocked(sh: Shape, k: seq<int>, b: nat, c: nat)
    requires sh.Ok() && c <= |k|
  {
    b + sh.hopRange <= c && forall p: nat :: b <= p < c ==> sh.Bin(k[p]) + sh.hopRange <= c
  }

  ghost predicate FirstFree(k: seq<int>, b: nat, f: nat) {
    b <= f < |k| && k[f] == 0 && RunBut(k, b, f, f)
  }

  /** There is a free cell to the right of the bin, and no block up to it. */
  ghost predicate HasRoom(sh: Shape, k: seq<int>, b: nat)
    requires sh.Ok()
  {
    exists f: nat :: FirstFree(k, b, f) && forall c: nat :: c <= f ==> !Blocked(sh, k, b, c)
  }

  lemma RoomUpTo(sh: Shape, k: seq<int>, b: nat, f: nat)
    requires sh.Ok() && FirstFree(k, b, f)
    ensures HasRoom(sh, k, b) <==> forall c: nat :: c <= f ==> !Blocked(sh, k, b, c)
  {
    if g: nat :| FirstFree(k, b, g) && forall c: nat :: c <= g ==> !Blocked(sh, k, b, c) {
      assert g == f;
    }
  }

  lemma FreeBinHasRoom(sh: Shape, k: seq<int>, b: nat)
    requires sh.Ok() && b < |k| && k[b] == 0
    ensures HasRoom(sh, k, b)
  {
    assert FirstFree(k, b, b);
  }

  /** While the free cell moves left from `start` to `free`, the cells before it are as they were, and
      no block is passed. */
  ghost predicate Shifted(sh: Shape, k0: seq<int>, k: seq<int>, b: nat, start: nat, free: nat)
    requires sh.Ok()
  {
    && |k| == |k0| && b <= free <= start < |k0| && (forall p :: b <= p < free ==> k[p] == k0[p])
    && forall c: nat :: c <= start && Blocked(sh, k0, b, c) ==> c <= free
  }

  lemma ShiftStep(sh: Shape, k0: seq<int>, k: seq<int>, b: nat, start: nat, free: nat, next: nat)
    requires sh.Ok() && Shifted(sh, k0, k, b, start, free) && b <= next < free && free < sh.Bin(k[next]) + sh.hopRange
    ensures Shifted(sh, k0, k[free := k[next]][next := 0], b, start, next)
  {
  }

  /** The key that is moved into the free cell: of the keys to its left that reach it the one with the
      lowest bin, and in that bin the first. */
  ghost predicate IsVictim(sh: Shape, k: seq<int>, free: nat, p: nat)
    requires sh.Ok() && free <= |k|
  {
    && p < free && k[p] != 0 && free < sh.Bin(k[p]) + sh.hopRange
    && forall q: nat :: q < free && k[q] != 0 && free < sh.Bin(k[q]) + sh.hopRange ==>
         sh.Bin(k[p]) < sh.Bin(k[q]) || (sh.Bin(k[p]) == sh.Bin(k[q]) && p <= q)
  }

  /** In the key column `k0` the free cell is pulled left from `start`, one victim at a time, as long as
      it is out of reach of bin `b`; this has led to the column `k` with the free cell `free`. */
  ghost predicate Pulled(sh: Shape, b: nat, k0: seq<int>, start: nat, k: seq<int>, free: nat)
    requires sh.Ok()
    decreases start - free
  {
    || (k == k0 && free == start)
    || exists k1: seq<int>, f: nat ::
         && free < f <= start && f < |k1| && b + sh.hopRange <= f && Pulled(sh, b, k0, start, k1, f)
         && IsVictim(sh, k1, f, free) && k == k1[f := k1[free]][free := 0]
  }

  lemma PullOnce(sh: Shape, b: nat, k0: seq<int>, start: nat, k1: seq<int>, f: nat, free: nat)
    requires sh.Ok() && Pulled(sh, b, k0, start, k1, f) && b + sh.hopRange <= f <= start && f < |k1|
    requires IsVictim(sh, k1, f, free)
    ensures Pulled(sh, b, k0, start, k1[f := k1[free]][free := 0], free)
  {
  }

  /** The key column after an insertion that does not size the table up: the first free cell from the
      key's bin on is pulled within reach, and the key is put there. */
  ghost predicate Hopped(sh: Shape, k0: seq<int>, key: int, k: seq<int>)
    requires sh.Ok()
  {
    exists start: nat, k1: seq<int>, free: nat ::
      && FirstFree(k0, sh.Bin(key), start) && Pulled(sh, sh.Bin(key), k0, start, k1, free)
      && free < |k1| && free < sh.Bin(key) + sh.hopRange && k == k1[free := key]
  }

  /** The first of the displacements. */
  lemma {:induction false} FirstPull(sh: Shape, b: nat, k0: seq<int>, start: nat, k: seq<int>, free: nat)
    returns (p: nat)
    requires sh.Ok() && Pulled(sh, b, k0, start, k, free) && free < start < |k0|
    ensures b + sh.hopRange <= start && free <= p && IsVictim(sh, k0, start, p)
    ensures Pulled(sh, b, k0[start := k0[p]][p := 0], p, k, free)
    decreases start - free
  {
    var k1: seq<int>, f: nat :|
      && free < f <= start && f < |k1| && b + sh.hopRange <= f && Pulled(sh, b, k0, start, k1, f)
      && IsVictim(sh, k1, f, free) && k == k1[f := k1[free]][free := 0];
    if f == start {
      p := free;
      PulledNowhere(sh, b, k0, start, k1);
    } else {
      p := FirstPull(sh, b, k0, start, k1, f);
      hide IsVictim;
      PullOnce(sh, b, k0[start := k0[p]][p := 0], p, k1, f, free);
    }
  }

  lemma PulledNowhere(sh: Shape, b: nat, k0: seq<int>, start: nat, k: seq<int>)
    requires sh.Ok() && Pulled(sh, b, k0, start, k, start)
    ensures k == k0
  {
  }

  lemma PulledBound(sh: Shape, b: nat, k0: seq<int>, start: nat, k: seq<int>, free: nat)
    requires sh.Ok() && Pulled(sh, b, k0, start, k, free)
    ensures free <= start
  {
  }

  lemma {:induction false} PulledIsUnique(sh: Shape, b: nat, k0: seq<int>, start: nat, k: seq<int>, free: nat,
                                          k': seq<int>, free': nat)
    requires sh.Ok() && start < |k0| && free < b + sh.hopRange && free' < b + sh.hopRange
    requires Pulled(sh, b, k0, start, k, free) && Pulled(sh, b, k0, start, k', free')
    ensures k == k' && free == free'
    decreases start
  {
    hide Pulled;
    PulledBound(sh, b, k0, start, k, free);
    PulledBound(sh, b, k0, start, k', free');
    if free < start && free' < start {
      var p := FirstPull(sh, b, k0, start, k, free);
      var p' := FirstPull(sh, b, k0, start, k', free');
      assert p == p';
      PulledIsUnique(sh, b, k0[start := k0[p]][p := 0], p, k, free, k', free');
    } else if free == start {
      PulledNowhere(sh, b, k0, start, k);
      if free' < start { var _ := FirstPull(sh, b, k0, start, k', free'); }
      PulledNowhere(sh, b, k0, start, k');
    } else {
      PulledNowhere(sh, b, k0, start, k');
      var _ := FirstPull(sh, b, k0, start, k, free);
    }
  }

  /** The key column after an insertion is determined by the column before it. */
  lemma HoppedIsUnique(sh: Shape, k0: seq<int>, key: int, k: seq<int>, k': seq<int>)
    requires sh.Ok() && Hopped(sh, k0, key, k) && Hopped(sh, k0, key, k')
    ensures k == k'
  {
    var b := sh.Bin(key);
    hide Pulled;
    var start: nat, k1: seq<int>, free: nat :| FirstFree(k0, b, start) && Pulled(sh, b, k0, start, k1, free)
      && free < |k1| && free < b + sh.hopRange && k == k1[free := key];
    var start': nat, k1': seq<int>, free': nat :| FirstFree(k0, b, start') && Pulled(sh, b, k0, start', k1', free')
      && free' < |k1'| && free' < b + sh.hopRange && k' == k1'[free' := key];
    assert start == start';
    PulledIsUnique(sh, b, k0, start, k1, free, k1', free');
  }

  lemma HoppedTo(sh: Shape, k0: seq<int>, key: int, start: nat, k1: seq<int>, free: nat)
    requires sh.Ok() && FirstFree(k0, sh.Bin(key), start) && Pulled(sh, sh.Bin(key), k0, start, k1, free)
    requires free < |k1| && free < sh.Bin(key) + sh.hopRange
    ensures Hopped(sh, k0, key, k1[free := key])
  {
  }

  lemma NoBlockPassed(sh: Shape, k0: seq<int>, k: seq<int>, b: nat, start: nat, free: nat)
    requires sh.Ok() && Shifted(sh, k0, k, b, start, free) && free < b + sh.hopRange
    ensures forall c: nat :: c <= start ==> !Blocked(sh, k0, b, c)
  {
  }

  /** Where nothing can be moved into the free cell, there is a block. */
  lemma StuckIsBlocked(sh: Shape, k0: seq<int>, k: seq<int>, h: seq<nat>, v: seq<int>, m: map<int, int>,
                       at: map<int, nat>, b: nat, start: nat, free: nat)
    requires Wf(sh, k, h, v, m, at) && StuckAt(sh, h, free) && Shifted(sh, k0, k, b, start, free)
    requires b + sh.hopRange <= free && RunBut(k, b, free, free)
    ensures Blocked(sh, k0, b, free)
  {
    hide OwnersHold, KeysPlaced, CellsListed, StuckAt;
    forall p: nat | b <= p < free ensures sh.Bin(k0[p]) + sh.hopRange <= free {
      CellOfKey(sh, k, h, v, m, at, p);
      StuckBins(sh, k, h, v, m, at, free, p);
    }
  }

  lemma CellOfKey(sh: Shape, k: seq<int>, h: seq<nat>, v: seq<int>, m: map<int, int>, at: map<int, nat>, p: nat)
    requires Wf(sh, k, h, v, m, at) && p < |k| && k[p] != 0
    ensures k[p] in at && at[k[p]] == p
  {
  }

  /** In a compact table the occupied cells are determined by the bins of the keys. */
  lemma FilledIff(sh: Shape, k: seq<int>, h: seq<nat>, v: seq<int>, m: map<int, int>, at: map<int, nat>, p: nat)
    requires Wf(sh, k, h, v, m, at) && Compact(sh, k, at) && p < |k|
    ensures k[p] != 0 <==> Filled(sh, m.Keys, p)
  {
    hide OwnersHold, KeysPlaced, CellsListed;
    if k[p] != 0 {
      var s := RunStart(k, p);
      forall q: nat | s <= q < p + 1 ensures k[q] in at && at[k[q]] == q && k[q] in m && s <= sh.Bin(k[q]) <= p {
        RunBins(sh, k, h, v, m, at, -1, s, q);
      }
      KeysOfCard(k, at, s, p + 1);
      SubsetCard(KeysOf(k, s, p + 1), KeysBetween(sh, m.Keys, s, p));
    } else {
      forall a: nat | a <= p ensures |KeysBetween(sh, m.Keys, a, p)| <= p - a {
        FreeCellBound(sh, k, h, v, m, at, a, p);
      }
    }
  }

  lemma FreeCellBound(sh: Shape, k: seq<int>, h: seq<nat>, v: seq<int>, m: map<int, int>, at: map<int, nat>, a: nat,
                      p: nat)
    requires Wf(sh, k, h, v, m, at) && Compact(sh, k, at) && a <= p < |k| && k[p] == 0
    ensures |KeysBetween(sh, m.Keys, a, p)| <= p - a
  {
    hide OwnersHold;
    var ks := KeysBetween(sh, m.Keys, a, p);
    forall x | x in ks ensures x in at && a <= at[x] < p && k[at[x]] == x {
      assert KeyPlaced(sh, k, h, v, m, at, x);
    }
    KeysPerCells(k, at, ks, a, p);
  }

  // ---- Doubling ----

  /** Default choice of the hop range for a table of `size` bins. */
  function DefaultHopRange(size: nat): nat
  {
    if size <= 1023 then 8 else if size <= 16384 then 16 else 32
  }

  /** The two hash functions, and whether the mixing one was asked for from the start. */
  datatype Hashing = Hashing(plain: int -> nat, mix: int -> nat, mixAlways: bool)
  {
    /** The table that hopscotch_resize_up builds with `n` bins: a large one mixes. */
    function ShapeFor(n: nat): Shape {
      var range := DefaultHopRange(n);
      Shape(n, range, if mixAlways || range > 16 then mix else plain)
    }
  }

  /** The load at which a table is not filled further. */
  function Threshold(sh: Shape): nat
    requires sh.hopRange > 0
  {
    sh.Cells() * 13 / 16
  }

  /** A compact table with the keys `ks` takes the further key: all of them fit, and the load is
      below the threshold or the key's own bin is free. */
  ghost predicate Accepts(sh: Shape, ks: set<int>, key: int)
    requires sh.Ok()
  {
    Fits(sh, ks + {key}) && (|ks| < Threshold(sh) || !Filled(sh, ks, sh.Bin(key)))
  }

  function Doubled(n: nat, times: nat): nat
    decreases times
  {
    if times == 0 then n else Doubled(2 * n, times - 1)
  }

  lemma {:induction false} DoubledIsPow2(n: nat, times: nat)
    requires IsPow2(n)
    ensures IsPow2(Doubled(n, times)) && Doubled(n, times) >= n + times
    decreases times
  {
    if times > 0 {
      DoubledIsPow2(2 * n, times - 1);
    }
  }

  lemma {:induction false} DoubledSum(n: nat, i: nat, j: nat)
    ensures Doubled(Doubled(n, i), j) == Doubled(n, i + j)
    decreases i
  {
    if i > 0 {
      DoubledSum(2 * n, i - 1, j);
    }
  }

  /** Some attempt among the next `fuel` doublings of a table of `n` bins holds the keys. */
  ghost predicate FitsLater(hs: Hashing, n: nat, fuel: int, ks: set<int>)
  {
    exists j: nat :: 1 <= j <= fuel && FitsAfter(hs, n, j, ks)
  }

  ghost predicate FitsAfter(hs: Hashing, n: nat, j: nat, ks: set<int>)
  {
    var sh := hs.ShapeFor(Doubled(n, j));
    sh.Ok() && Fits(sh, ks)
  }

  /** Some table among the next `fuel` doublings takes the further key. */
  ghost predicate TakenLater(hs: Hashing, n: nat, fuel: nat, ks: set<int>, key: int)
  {
    exists j: nat :: 1 <= j <= fuel && TakenAfter(hs, n, j, ks, key)
  }

  ghost predicate TakenAfter(hs: Hashing, n: nat, j: nat, ks: set<int>, key: int)
  {
    var sh := hs.ShapeFor(Doubled(n, j));
    sh.Ok() && Accepts(sh, ks, key)
  }

  lemma TakenFits(hs: Hashing, n: nat, j: nat, ks: set<int>, key: int)
    requires IsPow2(n) && TakenAfter(hs, n, j, ks, key)
    ensures FitsAfter(hs, n, j, ks)
  {
    DoubledIsPow2(n, j);
    FitsSubset(hs.ShapeFor(Doubled(n, j)), ks, ks + {key});
  }

  lemma NoneTaken(hs: Hashing, n: nat, fuel: nat, ks: set<int>, key: int)
    requires IsPow2(n) && !FitsLater(hs, n, fuel, ks)
    ensures !TakenLater(hs, n, fuel, ks, key)
  {
    if j: nat :| 1 <= j <= fuel && TakenAfter(hs, n, j, ks, key) {
      TakenFits(hs, n, j, ks, key);
    }
  }

  lemma DoubledOnce(n: nat, times: nat)
    ensures Doubled(n, times + 1) == 2 * Doubled(n, times)
  {
    DoubledSum(n, times, 1);
    assert Doubled(Doubled(n, times), 1) == Doubled(2 * Doubled(n, times), 0);
  }

  lemma NoTryYet(hs: Hashing, n: nat, ks: set<int>)
    requires IsPow2(n)
    ensures !FitsLater(hs, n, 0, ks)
  {
  }

  /** Attempt number `tries + 1`. */
  lemma OneMoreTry(hs: Hashing, n: nat, tries: nat, fuel: nat, ks: set<int>)
    requires IsPow2(n) && !FitsLater(hs, n, tries, ks) && tries < fuel
    ensures Doubled(n, tries + 1) == 2 * Doubled(n, tries) && IsPow2(Doubled(n, tries + 1))
    ensures hs.ShapeFor(Doubled(n, tries + 1)).Ok()
    ensures FitsLater(hs, n, tries + 1, ks) <==> Fits(hs.ShapeFor(Doubled(n, tries + 1)), ks)
    ensures FitsLater(hs, n, tries + 1, ks) ==> FitsLater(hs, n, fuel, ks)
  {
    DoubledIsPow2(n, tries + 1);
    DoubledOnce(n, tries);
    assert FitsAfter(hs, n, tries + 1, ks) <==> Fits(hs.ShapeFor(Doubled(n, tries + 1)), ks);
    hide FitsAfter;
  }

  lemma TakenMeans(hs: Hashing, n: nat, j: nat, ks: set<int>, key: int)
    requires IsPow2(n)
    ensures Doubled(n, j) >= n + j && hs.ShapeFor(Doubled(n, j)).Ok()
    ensures TakenAfter(hs, n, j, ks, key) <==> Accepts(hs.ShapeFor(Doubled(n, j)), ks, key)
  {
    DoubledIsPow2(n, j);
  }

  /** Attempts before the first one that holds the keys do not matter. */
  lemma TakenFromFirstFit(hs: Hashing, n: nat, first: nat, fuel: nat, ks: set<int>, key: int)
    requires IsPow2(n) && 1 <= first <= fuel && !FitsLater(hs, n, first - 1, ks)
    ensures IsPow2(Doubled(n, first))
    ensures TakenLater(hs, n, fuel, ks, key) <==>
            TakenAfter(hs, n, first, ks, key) || TakenLater(hs, Doubled(n, first), fuel - first, ks, key)
  {
    DoubledIsPow2(n, first);
    forall j: nat | 1 <= j < first ensures !TakenAfter(hs, n, j, ks, key) {
      if TakenAfter(hs, n, j, ks, key) { TakenFits(hs, n, j, ks, key); }
    }
    forall j: nat ensures TakenAfter(hs, Doubled(n, first), j, ks, key) <==> TakenAfter(hs, n, first + j, ks, key) {
      DoubledSum(n, first, j);
    }
    hide TakenAfter, FitsAfter;
    if TakenLater(hs, n, fuel, ks, key) {
      var j: nat :| 1 <= j <= fuel && TakenAfter(hs, n, j, ks, key);
      assert j > first ==> TakenAfter(hs, Doubled(n, first), j - first, ks, key);
    }
    if TakenLater(hs, Doubled(n, first), fuel - first, ks, key) {
      var j: nat :| 1 <= j <= fuel - first && TakenAfter(hs, Doubled(n, first), j, ks, key);
      assert TakenAfter(hs, n, first + j, ks, key);
    }
  }

  /** The table has `to` bins: the first of the doubled sizes that takes the further key. */
  ghost predicate GrownTo(hs: Hashing, n: nat, fuel: nat, ks: set<int>, key: int, to: nat)
  {
    exists j: nat ::
      1 <= j <= fuel && TakenAfter(hs, n, j, ks, key) && !TakenLater(hs, n, j - 1, ks, key) && to == Doubled(n, j)
  }

  lemma GrownHere(hs: Hashing, n: nat, first: nat, fuel: nat, ks: set<int>, key: int)
    requires IsPow2(n) && 1 <= first <= fuel && !FitsLater(hs, n, first - 1, ks) && TakenAfter(hs, n, first, ks, key)
    ensures GrownTo(hs, n, fuel, ks, key, Doubled(n, first))
  {
    hide TakenAfter, FitsLater, TakenLater, IsPow2;
    NoneTaken(hs, n, first - 1, ks, key);
  }

  lemma GrownFurther(hs: Hashing, n: nat, first: nat, fuel: nat, ks: set<int>, key: int, to: nat)
    requires IsPow2(n) && 1 <= first <= fuel && !FitsLater(hs, n, first - 1, ks) && !TakenAfter(hs, n, first, ks, key)
    requires GrownTo(hs, Doubled(n, first), fuel - first, ks, key, to)
    ensures GrownTo(hs, n, fuel, ks, key, to)
  {
    var m := Doubled(n, first);
    var j: nat :| 1 <= j <= fuel - first && TakenAfter(hs, m, j, ks, key) && !TakenLater(hs, m, j - 1, ks, key)
                  && to == Doubled(m, j);
    DoubledSum(n, first, j);
    assert TakenAfter(hs, n, first + j, ks, key);
    hide TakenAfter, FitsLater, TakenLater, IsPow2;
    TakenFromFirstFit(hs, n, first, first + j - 1, ks, key);
  }

  lemma TakenSooner(hs: Hashing, n: nat, fuel: nat, more: nat, ks: set<int>, key: int)
    requires TakenLater(hs, n, fuel, ks, key) && fuel <= more
    ensures TakenLater(hs, n, more, ks, key)
  {
    hide TakenAfter;
  }

  // ---- When doubling ends ----

  lemma {:induction false} DoubledAtLeast(n: nat, times: nat)
    requires n >= 1
    ensures Doubled(n, times) >= Pow2(times)
    decreases times
  {
    if times > 0 {
      DoubledSum(n, times - 1, 1);
      DoubledAtLeast(n, times - 1);
      var before := Doubled(n, times - 1);
      assert Doubled(before, 1) == Doubled(2 * before, 0) == 2 * before;
    }
  }

  ghost predicate Hashes32(hs: Hashing, ks: set<int>) {
    forall x :: x in ks ==> hs.mix(x) < Pow2(32)
  }

  lemma LargeShape(hs: Hashing, n: nat)
    requires IsPow2(n) && n >= Pow2(32)
    ensures hs.ShapeFor(n) == Shape(n, 32, hs.mix)
  {
    Pow2Grows(15, 32);
    assert Pow2(15) == 32768 by { GroupWidths(); Pow2Fifteen(); }
  }

  lemma Pow2Fifteen()
    ensures Pow2(15) == 32768
  {
    GroupWidths();
    assert Pow2(15) == 2 * Pow2(14) == 4 * Pow2(13) == 8 * Pow2(12) == 16 * Pow2(11);
    assert Pow2(11) == 2 * Pow2(10) == 4 * Pow2(9) == 8 * Pow2(8);
  }

  /** From 2^32 bins on the bin of a key is its whole hash. */
  lemma LargeBin(hs: Hashing, n: nat, x: int)
    requires IsPow2(n) && n >= Pow2(32) && hs.mix(x) < Pow2(32)
    ensures hs.ShapeFor(n).Bin(x) == hs.mix(x)
  {
    hide Pow2, IsPow2;
    LargeShape(hs, n);
    BinBelowSize(hs.ShapeFor(n), x);
    SmallMod(hs.mix(x), n);
  }

  /** So larger tables hold no more than one of 2^32 bins. */
  lemma LargeTablesAgree(hs: Hashing, n: nat, ks: set<int>)
    requires IsPow2(n) && n >= Pow2(32) && Hashes32(hs, ks)
    ensures IsPow2(Pow2(32)) && hs.ShapeFor(Pow2(32)).Ok()
    ensures Fits(hs.ShapeFor(n), ks) <==> Fits(hs.ShapeFor(Pow2(32)), ks)
  {
    hide Pow2, IsPow2;
    Pow2IsPow2(32);
    LargeShape(hs, n);
    LargeShape(hs, Pow2(32));
    var sh, big := hs.ShapeFor(n), hs.ShapeFor(Pow2(32));
    forall x | x in ks ensures sh.Bin(x) == big.Bin(x) == hs.mix(x) < Pow2(32) {
      LargeBin(hs, n, x);
      LargeBin(hs, Pow2(32), x);
    }
    hide Hashing.ShapeFor;
    if Fits(sh, ks) {
      forall a: nat, b: nat | a <= b < big.size ensures |KeysBetween(big, ks, a, b)| <= b - a + big.hopRange {
        assert KeysBetween(big, ks, a, b) == KeysBetween(sh, ks, a, b);
      }
    }
    if Fits(big, ks) {
      forall a: nat, b: nat | a <= b < sh.size ensures |KeysBetween(sh, ks, a, b)| <= b - a + sh.hopRange {
        var top := if b < big.size then b else big.size - 1;
        if a <= top {
          assert KeysBetween(sh, ks, a, b) == KeysBetween(big, ks, a, top);
        } else {
          assert KeysBetween(sh, ks, a, b) == {};
        }
      }
    }
  }

  /** Exactly when doubling a table until it takes a further key comes to an end: one of the first
      32 doublings does, or all keys fit in a table of 2^32 bins. */
  lemma DoublingEndsIff(hs: Hashing, n: nat, ks: set<int>, key: int)
    requires IsPow2(n) && Hashes32(hs, ks + {key})
    ensures IsPow2(Pow2(32)) && hs.ShapeFor(Pow2(32)).Ok()
    ensures (exists j: nat :: j >= 1 && TakenAfter(hs, n, j, ks, key)) <==>
            TakenLater(hs, n, 32, ks, key) || Fits(hs.ShapeFor(Pow2(32)), ks + {key})
  {
    hide Pow2, IsPow2, Fits, Filled, Hashes32, Hashing.ShapeFor;
    Pow2IsPow2(32);
    LargeTablesAgree(hs, Pow2(32), ks + {key});
    if j: nat :| j >= 1 && TakenAfter(hs, n, j, ks, key) {
      if j > 32 {
        DoubledIsPow2(n, j);
        LargeAfter(n, j);
        LargeTablesAgree(hs, Doubled(n, j), ks + {key});
      }
    }
    if Fits(hs.ShapeFor(Pow2(32)), ks + {key}) {
      LargeTableTakes(hs, n, ks, key);
    }
  }

  lemma LargeAfter(n: nat, j: nat)
    requires IsPow2(n) && j >= 32
    ensures Doubled(n, j) >= Pow2(32)
  {
    DoubledAtLeast(n, j);
    Pow2Grows(32, j);
  }

  /** A table so large that the load threshold does not matter. */
  lemma LargeTableTakes(hs: Hashing, n: nat, ks: set<int>, key: int)
    requires IsPow2(n) && Hashes32(hs, ks + {key}) && IsPow2(Pow2(32)) && hs.ShapeFor(Pow2(32)).Ok()
    requires Fits(hs.ShapeFor(Pow2(32)), ks + {key})
    ensures TakenLater(hs, n, 32 + 2 * |ks|, ks, key)
  {
    hide Pow2, IsPow2, Fits, Filled, Hashes32;
    var j := 32 + 2 * |ks|;
    DoubledIsPow2(n, j);
    LargeAfter(n, j);
    var large := Doubled(n, j);
    LargeTablesAgree(hs, large, ks + {key});
    LargeShape(hs, large);
    hide Hashing.ShapeFor;
    assert Threshold(hs.ShapeFor(large)) > |ks|;
    assert TakenAfter(hs, n, j, ks, key);
  }

  /** The mixing hash tells all these keys apart in 32 bits. */
  ghost predicate HashesDiffer(hs: Hashing, ks: set<int>)
  {
    Hashes32(hs, ks) && forall x, y :: x in ks && y in ks && hs.mix(x) == hs.mix(y) ==> x == y
  }

  /** Keys that differ in their mixing hash fit in a table of 2^32 bins. */
  lemma DifferentHashesFit(hs: Hashing, ks: set<int>)
    requires HashesDiffer(hs, ks)
    ensures hs.ShapeFor(Pow2(32)).Ok() && Fits(hs.ShapeFor(Pow2(32)), ks)
  {
    hide Pow2, IsPow2;
    Pow2IsPow2(32);
    LargeShape(hs, Pow2(32));
    var big := hs.ShapeFor(Pow2(32));
    forall x | x in ks ensures big.Bin(x) == hs.mix(x) { LargeBin(hs, Pow2(32), x); }
    hide Hashing.ShapeFor;
    forall a: nat, b: nat | a <= b < big.size ensures |KeysBetween(big, ks, a, b)| <= b - a + big.hopRange {
      SpreadCount(big, KeysBetween(big, ks, a, b), a, b + 1);
    }
  }

  /** So doubling until they fit always ends. */
  lemma DifferentHashesEnd(hs: Hashing, n: nat, ks: set<int>, key: int)
    requires IsPow2(n) && HashesDiffer(hs, ks + {key})
    ensures TakenLater(hs, n, 32 + 2 * |ks|, ks, key)
  {
    hide Pow2, IsPow2, Fits, TakenLater, Hashing.ShapeFor;
    Pow2IsPow2(32);
    DifferentHashesFit(hs, ks + {key});
    LargeTableTakes(hs, n, ks, key);
  }

  lemma {:induction false} SpreadCount(sh: Shape, ks: set<int>, lo: nat, hi: nat)
    requires sh.Ok() && lo <= hi && forall x :: x in ks ==> lo <= sh.Bin(x) < hi
    requires forall x, y :: x in ks && y in ks && sh.Bin(x) == sh.Bin(y) ==> x == y
    ensures |ks| <= hi - lo
    decreases hi - lo
  {
    if lo == hi {
      assert forall x :: x !in ks;
      assert ks == {};
    } else if x :| x in ks && sh.Bin(x) == hi - 1 {
      SpreadCount(sh, ks - {x}, lo, hi - 1);
    } else {
      SpreadCount(sh, ks, lo, hi - 1);
    }
  }

  /** More keys with the same bin than the largest hop range do not fit. */
  lemma CrowdNeverFits(hs: Hashing, n: nat, ks: set<int>, crowd: set<int>)
    requires IsPow2(n) && crowd <= ks && |crowd| > 32
    requires forall x, y :: x in crowd && y in crowd ==> hs.ShapeFor(n).Bin(x) == hs.ShapeFor(n).Bin(y)
    ensures hs.ShapeFor(n).Ok() && !Fits(hs.ShapeFor(n), ks)
  {
    hide And;
    var sh := hs.ShapeFor(n);
    var x := AnElement(crowd);
    BinBelowSize(sh, x);
    Overfull(sh, ks, crowd, sh.Bin(x), sh.Bin(x));
  }
}
