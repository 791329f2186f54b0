/** Bookkeeping over the pool of code blobs, `src/runtime/immobile-space.c`: the high-water
    mark of the text space and, for each page, the lowest used block that starts on it. The
    pool itself is a sequence of physical blocks, as the two-level allocator keeps them. */
module CodePool {
  import opened Common
  import opened Arithmetic

  const USHRT_MAX: nat := 65535

  /** A physical block; addresses and sizes are in bytes. */
  datatype Block = Block(start: nat, size: nat, used: bool)

  function End(b: Block): nat { b.start + b.size }

  // ---- The pool ----

  /** The blocks lie end to end from `mem`; the last is an empty sentinel that counts as used,
      and of two neighbours at least one is used. */
  predicate PoolOk(blocks: seq<Block>, mem: nat) {
    && |blocks| > 0 && blocks[0].start == mem
    && blocks[|blocks| - 1].size == 0 && blocks[|blocks| - 1].used
    && (forall i :: 0 <= i < |blocks| - 1 ==> blocks[i].size > 0)
    && (forall i :: 0 < i < |blocks| ==> End(blocks[i - 1]) == blocks[i].start)
    && (forall i :: 0 < i < |blocks| ==> blocks[i - 1].used || blocks[i].used)
  }

  function Sentinel(blocks: seq<Block>): nat
    requires |blocks| > 0
  {
    blocks[|blocks| - 1].start
  }

  /** The blocks that hold code. */
  ghost function Used(blocks: seq<Block>): set<Block> {
    set i | 0 <= i < |blocks| - 1 && blocks[i].used :: blocks[i]
  }

  /** The first `size` bytes of the free block `i` become used; what is left stays free. */
  function AllocIn(blocks: seq<Block>, i: nat, size: nat): seq<Block>
    requires i < |blocks| && size <= blocks[i].size
  {
    var b := blocks[i];
    var rest := if size < b.size then [Block(b.start + size, b.size - size, false)] else [];
    blocks[..i] + [Block(b.start, size, true)] + rest + blocks[i + 1..]
  }

  predicate Releasable(blocks: seq<Block>, i: nat) {
    i < |blocks| - 1 && blocks[i].used
  }

  /** The first block that is merged with block `i` when it becomes free, and the first after it
      that is not. */
  function MergeFrom(blocks: seq<Block>, i: nat): nat
    requires i < |blocks|
  {
    if i > 0 && !blocks[i - 1].used then i - 1 else i
  }

  function MergeTo(blocks: seq<Block>, i: nat): nat
    requires i < |blocks| - 1
  {
    if blocks[i + 1].used then i + 1 else i + 2
  }

  /** Block `i` becomes free and merges with its free neighbours. */
  function FreeIn(blocks: seq<Block>, i: nat): (r: seq<Block>)
    requires Releasable(blocks, i) && blocks[|blocks| - 1].used
  {
    var lo, hi := MergeFrom(blocks, i), MergeTo(blocks, i);
    var size: int := blocks[hi].start - blocks[lo].start;
    blocks[..lo] + [Block(blocks[lo].start, if size > 0 then size else 0, false)] + blocks[hi..]
  }

  lemma {:induction false} Ordered(blocks: seq<Block>, mem: nat, i: nat, j: nat)
    requires PoolOk(blocks, mem) && i < j < |blocks|
    ensures blocks[i].start < End(blocks[i]) <= blocks[j].start
  {
    if i + 1 < j {
      Ordered(blocks, mem, i, j - 1);
    }
  }

  lemma {:induction false} FromMem(blocks: seq<Block>, mem: nat, i: nat)
    requires PoolOk(blocks, mem) && i < |blocks|
    ensures mem <= blocks[i].start
  {
    if i > 0 {
      Ordered(blocks, mem, 0, i);
    }
  }

  /** The blocks from `lo` to `hi` are replaced by others that cover the same memory. */
  function Splice(blocks: seq<Block>, lo: nat, hi: nat, mid: seq<Block>): seq<Block>
    requires lo <= hi <= |blocks|
  {
    blocks[..lo] + mid + blocks[hi..]
  }

  lemma SpliceAt(blocks: seq<Block>, lo: nat, hi: nat, mid: seq<Block>, k: nat)
    requires lo <= hi <= |blocks|
    ensures var r := Splice(blocks, lo, hi, mid);
            && |r| == lo + |mid| + |blocks| - hi
            && (k < |r| ==>
                  r[k] ==
                    if k < lo then blocks[k]
                    else if k < lo + |mid| then mid[k - lo]
                    else blocks[k - lo - |mid| + hi])
  {
  }

  lemma SpliceKeepsPool(blocks: seq<Block>, mem: nat, lo: nat, hi: nat, mid: seq<Block>)
    requires PoolOk(blocks, mem) && lo < hi < |blocks| && |mid| > 0
    requires mid[0].start == blocks[lo].start && End(mid[|mid| - 1]) == blocks[hi].start
    requires forall k :: 0 <= k < |mid| ==> mid[k].size > 0
    requires forall k :: 0 < k < |mid| ==> End(mid[k - 1]) == mid[k].start && (mid[k - 1].used || mid[k].used)
    requires mid[0].used || lo == 0 || blocks[lo - 1].used
    requires mid[|mid| - 1].used || blocks[hi].used
    ensures PoolOk(Splice(blocks, lo, hi, mid), mem)
    ensures Sentinel(Splice(blocks, lo, hi, mid)) == Sentinel(blocks)
  {
    var r := Splice(blocks, lo, hi, mid);
    hide Splice;
    SpliceAt(blocks, lo, hi, mid, 0);
    SpliceAt(blocks, lo, hi, mid, |r| - 1);
    forall k | 0 <= k < |r| - 1 ensures r[k].size > 0 { SpliceAt(blocks, lo, hi, mid, k); }
    forall k | 0 < k < |r| ensures End(r[k - 1]) == r[k].start && (r[k - 1].used || r[k].used) {
      SpliceAt(blocks, lo, hi, mid, k - 1);
      SpliceAt(blocks, lo, hi, mid, k);
    }
  }

  /** A used block of the spliced pool is one of the new ones or one that was kept. */
  ghost predicate Kept(blocks: seq<Block>, lo: nat, hi: nat, b: Block) {
    exists k :: 0 <= k < |blocks| - 1 && (k < lo || k >= hi) && blocks[k].used && blocks[k] == b
  }

  lemma SpliceUsed(blocks: seq<Block>, lo: nat, hi: nat, mid: seq<Block>, b: Block)
    requires lo < hi < |blocks|
    ensures b in Used(Splice(blocks, lo, hi, mid)) <==> (b in mid && b.used) || Kept(blocks, lo, hi, b)
  {
    var r, shift := Splice(blocks, lo, hi, mid), lo + |mid| - hi;
    hide Splice;
    SpliceAt(blocks, lo, hi, mid, 0);
    if b in Used(r) {
      var k :| 0 <= k < |r| - 1 && r[k].used && r[k] == b;
      SpliceAt(blocks, lo, hi, mid, k);
      assert !(lo <= k < lo + |mid|) ==> blocks[if k < lo then k else k - shift] == b;
    }
    if b in mid && b.used {
      var k :| 0 <= k < |mid| && mid[k] == b;
      SpliceAt(blocks, lo, hi, mid, lo + k);
      assert r[lo + k] == b;
    }
    if k :| 0 <= k < |blocks| - 1 && (k < lo || k >= hi) && blocks[k].used && blocks[k] == b {
      var j := if k < lo then k else k + shift;
      SpliceAt(blocks, lo, hi, mid, j);
      assert r[j] == b;
    }
  }

  /** Allocation keeps the pool and adds exactly the new block to the used ones. */
  lemma AllocKeepsPool(blocks: seq<Block>, mem: nat, i: nat, size: nat)
    requires PoolOk(blocks, mem) && i < |blocks| && !blocks[i].used && 0 < size <= blocks[i].size
    ensures var r := AllocIn(blocks, i, size);
            && PoolOk(r, mem) && Sentinel(r) == Sentinel(blocks)
            && Used(r) == Used(blocks) + {Block(blocks[i].start, size, true)}
  {
    var taken := Block(blocks[i].start, size, true);
    var rest := if size < blocks[i].size then [Block(blocks[i].start + size, blocks[i].size - size, false)] else [];
    var r, mid := AllocIn(blocks, i, size), [taken] + rest;
    assert r == Splice(blocks, i, i + 1, mid);
    hide AllocIn, Splice;
    SpliceKeepsPool(blocks, mem, i, i + 1, mid);
    forall b ensures b in Used(r) <==> b in Used(blocks) + {taken} {
      SpliceUsed(blocks, i, i + 1, mid, b);
      assert b in mid && b.used <==> b == taken;
    }
  }

  /** Release keeps the pool and takes exactly the block from the used ones. */
  lemma FreeKeepsPool(blocks: seq<Block>, mem: nat, i: nat)
    requires PoolOk(blocks, mem) && Releasable(blocks, i)
    ensures var r := FreeIn(blocks, i);
            && PoolOk(r, mem) && Sentinel(r) == Sentinel(blocks)
            && Used(r) == Used(blocks) - {blocks[i]}
  {
    var r, lo, hi := FreeIn(blocks, i), MergeFrom(blocks, i), MergeTo(blocks, i);
    Ordered(blocks, mem, lo, hi);
    var mid := [Block(blocks[lo].start, blocks[hi].start - blocks[lo].start, false)];
    assert r == Splice(blocks, lo, hi, mid);
    hide FreeIn, Splice;
    SpliceKeepsPool(blocks, mem, lo, hi, mid);
    forall b ensures b in Used(r) <==> b in Used(blocks) && b != blocks[i] {
      SpliceUsed(blocks, lo, hi, mid, b);
      OthersAreKept(blocks, mem, i, b);
    }
  }

  lemma OthersAreKept(blocks: seq<Block>, mem: nat, i: nat, b: Block)
    requires PoolOk(blocks, mem) && Releasable(blocks, i)
    ensures Kept(blocks, MergeFrom(blocks, i), MergeTo(blocks, i), b) <==> b in Used(blocks) && b != blocks[i]
  {
    var lo, hi := MergeFrom(blocks, i), MergeTo(blocks, i);
    if k :| 0 <= k < |blocks| - 1 && (k < lo || k >= hi) && blocks[k].used && blocks[k] == b {
      if k < i { Ordered(blocks, mem, k, i); } else { Ordered(blocks, mem, i, k); }
    }
  }

  /** Used blocks do not overlap, and lie between the start of the pool and its sentinel. */
  ghost predicate Spread(used: set<Block>, mem: nat, sentinel: nat) {
    && (forall b :: b in used ==> mem <= b.start < End(b) <= sentinel)
    && (forall b, c :: b in used && c in used && b != c ==> End(b) <= c.start || End(c) <= b.start)
  }

  lemma UsedIsSpread(blocks: seq<Block>, mem: nat)
    requires PoolOk(blocks, mem)
    ensures Spread(Used(blocks), mem, Sentinel(blocks))
  {
    forall b | b in Used(blocks) ensures mem <= b.start < End(b) <= Sentinel(blocks) {
      var i :| 0 <= i < |blocks| - 1 && blocks[i] == b;
      FromMem(blocks, mem, i);
      Ordered(blocks, mem, i, |blocks| - 1);
    }
    forall b, c | b in Used(blocks) && c in Used(blocks) && b != c ensures End(b) <= c.start || End(c) <= b.start {
      var i :| 0 <= i < |blocks| - 1 && blocks[i] == b;
      var j :| 0 <= j < |blocks| - 1 && blocks[j] == c;
      if i < j { Ordered(blocks, mem, i, j); } else { Ordered(blocks, mem, j, i); }
    }
  }

  // ---- The high-water mark ----

  /** The end of the last used block, or the start of the pool if none is used. */
  ghost predicate IsHighWater(used: set<Block>, mem: nat, hwm: nat) {
    && (forall b :: b in used ==> End(b) <= hwm)
    && (if used == {} then hwm == mem else exists b :: b in used && End(b) == hwm)
  }

  /** The mark after the release of block `i`: if it was the last, the start of the free block
      before it, or of the block itself. */
  function LoweredMark(blocks: seq<Block>, i: nat, hwm: nat): nat
    requires i < |blocks|
  {
    if End(blocks[i]) == hwm then blocks[MergeFrom(blocks, i)].start else hwm
  }

  lemma FreeKeepsMark(blocks: seq<Block>, mem: nat, i: nat, hwm: nat)
    requires PoolOk(blocks, mem) && Releasable(blocks, i) && IsHighWater(Used(blocks), mem, hwm)
    ensures IsHighWater(Used(blocks) - {blocks[i]}, mem, LoweredMark(blocks, i, hwm))
  {
    var rest := Used(blocks) - {blocks[i]};
    if End(blocks[i]) == hwm {
      LastIsReleased(blocks, mem, i, hwm);
    } else {
      var b :| b in Used(blocks) && End(b) == hwm by { assert blocks[i] in Used(blocks); }
      assert b in rest;
    }
  }

  lemma LastIsReleased(blocks: seq<Block>, mem: nat, i: nat, hwm: nat)
    requires PoolOk(blocks, mem) && Releasable(blocks, i) && IsHighWater(Used(blocks), mem, hwm)
    requires End(blocks[i]) == hwm
    ensures IsHighWater(Used(blocks) - {blocks[i]}, mem, blocks[MergeFrom(blocks, i)].start)
  {
    var rest, lo := Used(blocks) - {blocks[i]}, MergeFrom(blocks, i);
    forall b | b in rest ensures exists j :: 0 <= j < lo && blocks[j] == b {
      var j :| 0 <= j < |blocks| - 1 && blocks[j].used && blocks[j] == b;
      if j > i { Ordered(blocks, mem, i, j); }
      assert b in Used(blocks);
    }
    forall b | b in rest ensures End(b) <= blocks[lo].start {
      var j :| 0 <= j < lo && blocks[j] == b;
      Ordered(blocks, mem, j, lo);
    }
    if lo > 0 {
      assert blocks[lo - 1] in Used(blocks);
      Ordered(blocks, mem, lo - 1, i);
      assert blocks[lo - 1] in rest;
    }
  }

  // ---- The scan starts ----

  ghost predicate OnPage(a: nat, page: nat) {
    a / CARD_BYTES == page
  }

  /** The block is the lowest used one that starts on the page. */
  ghost predicate IsLowest(used: set<Block>, page: nat, b: Block) {
    && b in used && OnPage(b.start, page)
    && forall c :: c in used && OnPage(c.start, page) ==> b.start <= c.start
  }

  ghost predicate StartsOn(used: set<Block>, page: nat) {
    exists b :: b in used && OnPage(b.start, page)
  }

  /** What is recorded for a page: the offset of the lowest used block that starts there; if there
      is none, the maximum, or the offset of the sentinel. */
  ghost predicate IsScanStart(used: set<Block>, sentinel: nat, page: nat, offset: nat) {
    if StartsOn(used, page) then
      exists b :: IsLowest(used, page, b) && offset == b.start % CARD_BYTES
    else
      offset == USHRT_MAX || (OnPage(sentinel, page) && offset == sentinel % CARD_BYTES)
  }

  /** On one page, offsets are ordered as addresses are. */
  lemma SamePage(a: nat, b: nat)
    requires a / CARD_BYTES == b / CARD_BYTES
    ensures a <= b <==> a % CARD_BYTES <= b % CARD_BYTES
    ensures a == b <==> a % CARD_BYTES == b % CARD_BYTES
  {
  }

  lemma AllocKeepsScanStart(used: set<Block>, mem: nat, sentinel: nat, page: nat, offset: nat, b: Block)
    requires Spread(used + {b}, mem, sentinel) && b !in used && IsScanStart(used, sentinel, page, offset)
    ensures var at := b.start % CARD_BYTES;
            IsScanStart(used + {b}, sentinel, page, if OnPage(b.start, page) && at < offset then at else offset)
  {
    var grown := used + {b};
    if StartsOn(used, page) {
      var c :| IsLowest(used, page, c) && offset == c.start % CARD_BYTES;
      if OnPage(b.start, page) {
        SamePage(b.start, c.start);
      }
      assert IsLowest(grown, page, if OnPage(b.start, page) && b.start < c.start then b else c);
    } else if OnPage(b.start, page) {
      assert b in grown;
      if OnPage(sentinel, page) { SamePage(b.start, sentinel); }
      assert IsLowest(grown, page, b);
    } else {
      assert !StartsOn(grown, page);
    }
  }

  /** `next` is where the next used block after `b` starts, or the sentinel. */
  ghost predicate IsNext(used: set<Block>, sentinel: nat, b: Block, next: nat) {
    && b.start < next <= sentinel
    && (forall c :: c in used && c.start > b.start ==> next <= c.start)
    && (next == sentinel || exists c :: c in used && c.start == next)
  }

  lemma FreeKeepsScanStart(used: set<Block>, mem: nat, sentinel: nat, page: nat, offset: nat, b: Block, next: nat)
    requires Spread(used, mem, sentinel) && b in used && IsScanStart(used, sentinel, page, offset)
    requires IsNext(used, sentinel, b, next)
    ensures var lowered := if OnPage(next, page) then next % CARD_BYTES else USHRT_MAX;
            IsScanStart(used - {b}, sentinel, page,
                        if OnPage(b.start, page) && b.start % CARD_BYTES == offset then lowered else offset)
  {
    var rest := used - {b};
    if OnPage(b.start, page) {
      var c :| IsLowest(used, page, c) && offset == c.start % CARD_BYTES;
      SamePage(b.start, c.start);
      if b.start % CARD_BYTES != offset {
        assert IsLowest(rest, page, c);
      } else {
        LowestIsNext(used, mem, sentinel, page, b, next);
      }
    } else if StartsOn(used, page) {
      var c :| IsLowest(used, page, c) && offset == c.start % CARD_BYTES;
      assert IsLowest(rest, page, c);
    }
  }

  /** Without its lowest block a page begins with the next used one, if that starts there. */
  lemma LowestIsNext(used: set<Block>, mem: nat, sentinel: nat, page: nat, b: Block, next: nat)
    requires Spread(used, mem, sentinel) && IsLowest(used, page, b) && IsNext(used, sentinel, b, next)
    ensures IsScanStart(used - {b}, sentinel, page, if OnPage(next, page) then next % CARD_BYTES else USHRT_MAX)
  {
    var rest := used - {b};
    forall c | c in rest && OnPage(c.start, page) ensures next <= c.start {
      assert b.start <= c.start;
    }
    if c :| c in used && c.start == next {
      if OnPage(next, page) {
        assert IsLowest(rest, page, c);
      } else {
        assert !StartsOn(rest, page) by {
          DivMono(b.start, next, CARD_BYTES);
          forall d | d in rest ensures !OnPage(d.start, page) {
            if next <= d.start { DivMono(next, d.start, CARD_BYTES); }
          }
        }
      }
    } else {
      forall c | c in rest && OnPage(c.start, page) ensures c.start < sentinel { }
      assert !StartsOn(rest, page);
    }
  }

  /** The used block after a used one is its neighbour, or the neighbour of that if it is free. */
  lemma NeighbourIsNext(blocks: seq<Block>, mem: nat, i: nat)
    requires PoolOk(blocks, mem) && Releasable(blocks, i)
    ensures IsNext(Used(blocks), Sentinel(blocks), blocks[i], blocks[MergeTo(blocks, i)].start)
  {
    var hi := MergeTo(blocks, i);
    Ordered(blocks, mem, i, hi);
    forall c | c in Used(blocks) && c.start > blocks[i].start ensures blocks[hi].start <= c.start {
      var j :| 0 <= j < |blocks| - 1 && blocks[j].used && blocks[j] == c;
      if j < i { Ordered(blocks, mem, j, i); }
      if hi < j { Ordered(blocks, mem, hi, j); }
    }
    if hi < |blocks| - 1 {
      Ordered(blocks, mem, hi, |blocks| - 1);
      assert blocks[hi] in Used(blocks);
    }
  }

  // ---- The operations ----

  /** What the bookkeeping promises: `hwm` is the end of the last used block, and `sso` holds the
      scan start of every page, counted from the first page of the pool. */
  ghost predicate Recorded(blocks: seq<Block>, mem: nat, hwm: nat, sso: seq<nat>)
    requires |blocks| > 0
  {
    && IsHighWater(Used(blocks), mem, hwm)
    && forall p :: 0 <= p < |sso| ==> IsScanStart(Used(blocks), Sentinel(blocks), mem / CARD_BYTES + p, sso[p])
  }

  lemma PageIndex(a: nat, mem: nat)
    requires mem % CARD_BYTES == 0 && mem <= a
    ensures (a - mem) / CARD_BYTES == a / CARD_BYTES - mem / CARD_BYTES
  {
    var m := mem / CARD_BYTES;
    ModUnique(a - mem, CARD_BYTES, a / CARD_BYTES - m, a % CARD_BYTES);
  }

  function Lower(sso: seq<nat>, page: nat, offset: nat): (r: seq<nat>)
    requires page < |sso|
    ensures |r| == |sso|
  {
    if offset < sso[page] then sso[page := offset] else sso
  }

  lemma AllocKeeps(blocks: seq<Block>, mem: nat, hwm: nat, sso: seq<nat>, i: nat, size: nat, page: nat)
    requires PoolOk(blocks, mem) && i < |blocks| && !blocks[i].used && 0 < size <= blocks[i].size
    requires Recorded(blocks, mem, hwm, sso)
    requires mem % CARD_BYTES == 0 && page < |sso| && OnPage(blocks[i].start, mem / CARD_BYTES + page)
    ensures var end := blocks[i].start + size;
            Recorded(AllocIn(blocks, i, size), mem, if end > hwm then end else hwm,
                     Lower(sso, page, blocks[i].start % CARD_BYTES))
  {
    var r, b := AllocIn(blocks, i, size), Block(blocks[i].start, size, true);
    AllocKeepsPool(blocks, mem, i, size);
    UsedIsSpread(r, mem);
    NotYetUsed(blocks, mem, i, b);
    hide PoolOk, Used, AllocIn, IsScanStart, Spread, OnPage, Lower;
    forall p | 0 <= p < |sso|
      ensures IsScanStart(Used(r), Sentinel(r), mem / CARD_BYTES + p, Lower(sso, page, b.start % CARD_BYTES)[p])
    {
      AllocPage(Used(blocks), mem, Sentinel(blocks), sso, b, page, p);
    }
    assert b in Used(r);
  }

  lemma AllocPage(used: set<Block>, mem: nat, sentinel: nat, sso: seq<nat>, b: Block, page: nat, p: nat)
    requires Spread(used + {b}, mem, sentinel) && b !in used && page < |sso| && p < |sso|
    requires IsScanStart(used, sentinel, mem / CARD_BYTES + p, sso[p]) && OnPage(b.start, mem / CARD_BYTES + page)
    ensures IsScanStart(used + {b}, sentinel, mem / CARD_BYTES + p, Lower(sso, page, b.start % CARD_BYTES)[p])
  {
    hide IsScanStart, Spread, OnPage;
    AllocKeepsScanStart(used, mem, sentinel, mem / CARD_BYTES + p, sso[p], b);
    OnOnePage(b.start, mem / CARD_BYTES + page, mem / CARD_BYTES + p);
  }

  lemma OnOnePage(a: nat, page: nat, other: nat)
    requires OnPage(a, page)
    ensures OnPage(a, other) <==> page == other
  {
  }

  /** No used block starts where a free one does. */
  lemma NotYetUsed(blocks: seq<Block>, mem: nat, i: nat, b: Block)
    requires PoolOk(blocks, mem) && i < |blocks| && !blocks[i].used && b.start == blocks[i].start
    ensures b !in Used(blocks)
  {
    if b in Used(blocks) {
      var j :| 0 <= j < |blocks| - 1 && blocks[j].used && blocks[j] == b;
      if j < i { Ordered(blocks, mem, j, i); } else { Ordered(blocks, mem, i, j); }
    }
  }

  /** The scan starts after the release of the block at `start`; `next` is the next used one. */
  function Raise(sso: seq<nat>, page: nat, start: nat, next: nat): (r: seq<nat>)
    requires page < |sso|
    ensures |r| == |sso|
  {
    if start % CARD_BYTES != sso[page] then sso
    else if start / CARD_BYTES == next / CARD_BYTES then sso[page := next % CARD_BYTES]
    else sso[page := USHRT_MAX]
  }

  lemma FreeKeeps(blocks: seq<Block>, mem: nat, hwm: nat, sso: seq<nat>, i: nat, page: nat)
    requires PoolOk(blocks, mem) && Releasable(blocks, i) && Recorded(blocks, mem, hwm, sso)
    requires mem % CARD_BYTES == 0 && page < |sso| && OnPage(blocks[i].start, mem / CARD_BYTES + page)
    ensures Recorded(FreeIn(blocks, i), mem, LoweredMark(blocks, i, hwm),
                     Raise(sso, page, blocks[i].start, blocks[MergeTo(blocks, i)].start))
  {
    var r, b, next := FreeIn(blocks, i), blocks[i], blocks[MergeTo(blocks, i)].start;
    FreeKeepsPool(blocks, mem, i);
    FreeKeepsMark(blocks, mem, i, hwm);
    UsedIsSpread(blocks, mem);
    NeighbourIsNext(blocks, mem, i);
    assert |r| > 0;
    assert b in Used(blocks);
    hide PoolOk, Used, FreeIn, IsScanStart, OnPage, LoweredMark, IsHighWater, Raise, MergeTo, IsNext, Spread;
    forall p | 0 <= p < |sso|
      ensures IsScanStart(Used(r), Sentinel(r), mem / CARD_BYTES + p, Raise(sso, page, b.start, next)[p])
    {
      FreePage(Used(blocks), mem, Sentinel(blocks), sso, b, next, page, p);
    }
  }

  lemma FreePage(used: set<Block>, mem: nat, sentinel: nat, sso: seq<nat>, b: Block, next: nat, page: nat, p: nat)
    requires Spread(used, mem, sentinel) && b in used && IsNext(used, sentinel, b, next) && page < |sso| && p < |sso|
    requires IsScanStart(used, sentinel, mem / CARD_BYTES + p, sso[p]) && OnPage(b.start, mem / CARD_BYTES + page)
    ensures IsScanStart(used - {b}, sentinel, mem / CARD_BYTES + p, Raise(sso, page, b.start, next)[p])
  {
    hide IsScanStart, Spread, IsNext;
    FreeKeepsScanStart(used, mem, sentinel, mem / CARD_BYTES + p, sso[p], b, next);
  }

  /** text_page_scan_start for a page of the pool. */
  function ScanStart(mem: nat, hwm: nat, sso: seq<nat>, page: nat): Option<nat>
    requires page < |sso|
  {
    var base := mem + page * CARD_BYTES;
    if base > hwm then None
    else if sso[page] < CARD_BYTES then Some(base + sso[page])
    else None
  }

  /** Below the high-water mark the answer is the lowest used block that starts on the page, and
      that block is found whenever there is one. */
  lemma ScanStartIsLowest(blocks: seq<Block>, mem: nat, hwm: nat, sso: seq<nat>, page: nat, a: nat)
    requires PoolOk(blocks, mem) && mem % CARD_BYTES == 0 && page < |sso| && Recorded(blocks, mem, hwm, sso)
    ensures ScanStart(mem, hwm, sso, page) == Some(a) && a < hwm <==>
            exists b :: IsLowest(Used(blocks), mem / CARD_BYTES + page, b) && b.start == a
  {
    UsedIsSpread(blocks, mem);
    hide PoolOk, Used;
    BelowMark(Used(blocks), mem, Sentinel(blocks), hwm, page, mem / CARD_BYTES + page, sso[page], a);
  }

  lemma BelowMark(used: set<Block>, mem: nat, sentinel: nat, hwm: nat, page: nat, q: nat, offset: nat, a: nat)
    requires mem % CARD_BYTES == 0 && q == mem / CARD_BYTES + page
    requires Spread(used, mem, sentinel) && IsHighWater(used, mem, hwm) && IsScanStart(used, sentinel, q, offset)
    ensures var base := mem + page * CARD_BYTES;
            base <= hwm && offset < CARD_BYTES && a == base + offset && a < hwm <==>
            exists b :: IsLowest(used, q, b) && b.start == a
  {
    assert mem + page * CARD_BYTES == q * CARD_BYTES;
    if StartsOn(used, q) {
      var b :| IsLowest(used, q, b) && offset == b.start % CARD_BYTES;
      assert b.start == q * CARD_BYTES + offset && End(b) <= hwm;
      assert forall c :: IsLowest(used, q, c) ==> c.start == b.start;
    } else {
      assert used == {} ==> hwm == mem;
      assert used != {} ==> hwm <= sentinel;
    }
  }

  /** Exactly when the answer can be relied upon, in terms of the state before the call: unless the
      page begins below the mark, holds the sentinel, and has its offset recorded. */
  lemma AnswerIsBlockIff(blocks: seq<Block>, mem: nat, hwm: nat, sso: seq<nat>, page: nat)
    requires PoolOk(blocks, mem) && mem % CARD_BYTES == 0 && page < |sso| && Recorded(blocks, mem, hwm, sso)
    ensures var q, answer := mem / CARD_BYTES + page, ScanStart(mem, hwm, sso, page);
            (answer.Some? ==> exists b :: IsLowest(Used(blocks), q, b) && b.start == answer.value) <==>
            !(mem + page * CARD_BYTES <= hwm && OnPage(Sentinel(blocks), q) &&
                sso[page] == Sentinel(blocks) % CARD_BYTES)
  {
    UsedIsSpread(blocks, mem);
    hide PoolOk, Used;
    RecordedIff(Used(blocks), mem, Sentinel(blocks), page, mem / CARD_BYTES + page, sso[page]);
  }

  lemma RecordedIff(used: set<Block>, mem: nat, sentinel: nat, page: nat, q: nat, offset: nat)
    requires mem % CARD_BYTES == 0 && q == mem / CARD_BYTES + page
    requires Spread(used, mem, sentinel) && IsScanStart(used, sentinel, q, offset)
    ensures mem + page * CARD_BYTES == q * CARD_BYTES
    ensures (offset < CARD_BYTES ==> exists b :: IsLowest(used, q, b) && b.start == q * CARD_BYTES + offset) <==>
            !(OnPage(sentinel, q) && offset == sentinel % CARD_BYTES)
  {
    if StartsOn(used, q) {
      var b :| IsLowest(used, q, b) && offset == b.start % CARD_BYTES;
      assert b.start == q * CARD_BYTES + offset;
      if OnPage(sentinel, q) { SamePage(b.start, sentinel); }
    }
  }

  /** The comment on text_page_scan_start promises 0 for a page without blocks; the code can also
      answer with the sentinel. It did so after a run: two blocks, of which the second starts on
      page 1, where the first one ends and the sentinel is, and is released. */
  lemma ScanStartMayBeSentinel()
    ensures var blocks := [Block(0, 4112, true), Block(4112, 64, true), Block(4176, 0, true)];
            var after := FreeIn(blocks, 1);
            var sso := Raise([0, 16], 1, 4112, 4176);
            && PoolOk(blocks, 0) && Recorded(blocks, 0, 4176, [0, 16])
            && Recorded(after, 0, 4112, sso)
            && !StartsOn(Used(after), 1) && ScanStart(0, 4112, sso, 1) == Some(4176)
  {
    var blocks := [Block(0, 4112, true), Block(4112, 64, true), Block(4176, 0, true)];
    var used := Used(blocks);
    assert blocks[0] in used && blocks[1] in used;
    assert IsLowest(used, 0, blocks[0]) && IsLowest(used, 1, blocks[1]);
    assert Recorded(blocks, 0, 4176, [0, 16]);
    FreeKeepsPool(blocks, 0, 1);
    FreeKeeps(blocks, 0, 4176, [0, 16], 1, 1);
  }

  // ---- The state of the pool ----

  datatype State = State(mem: nat, blocks: seq<Block>, hwm: nat, sso: seq<nat>)

  /** The pool starts on a page, and the scan starts cover it. */
  ghost predicate Ok(s: State) {
    && s.mem % CARD_BYTES == 0 && PoolOk(s.blocks, s.mem) && Recorded(s.blocks, s.mem, s.hwm, s.sso)
    && Sentinel(s.blocks) <= s.mem + |s.sso| * CARD_BYTES
  }

  function PageOf(s: State, a: nat): int {
    (a - s.mem) / CARD_BYTES
  }

  lemma PageOfBlock(s: State, i: nat)
    requires Ok(s) && i < |s.blocks| - 1
    ensures var a := s.blocks[i].start;
            s.mem <= a && 0 <= PageOf(s, a) < |s.sso| && OnPage(a, s.mem / CARD_BYTES + PageOf(s, a))
  {
    FromMem(s.blocks, s.mem, i);
    Ordered(s.blocks, s.mem, i, |s.blocks| - 1);
    PageIndex(s.blocks[i].start, s.mem);
    var d := s.blocks[i].start - s.mem;
    assert d < |s.sso| * CARD_BYTES;
  }

  predicate Allocatable(blocks: seq<Block>, i: nat, size: nat) {
    i < |blocks| && !blocks[i].used && 0 < size <= blocks[i].size
  }

  /** The state after `size` bytes of the free block `i` have been handed out. */
  ghost function Allocated(s: State, i: nat, size: nat): (r: State)
    requires Ok(s) && Allocatable(s.blocks, i, size)
  {
    var start := s.blocks[i].start;
    PageOfBlock(s, i);
    State(s.mem, AllocIn(s.blocks, i, size), if start + size > s.hwm then start + size else s.hwm,
          Lower(s.sso, PageOf(s, start), start % CARD_BYTES))
  }

  /** The state after the used block `i` has been released. */
  ghost function Released(s: State, i: nat): (r: State)
    requires Ok(s) && Releasable(s.blocks, i)
  {
    var start := s.blocks[i].start;
    PageOfBlock(s, i);
    State(s.mem, FreeIn(s.blocks, i), LoweredMark(s.blocks, i, s.hwm),
          Raise(s.sso, PageOf(s, start), start, s.blocks[MergeTo(s.blocks, i)].start))
  }

  /** Allocation keeps the bookkeeping right, and adds exactly one used block. */
  lemma AllocatedIsOk(s: State, i: nat, size: nat)
    requires Ok(s) && Allocatable(s.blocks, i, size)
    ensures Ok(Allocated(s, i, size))
    ensures Used(Allocated(s, i, size).blocks) == Used(s.blocks) + {Block(s.blocks[i].start, size, true)}
  {
    PageOfBlock(s, i);
    AllocKeepsPool(s.blocks, s.mem, i, size);
    hide PoolOk, Recorded, Used, AllocIn, OnPage, Sentinel;
    AllocKeeps(s.blocks, s.mem, s.hwm, s.sso, i, size, PageOf(s, s.blocks[i].start));
  }

  /** Release keeps the bookkeeping right, and takes away exactly the block. */
  lemma ReleasedIsOk(s: State, i: nat)
    requires Ok(s) && Releasable(s.blocks, i)
    ensures Ok(Released(s, i))
    ensures Used(Released(s, i).blocks) == Used(s.blocks) - {s.blocks[i]}
  {
    PageOfBlock(s, i);
    FreeKeepsPool(s.blocks, s.mem, i);
    hide PoolOk, Recorded, Used, FreeIn, OnPage, Sentinel;
    FreeKeeps(s.blocks, s.mem, s.hwm, s.sso, i, PageOf(s, s.blocks[i].start));
  }

  class Pool {
    const mem: nat
    const sso: array<nat>
    var blocks: seq<Block>
    var hwm: nat

    function Current(): State
      reads this, sso
    {
      State(mem, blocks, hwm, sso[..])
    }

    ghost predicate Valid()
      reads this, sso
    {
      Ok(Current())
    }

    /** A new pool is one free block and the sentinel. */
    constructor (mem: nat, pages: nat, size: nat)
      requires mem % CARD_BYTES == 0 && 0 < size <= pages * CARD_BYTES
      ensures Valid() && fresh(sso) && this.mem == mem == hwm && Used(blocks) == {}
      ensures blocks == [Block(mem, size, false), Block(mem + size, 0, true)]
    {
      this.mem := mem;
      sso := new nat[pages](_ => USHRT_MAX);
      blocks := [Block(mem, size, false), Block(mem + size, 0, true)];
      hwm := mem;
      new;
      assert forall p :: 0 <= p < pages ==> sso[..][p] == USHRT_MAX;
    }

    /** `choice` is what the allocator picks: a free block and the bytes it hands out of it. */
    method Alloc(choice: Option<(nat, nat)>) returns (code: Option<nat>)
      requires Valid()
      requires choice.Some? ==> Allocatable(blocks, choice.value.0, choice.value.1)
      modifies this`blocks, this`hwm, sso
      ensures Valid()
      ensures choice.None? ==> code == None && Current() == old(Current())
      ensures choice.Some? ==>
                var (i, size) := choice.value;
                code == Some(old(blocks)[i].start) && Current() == Allocated(old(Current()), i, size)
    {
      code := None;
      if choice.Some? {
        AllocatedIsOk(Current(), choice.value.0, choice.value.1);
        hide Ok;
        var start := Take(choice.value.0, choice.value.1);
        code := Some(start);
      }
    }

    method Take(i: nat, size: nat) returns (start: nat)
      requires Valid() && Allocatable(blocks, i, size)
      modifies this`blocks, this`hwm, sso
      ensures start == old(blocks)[i].start && Current() == Allocated(old(Current()), i, size)
    {
      start := blocks[i].start;
      PageOfBlock(Current(), i);
      hide Ok, AllocIn, OnPage;
      var end := start + size;
      if end > hwm { hwm := end; }
      var page, offset := (start - mem) / CARD_BYTES, start % CARD_BYTES;
      if offset < sso[page] { sso[page] := offset; }
      blocks := AllocIn(blocks, i, size);
    }

    /** Adjust the scan start of the page on which block `i` starts. */
    method RaiseScanStart(i: nat)
      requires PoolOk(blocks, mem) && Releasable(blocks, i) && mem <= blocks[i].start
      requires (blocks[i].start - mem) / CARD_BYTES < sso.Length
      modifies sso
      ensures sso[..] == Raise(old(sso[..]), (blocks[i].start - mem) / CARD_BYTES, blocks[i].start,
                               blocks[MergeTo(blocks, i)].start)
    {
      var code := blocks[i].start;
      var page, offset := (code - mem) / CARD_BYTES, code % CARD_BYTES;
      if offset == sso[page] {
        var next := i + 1;
        if !blocks[next].used {
          next := next + 1;
          assert blocks[next].used;
        }
        if blocks[next].start / CARD_BYTES == code / CARD_BYTES {
          sso[page] := blocks[next].start % CARD_BYTES;
        } else {
          sso[page] := USHRT_MAX;
        }
      }
    }

    /** If block `i` was the last used one, the mark falls to the end of the one before it. */
    method LowerMark(i: nat)
      requires i < |blocks|
      modifies this`hwm
      ensures hwm == LoweredMark(blocks, i, old(hwm))
    {
      if End(blocks[i]) == hwm {
        hwm := if i > 0 && !blocks[i - 1].used then blocks[i - 1].start else blocks[i].start;
      }
    }

    /** Release the used block `i`. */
    method Free(i: nat)
      requires Valid() && Releasable(blocks, i)
      modifies this`blocks, this`hwm, sso
      ensures Valid() && Current() == Released(old(Current()), i)
    {
      ReleasedIsOk(Current(), i);
      hide Ok, Released;
      Release(i);
    }

    method Release(i: nat)
      requires Valid() && Releasable(blocks, i)
      modifies this`blocks, this`hwm, sso
      ensures Current() == Released(old(Current()), i)
    {
      PageOfBlock(Current(), i);
      assert PoolOk(blocks, mem) && blocks[|blocks| - 1].used;
      hide Ok, PoolOk, FreeIn, OnPage, Raise, LoweredMark;
      LowerMark(i);
      RaiseScanStart(i);
      blocks := FreeIn(blocks, i);
    }

    /** Below the high-water mark the answer is the lowest used block that starts on the page. */
    method PageScanStart(page: nat) returns (start: Option<nat>)
      requires Valid() && page < sso.Length
      ensures start == ScanStart(mem, hwm, sso[..], page)
      ensures forall a: nat :: start == Some(a) && a < hwm <==>
                exists b :: IsLowest(Used(blocks), mem / CARD_BYTES + page, b) && b.start == a
    {
      var base := mem + page * CARD_BYTES;
      start := if base > hwm then None else if sso[page] < CARD_BYTES then Some(base + sso[page]) else None;
      forall a: nat
        ensures start == Some(a) && a < hwm <==>
                exists b :: IsLowest(Used(blocks), mem / CARD_BYTES + page, b) && b.start == a
      {
        ScanStartIsLowest(blocks, mem, hwm, sso[..], page, a);
      }
    }
  }
}
