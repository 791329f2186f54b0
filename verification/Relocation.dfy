/** Heap relocation when a core file is loaded elsewhere than it was saved,
    `src/runtime/coreparse.c`: each space that moved has a range with a delta, and
    every reference into such a range is rewritten in place. */
module Relocation {

  /** Addresses `start..end` moved by `delta`. */
  datatype Shift = Shift(start: int, end: int, delta: int)
  {
    predicate Holds(x: int) { start <= x < end }
    predicate HoldsMoved(x: int) { start + delta <= x < end + delta }
  }

  /** The delta of the last range that holds `x`, or 0. */
  function Delta(rs: seq<Shift>, x: int): int
  {
    if rs == [] then 0
    else if rs[|rs| - 1].Holds(x) then rs[|rs| - 1].delta
    else Delta(rs[..|rs| - 1], x)
  }

  /** adjust_word */
  function Adjust(rs: seq<Shift>, x: int): int {
    x + Delta(rs, x)
  }

  /** The address from which the last range moved something to `x`, or `x` itself. */
  function Inverse(rs: seq<Shift>, x: int): int
  {
    if rs == [] then x
    else if rs[|rs| - 1].HoldsMoved(x) then x - rs[|rs| - 1].delta
    else Inverse(rs[..|rs| - 1], x)
  }

  /** calc_adjustment */
  method CalcAdjustment(rs: seq<Shift>, x: int) returns (delta: int)
    ensures delta == Delta(rs, x)
  {
    var j := |rs|;
    assert rs[..j] == rs;
    while j > 0
      invariant 0 <= j <= |rs| && Delta(rs, x) == Delta(rs[..j], x)
    {
      j := j - 1;
      assert rs[..j + 1][..j] == rs[..j];
      if rs[j].Holds(x) {
        return rs[j].delta;
      }
    }
    return 0;
  }

  /** inverse_adjust */
  method InverseAdjust(rs: seq<Shift>, x: int) returns (y: int)
    ensures y == Inverse(rs, x)
  {
    var j := |rs|;
    assert rs[..j] == rs;
    while j > 0
      invariant 0 <= j <= |rs| && Inverse(rs, x) == Inverse(rs[..j], x)
    {
      j := j - 1;
      assert rs[..j + 1][..j] == rs[..j];
      if rs[j].HoldsMoved(x) {
        return x - rs[j].delta;
      }
    }
    return x;
  }

  // ---- The ranges of the saved spaces ----

  /** The ranges that are recorded, of all the spaces of the core. */
  function Moved(all: seq<Shift>): seq<Shift> {
    if all == [] then []
    else
      var last := all[|all| - 1];
      Moved(all[..|all| - 1]) + if last.start < last.end && last.delta != 0 then [last] else []
  }

  /** set_adjustment: a space of `len` bytes wanted at `desired` was placed at `actual`. The range
      recorded is as long as the space, except that on x86-64 static space counts with its whole size:
      there `extent` is more than `len`. */
  method SetAdjustment(rs: seq<Shift>, desired: int, len: nat, extent: nat, actual: int) returns (grown: seq<Shift>)
    ensures grown ==
              if len == 0 || actual == desired then rs
              else rs + [Shift(desired, desired + extent, actual - desired)]
    ensures forall x :: len > 0 && desired <= x < desired + extent ==>
              Adjust(grown, x) == if actual == desired then Adjust(rs, x) else x - desired + actual
  {
    if len == 0 || actual == desired {
      return rs;
    }
    grown := rs + [Shift(desired, desired + extent, actual - desired)];
    assert grown[..|rs|] == rs;
  }

  /** The calls of set_adjustment for all spaces of a core. */
  method RecordMoves(all: seq<Shift>) returns (rs: seq<Shift>)
    requires forall i :: 0 <= i < |all| ==> all[i].start <= all[i].end
    ensures rs == Moved(all)
  {
    rs := [];
    for i := 0 to |all|
      invariant rs == Moved(all[..i])
    {
      var n := all[i].end - all[i].start;
      rs := SetAdjustment(rs, all[i].start, n, n, all[i].start + all[i].delta);
      assert all[..i + 1][..i] == all[..i];
    }
    assert all[..|all|] == all;
  }

  /** Neither the old places of the spaces nor their new places overlap. */
  ghost predicate SpacesOk(all: seq<Shift>) {
    && (forall i, j, x :: 0 <= i < j < |all| && all[i].Holds(x) ==> !all[j].Holds(x))
    && (forall i, j, x :: 0 <= i < j < |all| && all[i].HoldsMoved(x) ==> !all[j].HoldsMoved(x))
  }

  ghost predicate InHeap(all: seq<Shift>, x: int) {
    exists i :: 0 <= i < |all| && all[i].Holds(x)
  }

  // ---- The address map is a bijection between the old and the new heap ----

  /** The last space comes first in both searches; one that is not recorded changes nothing. */
  lemma MovedLast(all: seq<Shift>, x: int)
    requires all != []
    ensures var init, last := all[..|all| - 1], all[|all| - 1];
            && Delta(Moved(all), x) == (if last.Holds(x) && last.delta != 0 then last.delta else Delta(Moved(init), x))
            && Inverse(Moved(all), x) ==
               (if last.HoldsMoved(x) && last.delta != 0 then x - last.delta else Inverse(Moved(init), x))
  {
    var init, last := all[..|all| - 1], all[|all| - 1];
    if last.start < last.end && last.delta != 0 {
      assert Moved(all) == Moved(init) + [last];
      assert Moved(all)[..|Moved(all)| - 1] == Moved(init);
    } else {
      assert Moved(all) == Moved(init);
    }
  }

  /** Every heap address moves by the delta of its space, whatever the other spaces do; no other
      address moves. */
  lemma {:induction false} DeltaIs(all: seq<Shift>, i: nat, x: int)
    requires SpacesOk(all) && i < |all| && all[i].Holds(x)
    ensures Delta(Moved(all), x) == all[i].delta
  {
    var init := all[..|all| - 1];
    hide Delta, Moved;
    MovedLast(all, x);
    if i < |all| - 1 {
      DeltaIs(init, i, x);
    } else {
      DeltaOutside(init, x);
    }
  }

  lemma {:induction false} DeltaOutside(all: seq<Shift>, x: int)
    requires !InHeap(all, x)
    ensures Delta(Moved(all), x) == 0
  {
    if all != [] {
      MovedLast(all, x);
      DeltaOutside(all[..|all| - 1], x);
    }
  }

  lemma {:induction false} InverseIs(all: seq<Shift>, i: nat, x: int)
    requires SpacesOk(all) && i < |all| && all[i].HoldsMoved(x)
    ensures Inverse(Moved(all), x) == x - all[i].delta
  {
    var init := all[..|all| - 1];
    hide Inverse, Moved;
    MovedLast(all, x);
    if i < |all| - 1 {
      InverseIs(init, i, x);
    } else {
      InverseOutside(init, x);
    }
  }

  lemma {:induction false} InverseOutside(all: seq<Shift>, x: int)
    requires forall j :: 0 <= j < |all| ==> !all[j].HoldsMoved(x)
    ensures Inverse(Moved(all), x) == x
  {
    if all != [] {
      MovedLast(all, x);
      InverseOutside(all[..|all| - 1], x);
    }
  }

  /** inverse_adjust undoes adjust_word on every heap address, also when the new place of one
      space overlaps the old place of another. */
  lemma InverseUndoesAdjust(all: seq<Shift>, x: int)
    requires SpacesOk(all) && InHeap(all, x)
    ensures Inverse(Moved(all), Adjust(Moved(all), x)) == x
  {
    var i :| 0 <= i < |all| && all[i].Holds(x);
    DeltaIs(all, i, x);
    InverseIs(all, i, Adjust(Moved(all), x));
  }

  lemma AdjustInjective(all: seq<Shift>, x: int, y: int)
    requires SpacesOk(all) && InHeap(all, x) && InHeap(all, y)
    ensures Adjust(Moved(all), x) == Adjust(Moved(all), y) <==> x == y
  {
    InverseUndoesAdjust(all, x);
    InverseUndoesAdjust(all, y);
  }

  /** Within one space, moved or not, addresses keep their distance: the adjusted value of a
      tagged pointer is the new address of the object it pointed to, with the same tag. */
  lemma AdjustKeepsOffsets(all: seq<Shift>, i: nat, base: int, offset: nat)
    requires SpacesOk(all) && i < |all| && all[i].Holds(base) && all[i].Holds(base + offset)
    ensures Adjust(Moved(all), base + offset) == Adjust(Moved(all), base) + offset
    ensures Adjust(Moved(all), base) == base + all[i].delta
  {
    hide Delta, Moved, SpacesOk;
    DeltaIs(all, i, base);
    DeltaIs(all, i, base + offset);
  }

  // ---- Objects ----

  /** is_lisp_pointer for 64-bit words */
  predicate IsPtr(w: int) {
    w % 4 == 3
  }

  /** A slot that is rewritten only if it looks like a pointer. */
  function Tagged(rs: seq<Shift>, w: int): int {
    if IsPtr(w) then Adjust(rs, w) else w
  }

  datatype Kind =
    | ConsKind                               // two descriptors
    | BoxedKind                              // header, descriptors
    | ClosureKind                            // header, untagged address of the function, descriptors
    | InstanceKind(tagged: set<nat>)         // header, layout, slots of which the bitmap says which are tagged
    | FdefnKind                              // header, name, function, untagged address
    | CodeKind(boxed: nat, jumps: nat)       // constants up to `boxed`, then a table of `jumps` words
    | AddrHashKind(pairs: nat)               // storage vector of an address-sensitive hash table
    | LeafKind                               // no descriptors

  /** An object of a space, as found by walking it: `at` and `nwords` are in words. */
  datatype Object = Object(at: nat, nwords: nat, kind: Kind)

  /** What relocation does with a word of an object. */
  datatype Role = Raw | Descriptor | Address | RehashWord

  /** Words 0 and 1 of a storage vector are its header and length, word 2 the high-water mark, word 3
      the rehash word; the last word is the supplement. Unused entries are left alone. The first word
      of a jump table counts it. */
  function RoleOf(o: Object, i: nat): Role {
    match o.kind
    case ConsKind => Descriptor
    case BoxedKind => if i == 0 then Raw else Descriptor
    case ClosureKind => if i == 0 then Raw else if i == 1 then Address else Descriptor
    case InstanceKind(tagged) => if i == 1 then Address else if i >= 2 && i in tagged then Descriptor else Raw
    case FdefnKind => if i == 1 || i == 2 then Descriptor else if i == 3 then Address else Raw
    case CodeKind(boxed, jumps) =>
      if 2 <= i < boxed then Descriptor else if boxed < i < boxed + jumps then Address else Raw
    case AddrHashKind(n) =>
      if i == 3 then RehashWord else if 4 <= i < 4 + 2 * n || i == o.nwords - 1 then Descriptor else Raw
    case LeafKind => Raw
  }

  ghost predicate ObjectOk(mem: seq<int>, o: Object) {
    && o.at + o.nwords <= |mem| && o.nwords >= 2
    && match o.kind
       case ConsKind => o.nwords == 2
       case BoxedKind => true
       case ClosureKind => !IsPtr(mem[o.at + 1])
       case InstanceKind(_) => true
       case FdefnKind => o.nwords == 4
       case CodeKind(boxed, jumps) => 2 <= boxed && boxed + jumps <= o.nwords
       case AddrHashKind(n) => 2 * n + 5 <= o.nwords
       case LeafKind => true
  }

  /** KV_PAIRS_REHASH(data) |= make_fixnum(1) sets bit 1 and no other. */
  function WithRehashBit(w: int): (r: int)
    ensures r / 2 % 2 == 1 && r % 2 == w % 2 && r / 4 == w / 4
  {
    if w / 2 % 2 == 1 then w else w + 2
  }

  /** Does a key of the storage vector at `at` move? Entry `k` has its key at word `4 + 2k`. */
  ghost predicate KeyMoves(rs: seq<Shift>, mem: seq<int>, at: nat, n: nat)
    requires at + 2 * n + 4 <= |mem|
  {
    exists k :: 0 <= k < n && MovesAt(rs, mem, at + 4 + 2 * k)
  }

  ghost predicate MovesAt(rs: seq<Shift>, mem: seq<int>, i: nat)
    requires i < |mem|
  {
    IsPtr(mem[i]) && Delta(rs, mem[i]) != 0
  }

  /** The word `i` of object `o` after relocation, from the words before. */
  ghost function Fixed(rs: seq<Shift>, mem: seq<int>, o: Object, i: nat): int
    requires ObjectOk(mem, o) && i < o.nwords
  {
    var w := mem[o.at + i];
    match RoleOf(o, i)
    case Raw => w
    case Descriptor => Tagged(rs, w)
    case Address => Adjust(rs, w)
    case RehashWord => if o.kind.AddrHashKind? && KeyMoves(rs, mem, o.at, o.kind.pairs) then WithRehashBit(w) else w
  }

  /** Objects lie one after another. */
  ghost predicate Walk(mem: seq<int>, objs: seq<Object>) {
    && (forall k :: 0 <= k < |objs| ==> ObjectOk(mem, objs[k]))
    && (forall k, m :: 0 <= k < m < |objs| ==> objs[k].at + objs[k].nwords <= objs[m].at)
  }

  /** Deltas keep the tag bits. */
  ghost predicate DeltasOk(rs: seq<Shift>) {
    forall i :: 0 <= i < |rs| ==> rs[i].delta % 4 == 0
  }

  lemma {:induction false} AdjustKeepsTag(rs: seq<Shift>, w: int)
    requires DeltasOk(rs)
    ensures IsPtr(Adjust(rs, w)) <==> IsPtr(w)
  {
    DeltaMultiple(rs, w);
  }

  lemma {:induction false} DeltaMultiple(rs: seq<Shift>, w: int)
    requires DeltasOk(rs)
    ensures Delta(rs, w) % 4 == 0
  {
    if rs != [] { DeltaMultiple(rs[..|rs| - 1], w); }
  }

  // ---- Rewriting a space in place ----

  /** Only the words `from..to` differ. */
  ghost predicate SameOutside(was: seq<int>, now: seq<int>, from: nat, to: nat) {
    |was| == |now| && forall i :: 0 <= i < |was| && !(from <= i < to) ==> now[i] == was[i]
  }

  /** The object has been relocated, and nothing else has changed. */
  ghost predicate ObjectFixed(rs: seq<Shift>, was: seq<int>, now: seq<int>, o: Object)
    requires ObjectOk(was, o)
  {
    && SameOutside(was, now, o.at, o.at + o.nwords)
    && forall i :: 0 <= i < o.nwords ==> now[o.at + i] == Fixed(rs, was, o, i)
  }

  class Space {
    const mem: array<int>

    constructor (mem: array<int>)
      ensures this.mem == mem
    {
      this.mem := mem;
    }

    /** adjust_pointers */
    method AdjustPointers(rs: seq<Shift>, from: nat, n: nat)
      requires from + n <= mem.Length
      modifies mem
      ensures SameOutside(old(mem[..]), mem[..], from, from + n)
      ensures forall i :: from <= i < from + n ==> mem[i] == Tagged(rs, old(mem[..])[i])
    {
      hide Delta;
      ghost var was := mem[..];
      for k := from to from + n
        invariant SameOutside(was, mem[..], from, k)
        invariant forall i :: from <= i < k ==> mem[i] == Tagged(rs, was[i])
      {
        var word := mem[k];
        if IsPtr(word) {
          var d := CalcAdjustment(rs, word);
          if d != 0 {
            mem[k] := word + d;
          }
        }
      }
    }

    /** adjust_word_at */
    method AdjustWordAt(rs: seq<Shift>, i: nat)
      requires i < mem.Length
      modifies mem
      ensures SameOutside(old(mem[..]), mem[..], i, i + 1) && mem[i] == Adjust(rs, old(mem[i]))
    {
      var d := CalcAdjustment(rs, mem[i]);
      if d != 0 {
        mem[i] := mem[i] + d;
      }
    }

    /** One descriptor; tells whether it changed. */
    method FixOne(rs: seq<Shift>, i: nat) returns (moved: bool)
      requires i < mem.Length
      modifies mem
      ensures SameOutside(old(mem[..]), mem[..], i, i + 1) && mem[i] == Tagged(rs, old(mem[i]))
      ensures moved <==> IsPtr(old(mem[i])) && Delta(rs, old(mem[i])) != 0
    {
      moved := false;
      if IsPtr(mem[i]) {
        var d := CalcAdjustment(rs, mem[i]);
        if d != 0 {
          mem[i] := mem[i] + d;
          moved := true;
        }
      }
    }

    /** The entries of an address-sensitive storage vector, with the need to rehash. */
    method FixPairs(rs: seq<Shift>, at: nat, n: nat) returns (rehash: bool)
      requires at + 4 + 2 * n <= mem.Length
      modifies mem
      ensures SameOutside(old(mem[..]), mem[..], at + 4, at + 4 + 2 * n)
      ensures forall i :: at + 4 <= i < at + 4 + 2 * n ==> mem[i] == Tagged(rs, old(mem[..])[i])
      ensures rehash <==> KeyMoves(rs, old(mem[..]), at, n)
    {
      hide Delta, Adjust;
      ghost var was := mem[..];
      rehash := false;
      for k := 0 to n
        invariant SameOutside(was, mem[..], at + 4, at + 4 + 2 * k)
        invariant forall i :: at + 4 <= i < at + 4 + 2 * k ==> mem[i] == Tagged(rs, was[i])
        invariant rehash <==> exists j :: 0 <= j < k && MovesAt(rs, was, at + 4 + 2 * j)
      {
        var i := at + 4 + 2 * k;
        var moved := FixOne(rs, i);
        assert moved <==> MovesAt(rs, was, i);
        rehash := rehash || moved;
        moved := FixOne(rs, i + 1);
      }
    }

    /** A storage vector of an address-sensitive hash table. */
    method FixStorage(rs: seq<Shift>, o: Object)
      requires ObjectOk(mem[..], o) && o.kind.AddrHashKind?
      modifies mem
      ensures ObjectFixed(rs, old(mem[..]), mem[..], o)
    {
      hide Delta, Adjust, WithRehashBit, KeyMoves;
      ghost var was := mem[..];
      AdjustPointers(rs, o.at + o.nwords - 1, 1);
      SamePairs(rs, was, mem[..], o.at, o.kind.pairs);
      var rehash := FixPairs(rs, o.at, o.kind.pairs);
      if rehash {
        mem[o.at + 3] := WithRehashBit(mem[o.at + 3]);
      }
    }

    /** An instance: the layout, and the slots that the bitmap says are tagged. */
    method FixInstance(rs: seq<Shift>, o: Object)
      requires ObjectOk(mem[..], o) && o.kind.InstanceKind?
      modifies mem
      ensures ObjectFixed(rs, old(mem[..]), mem[..], o)
    {
      hide Delta, Adjust;
      ghost var was := mem[..];
      AdjustWordAt(rs, o.at + 1);
      for i := 2 to o.nwords
        invariant SameOutside(was, mem[..], o.at, o.at + i)
        invariant forall j :: 0 <= j < i ==> mem[o.at + j] == Fixed(rs, was, o, j)
      {
        if i in o.kind.tagged {
          AdjustPointers(rs, o.at + i, 1);
        }
      }
    }

    /** A code object: the constants, and the absolute jump table. */
    method FixCode(rs: seq<Shift>, o: Object)
      requires ObjectOk(mem[..], o) && o.kind.CodeKind?
      modifies mem
      ensures ObjectFixed(rs, old(mem[..]), mem[..], o)
    {
      hide Delta, Adjust;
      ghost var was := mem[..];
      var boxed := o.kind.boxed;
      AdjustPointers(rs, o.at + 2, boxed - 2);
      var i := 1;
      while i < o.kind.jumps
        invariant 1 <= i && SameOutside(was, mem[..], o.at, o.at + o.nwords)
        invariant forall j :: 0 <= j < o.nwords && j < boxed + i ==> mem[o.at + j] == Fixed(rs, was, o, j)
        invariant forall a :: o.at + boxed + i <= a < |was| ==> mem[a] == was[a]
      {
        AdjustWordAt(rs, o.at + boxed + i);
        assert mem[o.at + boxed + i] == Fixed(rs, was, o, boxed + i);
        i := i + 1;
      }
    }

    /** The body of the fix_space loop. */
    method FixObject(rs: seq<Shift>, o: Object)
      requires ObjectOk(mem[..], o) && DeltasOk(rs)
      modifies mem
      ensures ObjectFixed(rs, old(mem[..]), mem[..], o)
    {
      hide Delta, Adjust, WithRehashBit, KeyMoves, DeltasOk;
      ghost var was := mem[..];
      match o.kind
      case ConsKind =>
        AdjustPointers(rs, o.at, 2);
      case BoxedKind =>
        AdjustPointers(rs, o.at + 1, o.nwords - 1);
      case ClosureKind =>
        // The untagged word is rewritten first; the scan of all slots does not touch it again.
        AdjustWordAt(rs, o.at + 1);
        AdjustKeepsTag(rs, was[o.at + 1]);
        AdjustPointers(rs, o.at + 1, o.nwords - 1);
      case InstanceKind(_) =>
        FixInstance(rs, o);
      case FdefnKind =>
        AdjustPointers(rs, o.at + 1, 2);
        AdjustWordAt(rs, o.at + 3);
      case CodeKind(_, _) =>
        FixCode(rs, o);
      case AddrHashKind(_) =>
        FixStorage(rs, o);
      case LeafKind =>
    }

    /** fix_space: every reference of every object is rewritten exactly once, and a storage vector
        whose keys moved asks for a rehash. */
    method FixSpace(rs: seq<Shift>, objs: seq<Object>)
      requires Walk(mem[..], objs) && DeltasOk(rs)
      modifies mem
      ensures SpaceFixed(rs, old(mem[..]), mem[..], objs, |objs|)
    {
      hide Fixed, DeltasOk;
      ghost var was := mem[..];
      for n := 0 to |objs|
        invariant SpaceFixed(rs, was, mem[..], objs, n)
      {
        SameObject(rs, was, mem[..], objs[n]);
        FixObject(rs, objs[n]);
      }
    }
  }

  /** The word lies in none of the first `n` objects. */
  predicate Between(objs: seq<Object>, n: nat, a: nat) {
    forall k :: 0 <= k < n && k < |objs| ==> !(objs[k].at <= a < objs[k].at + objs[k].nwords)
  }

  /** The first `n` objects have been relocated, and nothing else has changed. */
  ghost predicate SpaceFixed(rs: seq<Shift>, was: seq<int>, now: seq<int>, objs: seq<Object>, n: nat)
    requires Walk(was, objs)
  {
    && |now| == |was|
    && (forall k, i :: 0 <= k < n && k < |objs| && 0 <= i < objs[k].nwords ==>
          now[objs[k].at + i] == Fixed(rs, was, objs[k], i))
    && (forall a: nat :: a < |was| && Between(objs, n, a) ==> now[a] == was[a])
  }

  /** The fixed words of an object depend only on the object. */
  lemma SameObject(rs: seq<Shift>, a: seq<int>, b: seq<int>, o: Object)
    requires |a| == |b| && ObjectOk(a, o) && forall i :: o.at <= i < o.at + o.nwords ==> a[i] == b[i]
    ensures ObjectOk(b, o) && forall i :: 0 <= i < o.nwords ==> Fixed(rs, b, o, i) == Fixed(rs, a, o, i)
  {
    if o.kind.AddrHashKind? { SamePairs(rs, a, b, o.at, o.kind.pairs); }
  }

  lemma SamePairs(rs: seq<Shift>, a: seq<int>, b: seq<int>, at: nat, n: nat)
    requires |a| == |b| && at + 2 * n + 4 <= |a| && forall i :: at + 4 <= i < at + 4 + 2 * n ==> a[i] == b[i]
    ensures KeyMoves(rs, a, at, n) <==> KeyMoves(rs, b, at, n)
  {
    if k :| 0 <= k < n && MovesAt(rs, a, at + 4 + 2 * k) { assert MovesAt(rs, b, at + 4 + 2 * k); }
    if k :| 0 <= k < n && MovesAt(rs, b, at + 4 + 2 * k) { assert MovesAt(rs, a, at + 4 + 2 * k); }
  }

  // ---- The whole heap ----

  /** A space of the core: where it was to be and how far it moved, its words, and its objects. */
  datatype Image = Image(shift: Shift, words: seq<int>, objs: seq<Object>)

  function Shifts(heap: seq<Image>): (all: seq<Shift>)
    ensures |all| == |heap|
  {
    seq(|heap|, i requires 0 <= i < |heap| => heap[i].shift)
  }

  ghost predicate ImageOk(im: Image) {
    im.shift.start + 8 * |im.words| <= im.shift.end && im.shift.delta % 4 == 0 && Walk(im.words, im.objs)
  }

  ghost predicate HeapOk(heap: seq<Image>) {
    SpacesOk(Shifts(heap)) && forall i :: 0 <= i < |heap| ==> ImageOk(heap[i])
  }

  ghost predicate IsObject(heap: seq<Image>, k: nat, m: nat) {
    k < |heap| && m < |heap[k].objs|
  }

  /** The address of an object in the core, and after loading. */
  ghost function OldAddress(heap: seq<Image>, k: nat, m: nat): int
    requires IsObject(heap, k, m)
  {
    heap[k].shift.start + 8 * heap[k].objs[m].at
  }

  ghost function NewAddress(heap: seq<Image>, k: nat, m: nat): int
    requires IsObject(heap, k, m)
  {
    OldAddress(heap, k, m) + heap[k].shift.delta
  }

  ghost function Size(heap: seq<Image>, k: nat, m: nat): nat
    requires IsObject(heap, k, m)
  {
    8 * heap[k].objs[m].nwords
  }

  /** In the saved heap the word `w` refers to byte `d` of object `m` of space `k`. */
  ghost predicate RefersTo(heap: seq<Image>, w: int, k: nat, m: nat, d: nat) {
    IsObject(heap, k, m) && d < Size(heap, k, m) && w == OldAddress(heap, k, m) + d
  }

  /** In the loaded heap it does. */
  ghost predicate NowRefersTo(heap: seq<Image>, w: int, k: nat, m: nat, d: nat) {
    IsObject(heap, k, m) && d < Size(heap, k, m) && w == NewAddress(heap, k, m) + d
  }

  /** A reference `w` became `now`: it refers to the same byte of the same object, wherever that is
      now, and to nothing else; one that referred to no space of the heap is unchanged. */
  ghost predicate SameReference(heap: seq<Image>, w: int, now: int) {
    && (forall k, m, d :: RefersTo(heap, w, k, m, d) ==> NowRefersTo(heap, now, k, m, d))
    && (InHeap(Shifts(heap), w) ==> forall k, m, d :: NowRefersTo(heap, now, k, m, d) ==> RefersTo(heap, w, k, m, d))
    && (!InHeap(Shifts(heap), w) ==> now == w)
  }

  /** Some key of a storage vector refers to a space that moved. */
  ghost predicate KeyMoved(heap: seq<Image>, words: seq<int>, o: Object)
    requires ObjectOk(words, o) && o.kind.AddrHashKind?
  {
    exists e :: 0 <= e < o.kind.pairs && InMovedSpace(heap, words[o.at + 4 + 2 * e])
  }

  ghost predicate InMovedSpace(heap: seq<Image>, w: int) {
    w % 4 == 3 && exists k :: 0 <= k < |heap| && heap[k].shift.Holds(w) && heap[k].shift.delta != 0
  }

  /** What became of word `i` of an object. */
  ghost predicate WordRelocated(heap: seq<Image>, words: seq<int>, o: Object, i: nat, after: seq<int>)
    requires ObjectOk(words, o) && i < o.nwords && |after| == |words|
  {
    var w, now := words[o.at + i], after[o.at + i];
    && RoleKept(heap, RoleOf(o, i), w, now)
    && (RoleOf(o, i).RehashWord? && o.kind.AddrHashKind? ==> RehashNoted(heap, words, o, now))
  }

  ghost predicate RoleKept(heap: seq<Image>, role: Role, w: int, now: int) {
    match role
    case Raw => now == w
    case Descriptor => SameDescriptor(heap, w, now)
    case Address => SameReference(heap, w, now)
    case RehashWord => true
  }

  /** Bit 1 of the rehash word is set if it was or if some key moved; the other bits stay. */
  ghost predicate RehashNoted(heap: seq<Image>, words: seq<int>, o: Object, now: int)
    requires ObjectOk(words, o) && o.kind.AddrHashKind?
  {
    var w := words[o.at + 3];
    (now / 2 % 2 == 1 <==> w / 2 % 2 == 1 || KeyMoved(heap, words, o)) && now % 2 == w % 2 && now / 4 == w / 4
  }

  /** A tagged pointer, whose low bits are both set, refers to what it did; any other word is as it was. */
  ghost predicate SameDescriptor(heap: seq<Image>, w: int, now: int) {
    if w % 4 == 3 then now % 4 == 3 && SameReference(heap, w, now) else now == w
  }

  /** What became of the words `was` of an object, kind by kind. */
  ghost predicate WordsRelocated(heap: seq<Image>, kind: Kind, was: seq<int>, now: seq<int>)
    requires |was| == |now| >= 2
  {
    match kind
    case ConsKind => AllSame(heap, was, now, 0, 2)
    case BoxedKind => now[0] == was[0] && AllSame(heap, was, now, 1, |was|)
    case ClosureKind => now[0] == was[0] && SameReference(heap, was[1], now[1]) && AllSame(heap, was, now, 2, |was|)
    case InstanceKind(tagged) =>
      && now[0] == was[0] && SameReference(heap, was[1], now[1])
      && forall i :: 2 <= i < |was| ==> if i in tagged then SameDescriptor(heap, was[i], now[i]) else now[i] == was[i]
    case FdefnKind =>
      && now[0] == was[0] && AllSame(heap, was, now, 1, 3)
      && (|was| == 4 ==> SameReference(heap, was[3], now[3]))
    case CodeKind(boxed, jumps) =>
      && now[0] == was[0] && now[1] == was[1] && AllSame(heap, was, now, 2, boxed)
      && (forall i :: boxed < i < boxed + jumps && i < |was| ==> SameReference(heap, was[i], now[i]))
      && (forall i :: 2 <= i < |was| && (i == boxed || i >= boxed + jumps) && i >= boxed ==> now[i] == was[i])
    case AddrHashKind(n) =>
      && (forall i :: 0 <= i < 3 && i < |was| ==> now[i] == was[i])
      && AllSame(heap, was, now, 4, 4 + 2 * n) && AllSame(heap, was, now, |was| - 1, |was|)
      && (forall i :: 4 + 2 * n <= i < |was| - 1 ==> now[i] == was[i])
    case LeafKind => now == was
  }

  /** The words `from..to` are descriptors. */
  ghost predicate AllSame(heap: seq<Image>, was: seq<int>, now: seq<int>, from: nat, to: nat)
    requires |was| == |now|
  {
    forall i :: from <= i < to && i < |was| ==> SameDescriptor(heap, was[i], now[i])
  }

  ghost predicate ObjectRelocated(heap: seq<Image>, words: seq<int>, o: Object, now: seq<int>)
  {
    && ObjectOk(words, o) && |now| == |words|
    && WordsRelocated(heap, o.kind, words[o.at..o.at + o.nwords], now[o.at..o.at + o.nwords])
    && (o.kind.AddrHashKind? ==> RehashNoted(heap, words, o, now[o.at + 3]))
  }

  /** The roles of the words say what the kinds ask for. */
  lemma RolesAreKinds(heap: seq<Image>, words: seq<int>, o: Object, now: seq<int>)
    requires ObjectOk(words, o) && |now| == |words|
    requires forall i :: 0 <= i < o.nwords ==> WordRelocated(heap, words, o, i, now)
    ensures ObjectRelocated(heap, words, o, now)
  {
    hide SameDescriptor, SameReference, RehashNoted;
    var a, b := words[o.at..o.at + o.nwords], now[o.at..o.at + o.nwords];
    forall i | 0 <= i < |a| ensures RoleKept(heap, RoleOf(o, i), a[i], b[i]) {
      assert WordRelocated(heap, words, o, i, now);
    }
    if o.kind.AddrHashKind? { assert WordRelocated(heap, words, o, 3, now); }
  }

  /** Every object is where the address map says, with its kind and size; every reference refers to
      what it did; all other words are unchanged; a storage vector asks for a rehash if and only if it
      did before or one of its keys moved. */
  ghost predicate SpaceIsomorphic(heap: seq<Image>, k: nat, now: seq<int>)
    requires HeapOk(heap) && k < |heap|
  {
    && |now| == |heap[k].words|
    && (forall m :: 0 <= m < |heap[k].objs| ==> ObjectRelocated(heap, heap[k].words, heap[k].objs[m], now))
    && (forall a: nat :: a < |now| && Between(heap[k].objs, |heap[k].objs|, a) ==> now[a] == heap[k].words[a])
  }

  // ---- Adjusted words are relocated references ----

  lemma RefersToSpace(heap: seq<Image>, w: int, k: nat, m: nat, d: nat)
    requires HeapOk(heap) && RefersTo(heap, w, k, m, d)
    ensures heap[k].shift.Holds(w)
  {
    assert ImageOk(heap[k]) && ObjectOk(heap[k].words, heap[k].objs[m]);
  }

  lemma NowRefersToSpace(heap: seq<Image>, w: int, k: nat, m: nat, d: nat)
    requires HeapOk(heap) && NowRefersTo(heap, w, k, m, d)
    ensures heap[k].shift.HoldsMoved(w)
  {
    assert ImageOk(heap[k]) && ObjectOk(heap[k].words, heap[k].objs[m]);
  }

  /** The new address of an object is the adjusted old one, and objects that were apart stay apart. */
  lemma ObjectAddress(heap: seq<Image>, k: nat, m: nat)
    requires HeapOk(heap) && IsObject(heap, k, m)
    ensures NewAddress(heap, k, m) == Adjust(Moved(Shifts(heap)), OldAddress(heap, k, m))
  {
    assert ImageOk(heap[k]) && ObjectOk(heap[k].words, heap[k].objs[m]);
    RefersToSpace(heap, OldAddress(heap, k, m), k, m, 0);
    DeltaIs(Shifts(heap), k, OldAddress(heap, k, m));
  }

  lemma ObjectsStayApart(heap: seq<Image>, k: nat, m: nat, j: nat, n: nat)
    requires HeapOk(heap) && IsObject(heap, k, m) && IsObject(heap, j, n) && (k, m) != (j, n)
    ensures var a, b := NewAddress(heap, k, m), NewAddress(heap, j, n);
            a + Size(heap, k, m) <= b || b + Size(heap, j, n) <= a
  {
    assert ImageOk(heap[k]) && ImageOk(heap[j]);
    var a, b := NewAddress(heap, k, m), NewAddress(heap, j, n);
    assert ObjectOk(heap[k].words, heap[k].objs[m]) && ObjectOk(heap[j].words, heap[j].objs[n]);
    if k != j {
      var x := if a < b then b else a;
      if a < b + Size(heap, j, n) && b < a + Size(heap, k, m) {
        assert Shifts(heap)[k].HoldsMoved(x) && Shifts(heap)[j].HoldsMoved(x);
      }
    }
  }

  lemma AdjustedReference(heap: seq<Image>, w: int)
    requires HeapOk(heap)
    ensures SameReference(heap, w, Adjust(Moved(Shifts(heap)), w))
  {
    hide Delta, Moved, ImageOk;
    var all := Shifts(heap);
    var now := Adjust(Moved(all), w);
    forall k: nat, m: nat, d: nat | RefersTo(heap, w, k, m, d) ensures NowRefersTo(heap, now, k, m, d) {
      RefersToSpace(heap, w, k, m, d);
      DeltaIs(all, k, w);
    }
    if InHeap(all, w) {
      var j :| 0 <= j < |all| && all[j].Holds(w);
      DeltaIs(all, j, w);
      forall k: nat, m: nat, d: nat | NowRefersTo(heap, now, k, m, d) ensures RefersTo(heap, w, k, m, d) {
        NowRefersToSpace(heap, now, k, m, d);
        assert all[j].HoldsMoved(now) && all[k].HoldsMoved(now);
      }
    } else {
      DeltaOutside(all, w);
    }
  }

  lemma MovedKeys(heap: seq<Image>, words: seq<int>, o: Object)
    requires HeapOk(heap) && ObjectOk(words, o) && o.kind.AddrHashKind?
    ensures KeyMoves(Moved(Shifts(heap)), words, o.at, o.kind.pairs) <==> KeyMoved(heap, words, o)
  {
    hide Delta, Moved;
    var rs := Moved(Shifts(heap));
    forall w ensures (IsPtr(w) && Delta(rs, w) != 0) <==> InMovedSpace(heap, w) { DeltaNonzero(heap, w); }
    if e :| 0 <= e < o.kind.pairs && InMovedSpace(heap, words[o.at + 4 + 2 * e]) {
      assert MovesAt(rs, words, o.at + 4 + 2 * e);
    }
  }

  lemma DeltaNonzero(heap: seq<Image>, w: int)
    requires HeapOk(heap)
    ensures (IsPtr(w) && Delta(Moved(Shifts(heap)), w) != 0) <==> InMovedSpace(heap, w)
  {
    hide Delta, Moved;
    var all := Shifts(heap);
    assert forall k :: 0 <= k < |heap| ==> heap[k].shift == all[k];
    if InHeap(all, w) {
      var j :| 0 <= j < |all| && all[j].Holds(w);
      DeltaIs(all, j, w);
      forall k | 0 <= k < |heap| && heap[k].shift.Holds(w) ensures k == j { assert all[k].Holds(w); }
      assert heap[j].shift == all[j];
    } else {
      DeltaOutside(all, w);
      assert forall k :: 0 <= k < |heap| ==> !all[k].Holds(w);
    }
  }

  lemma DeltasAreOk(heap: seq<Image>)
    requires HeapOk(heap)
    ensures DeltasOk(Moved(Shifts(heap)))
  {
    var all := Shifts(heap);
    forall i | 0 <= i < |all| ensures all[i].delta % 4 == 0 { assert ImageOk(heap[i]); }
    MovedDeltas(all);
  }

  lemma {:induction false} MovedDeltas(all: seq<Shift>)
    requires forall i :: 0 <= i < |all| ==> all[i].delta % 4 == 0
    ensures DeltasOk(Moved(all))
  {
    if all != [] { MovedDeltas(all[..|all| - 1]); }
  }

  /** What fix_space computes word by word is what isomorphism asks for. */
  lemma FixedIsRelocated(heap: seq<Image>, words: seq<int>, o: Object, i: nat, after: seq<int>)
    requires HeapOk(heap) && ObjectOk(words, o) && i < o.nwords && |after| == |words|
    requires after[o.at + i] == Fixed(Moved(Shifts(heap)), words, o, i)
    ensures WordRelocated(heap, words, o, i, after)
  {
    hide Delta, Moved, SameReference, KeyMoves, KeyMoved, HeapOk, Adjust;
    var rs, w := Moved(Shifts(heap)), words[o.at + i];
    AdjustedReference(heap, w);
    DeltasAreOk(heap);
    AdjustKeepsTag(rs, w);
    if o.kind.AddrHashKind? { MovedKeys(heap, words, o); }
  }

  lemma FixedIsIsomorphic(heap: seq<Image>, k: nat, now: seq<int>)
    requires HeapOk(heap) && k < |heap| && ImageOk(heap[k])
    requires SpaceFixed(Moved(Shifts(heap)), heap[k].words, now, heap[k].objs, |heap[k].objs|)
    ensures SpaceIsomorphic(heap, k, now)
  {
    hide Delta, Moved, WordRelocated, Fixed, Between;
    var im := heap[k];
    forall m | 0 <= m < |im.objs| ensures ObjectRelocated(heap, im.words, im.objs[m], now) {
      assert ObjectOk(im.words, im.objs[m]);
      forall i | 0 <= i < im.objs[m].nwords ensures WordRelocated(heap, im.words, im.objs[m], i, now) {
        FixedIsRelocated(heap, im.words, im.objs[m], i, now);
      }
      RolesAreKinds(heap, im.words, im.objs[m], now);
    }
  }

  /** relocate_heap: for any spaces whose old places are disjoint and whose new places are, the loaded
      heap is isomorphic to the saved one. */
  method RelocateHeap(spaces: seq<Space>, heap: seq<Image>)
    requires HeapOk(heap) && |spaces| == |heap|
    requires forall k :: 0 <= k < |heap| ==> spaces[k].mem[..] == heap[k].words
    requires forall j, k :: 0 <= j < k < |spaces| ==> spaces[j].mem != spaces[k].mem
    modifies set s | s in spaces :: s.mem
    ensures forall k :: 0 <= k < |heap| ==> SpaceIsomorphic(heap, k, spaces[k].mem[..])
  {
    hide Moved, SpaceFixed, SpaceIsomorphic, SpacesOk, Walk;
    forall k | 0 <= k < |heap| ensures heap[k].shift.start <= heap[k].shift.end { assert ImageOk(heap[k]); }
    DeltasAreOk(heap);
    var rs := RecordMoves(Shifts(heap));
    for n := 0 to |spaces|
      invariant forall k :: 0 <= k < n ==> SpaceIsomorphic(heap, k, spaces[k].mem[..])
      invariant forall k :: n <= k < |spaces| ==> spaces[k].mem[..] == heap[k].words
    {
      assert ImageOk(heap[n]);
      spaces[n].FixSpace(rs, heap[n].objs);
      FixedIsIsomorphic(heap, n, spaces[n].mem[..]);
    }
  }
}
