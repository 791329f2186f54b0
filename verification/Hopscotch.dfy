/** The hopscotch hash table of `src/runtime/hopscotch.c` (tables with a value
    column and pointer-equality keys). Every operation is proved against the
    finite map `contents`. */
module Hopscotch {
  import opened HopBits
  import opened HopscotchInvariant
  import opened HopscotchFit
  import opened HopscotchSteps

  /** What hopscotch_insert returns: the new count, 0 for a rehashing table that is too small,
      or nothing when the allowed number of doublings is used up. */
  datatype InsertResult = Inserted(count: nat) | NoRoom | Unfinished

  /** All words of the storage, in order: keys, then hop masks, then values. */
  function Flat(k: seq<int>, h: seq<nat>, v: seq<int>): (s: seq<int>)
    ensures |s| == |k| + |h| + |v|
  {
    k + h + v
  }

  lemma BlankFlat(k: seq<int>, h: seq<nat>, v: seq<int>)
    requires Blank(k) && Blank(h) && Blank(v)
    ensures Blank(Flat(k, h, v))
  {
  }

  lemma BlankPart(s: seq<int>, at: nat, length: nat)
    requires Blank(s) && at + length <= |s|
    ensures Blank(s[at..at + length])
  {
  }

  /** One assignment to a column. */
  method Store<T>(column: array<T>, i: nat, x: T)
    requires i < column.Length
    modifies column
    ensures column[..] == old(column[..])[i := x]
  {
    column[i] := x;
  }

  /** A column laid over part of the storage. */
  method Carve<T(0)>(storage: seq<T>, at: nat, length: nat) returns (column: array<T>)
    requires at + length <= |storage|
    ensures fresh(column) && column.Length == length
    ensures column[..] == storage[at..at + length]
  {
    column := new T[length](i requires 0 <= i < length => storage[at + i]);
  }

  class Table {
    const plainHash: int -> nat
    const mixHash: int -> nat
    const mixAlways: bool      // created with HOPSCOTCH_HASH_FUN_MIX
    var mixed: bool            // ht->hash is hopscotch_hmix
    var keys: array<int>
    var hops: array<nat>
    var values: array<int>
    var size: nat              // mask + 1
    var hopRange: nat
    var count: nat
    var threshold: nat
    var prevSize: nat
    var resized: bool
    var rehashing: bool

    ghost var contents: map<int, int>
    ghost var cell: map<int, nat>

    ghost function Repr(): set<object>
      reads this
    {
      {this, keys, hops, values}
    }

    /** The columns are the old ones or newly allocated ones. */
    twostate predicate SameOrFreshStorage()
      reads this
    {
      && (keys == old(keys) || fresh(keys))
      && (hops == old(hops) || fresh(hops)) && (values == old(values) || fresh(values))
    }

    ghost function Sh(): Shape
      reads this`size, this`hopRange, this`mixed
    {
      Shape(size, hopRange, if mixed then mixHash else plainHash)
    }

    /** The parts of Valid besides the columns. */
    ghost predicate Plain()
      reads this
    {
      && keys != values && keys as object != hops && values as object != hops
      && hopRange in {8, 16, 32} && count == |contents|
      && IsPow2(size) && prevSize >= 1 && (mixAlways ==> mixed)
      && threshold == keys.Length * 13 / 16
    }

    ghost predicate Valid()
      reads this, keys, hops, values
    {
      Plain() && Wf(Sh(), keys[..], hops[..], values[..], contents, cell)
    }

    lemma Parts()
      requires Valid()
      ensures Plain() && Wf(Sh(), keys[..], hops[..], values[..], contents, cell)
      ensures keys != values && keys as object != hops && values as object != hops
      ensures Sh().Ok() && keys.Length == values.Length == size + hopRange - 1 && hops.Length == size
      ensures OwnersHold(Sh(), keys[..], hops[..])
      ensures contents.Keys == cell.Keys && hopRange in {8, 16, 32} && IsPow2(size)
    {
      hide OwnersHold, KeysPlaced, CellsListed, IsPow2;
    }

    ghost function Snap(): Snapshot
      reads this, keys, hops, values
    {
      Snapshot(Sh(), keys[..], hops[..], values[..], contents, cell, prevSize, resized)
    }

    /** The hash functions of the table. */
    ghost function Hs(): Hashing
    {
      Hashing(plainHash, mixHash, mixAlways)
    }

    /** No free cell lies between the bin and the cell of a key. So it is in a table that was filled
        by insertions only, in particular after a resize. */
    ghost predicate Packed()
      reads this, keys
    {
      Sh().Ok() && Compact(Sh(), keys[..], cell)
    }

    /** hopscotch_create */
    constructor (plainHash: int -> nat, mixHash: int -> nat, mixAlways: bool, size: nat, range: nat)
      requires IsPow2(size)
      requires range in {0, 8, 16, 32}
      ensures Valid() && fresh(Repr()) && contents == map[]
      ensures this.plainHash == plainHash && this.mixHash == mixHash && this.mixAlways == mixAlways
      ensures this.size == size && mixed == mixAlways && !rehashing && !resized && prevSize == size
      ensures hopRange == if range == 0 then DefaultHopRange(size) else range
      ensures range == 0 ==> hopRange == if size < 1024 then 8 else if size <= 16384 then 16 else 32
    {
      this.plainHash, this.mixHash, this.mixAlways, mixed := plainHash, mixHash, mixAlways, mixAlways;
      var r := if range == 0 then DefaultHopRange(size) else range;
      var cells := size + r - 1;
      this.size, hopRange, count, threshold, prevSize := size, r, 0, cells * 13 / 16, size;
      resized, rehashing := false, false;
      keys := new int[cells](_ => 0);
      hops := new nat[size](_ => 0);
      values := new int[cells](_ => 0);
      contents, cell := map[], map[];
      new;
      EmptyWf(Sh(), keys[..], hops[..], values[..]);
    }

    /** hash(ht, key) & ht->mask */
    method BinOf(key: int) returns (b: nat)
      requires Valid()
      ensures b == Sh().Bin(key) && b < size
    {
      var h := if mixed then mixHash(key) else plainHash(key);
      b := And(h, size - 1);
      BinBelowSize(Sh(), key);
    }

    /** put_pair and set_hop_bit for a new key, with the count. */
    method Place(p: nat, key: int, val: int)
      requires Valid() && key != 0 && key !in contents
      requires Sh().Bin(key) <= p < Sh().Bin(key) + hopRange && p < keys.Length && keys[p] == 0
      modifies this`count, this`contents, this`cell, keys, hops, values
      ensures Valid()
      ensures contents == old(contents)[key := val] && cell == old(cell)[key := p] && count == old(count) + 1
      ensures keys[..] == old(keys[..])[p := key]
    {
      hide Wf, Bit, BitSet, Or, And, Pow2, IsPow2;
      var b := BinOf(key);
      Parts();
      ghost var k, h, v := keys[..], hops[..], values[..];
      var mask := Or(hops[b], Pow2(p - b));
      Store(keys, p, key);
      Store(values, p, val);
      Store(hops, b, mask);
      OrSetsBit(h[b], p - b);
      PlaceKeepsWf(Sh(), k, h, v, contents, cell, p, key, val, mask);
      contents := contents[key := val];
      cell := cell[key := p];
      count := count + 1;
    }

    /** Move the key of cell `p`, owned by bin `b`, to the free cell `q`. */
    method Relocate(b: nat, p: nat, q: nat)
      requires Valid() && b < size && b <= p < q < b + hopRange
      requires q < keys.Length && keys[q] == 0 && Bit(hops[b], p - b)
      modifies this`cell, keys, hops, values
      ensures Valid() && old(keys[p]) != 0
      ensures keys[..] == old(keys[..])[q := old(keys[p])][p := 0] && cell == old(cell)[old(keys[p]) := q]
    {
      hide Wf, Bit, BitMoved, Or, Xor, And, Pow2, IsPow2;
      Parts();
      ghost var k, h, v := keys[..], hops[..], values[..];
      EmptyCellUnclaimed(Sh(), k, h, b, q);
      XorMovesBit(h[b], p - b, q - b);
      var mask := Xor(hops[b], Or(Pow2(q - b), Pow2(p - b)));
      Store(keys, q, keys[p]);
      Store(values, q, values[p]);
      Store(keys, p, 0);
      Store(values, p, 0);
      Store(hops, b, mask);
      MoveKeepsWf(Sh(), k, h, v, contents, cell, b, p, q, mask);
      cell := cell[k[p] := q];
    }

    /** Search the bins within reach of the free cell, furthest first, for a key that can be moved
        into it. */
    method FindVictim(free: nat) returns (found: bool, bin: nat, victim: nat)
      requires Valid() && hopRange <= free < keys.Length
      ensures found ==> bin < size && bin <= victim < free < bin + hopRange && Bit(hops[bin], victim - bin)
      ensures found ==> IsVictim(Sh(), keys[..], free, victim)
      ensures !found ==> hops.Length == size && StuckAt(Sh(), hops[..], free)
    {
      hide OwnersHold, KeysPlaced, CellsListed, Bit, And, Pow2;
      assert hops.Length == size;
      hide Wf;
      bin, victim := free - (hopRange - 1), free;
      var limit := if free - 1 >= size - 1 then size - 1 else free - 1;
      while bin <= limit
        invariant free - (hopRange - 1) <= bin <= limit + 1
        invariant forall b: nat, j: nat :: free < b + hopRange && b < bin && Bit(hops[b], j) ==> b + j >= free
      {
        var displacement := free - bin;
        var masked := And(hops[bin], LowOnes(displacement));
        LowOnesKeepsLowBits(hops[bin], displacement);
        if masked != 0 {
          victim := bin + LowestBit(masked);
          VictimFound(bin, victim, free);
          return true, bin, victim;
        }
        forall j: nat ensures !Bit(masked, j) { BitOfZero(j); }
        bin := bin + 1;
      }
      found := false;
    }

    /** The first bin with a cell left of the free cell has the victim in the first such cell. */
    lemma VictimFound(bin: nat, victim: nat, free: nat)
      requires Valid() && bin < size && bin <= victim < free < bin + hopRange && free < keys.Length
      requires hops.Length == size && Bit(hops[bin], victim - bin)
      requires forall b: nat, j: nat :: free < b + hopRange && b < bin && Bit(hops[b], j) ==> b + j >= free
      requires forall j: nat :: j < victim - bin ==> !Bit(hops[bin], j)
      ensures IsVictim(Sh(), keys[..], free, victim) && Sh().Bin(keys[victim]) == bin
    {
      hide OwnersHold, KeysPlaced, CellsListed, Bit, And, IsPow2;
      ghost var sh, k := Sh(), keys[..];
      OwnedCell(sh, k, hops[..], bin, victim);
      forall q: nat | q < free && k[q] != 0 && free < sh.Bin(k[q]) + hopRange
        ensures bin < sh.Bin(k[q]) || (bin == sh.Bin(k[q]) && victim <= q)
      {
        OwnBit(sh, k, hops[..], values[..], contents, cell, q);
      }
    }

    /** Move a key right into the free cell, if some bin in reach can; the vacated cell is the new
        free cell. */
    method Displace(free: nat) returns (moved: bool, next: nat)
      requires Valid() && hopRange <= free < keys.Length && keys[free] == 0
      modifies this`cell, keys, hops, values
      ensures Valid()
      ensures moved ==> free - hopRange < next < free && old(keys[next]) != 0 && keys[next] == 0
      ensures moved ==> IsVictim(Sh(), old(keys[..]), free, next)
      ensures moved ==> keys[..] == old(keys[..])[free := old(keys[next])][next := 0]
      ensures moved ==> cell == old(cell)[old(keys[next]) := free]
      ensures !moved ==> hops.Length == size && StuckAt(Sh(), hops[..], free)
      ensures !moved ==> cell == old(cell) && keys[..] == old(keys[..])
    {
      hide Wf, StuckAt, Bit;
      var bin;
      moved, bin, next := FindVictim(free);
      if moved {
        Relocate(bin, next, free);
        assert keys[next] == keys[..][next];
      }
    }

    /** Why an insertion into bin `b` fails: the load threshold is reached, there is no free cell to
        the right, or the free cell is too far away and nothing can be moved into it. */
    ghost predicate Full(b: nat)
      reads this, keys, hops
      requires hops.Length == size
    {
      || (!rehashing && count >= threshold)
      || (forall p :: b <= p < keys.Length ==> keys[p] != 0)
      || (exists free :: b + hopRange <= free < keys.Length && keys[free] == 0 && StuckAt(Sh(), hops[..], free))
    }

    /** The first free cell to the right of an occupied bin. */
    method FindFree(desired: nat) returns (found: bool, free: nat)
      requires desired < size && keys.Length == size + hopRange - 1 && hopRange > 1 && keys[desired] != 0
      ensures found ==> desired < free < keys.Length && keys[free] == 0 && RunBut(keys[..], desired, free, free)
      ensures !found ==> RunBut(keys[..], desired, keys.Length, -1)
    {
      var limit := size - 1 + hopRange - 1;
      free := desired + 1;
      while keys[free] != 0
        invariant desired < free <= limit
        invariant forall p :: desired <= p < free ==> keys[p] != 0
        decreases limit - free
      {
        if free == limit {
          return false, free;
        }
        free := free + 1;
      }
      found := true;
    }

    /** The free cell has been pulled left from `start` to `free`, beginning with the key column `k0`. */
    ghost predicate Pulling(k0: seq<int>, packed: bool, desired: nat, start: nat, free: nat)
      reads this, keys, hops, values
    {
      && Valid() && desired < free <= start < keys.Length && keys[free] == 0 && desired < size
      && RunBut(keys[..], desired, start + 1, free)
      && Shifted(Sh(), k0, keys[..], desired, start, free) && Pulled(Sh(), desired, k0, start, keys[..], free)
      && (packed ==> CompactBut(Sh(), keys[..], cell, free))
    }

    /** One displacement of the free cell. */
    method Pull(desired: nat, free: nat, ghost key: int, ghost k0: seq<int>, ghost packed: bool, ghost start: nat)
      returns (moved: bool, next: nat)
      requires Pulling(k0, packed, desired, start, free) && desired + hopRange <= free
      requires key !in contents && desired == Sh().Bin(key)
      modifies this`cell, keys, hops, values
      ensures if moved then Pulling(k0, packed, desired, start, next) && next < free
              else next == free && Pulling(k0, packed, desired, start, free) && cell == old(cell)
      ensures !moved ==> free < keys.Length && hops.Length == size && StuckAt(Sh(), hops[..], free)
      ensures !moved ==> Sh().Ok() && |k0| == keys.Length && Blocked(Sh(), k0, desired, free)
      ensures !moved && packed ==> !Fits(Sh(), contents.Keys + {key})
    {
      hide OwnersHold, KeysPlaced, CellsListed, Bit, And, Pow2, IsPow2, Fits, CompactBut, StuckAt, Blocked, Pulled;
      ghost var k, at := keys[..], cell;
      OneCellPerKey(Sh(), k, hops[..], values[..], contents, at);
      moved, next := Displace(free);
      if moved {
        ShiftStep(Sh(), k0, k, desired, start, free, next);
        PullOnce(Sh(), desired, k0, start, k, free, next);
        MoveKeepsRun(k, desired, start + 1, next, free);
        if packed { MoveKeepsCompact(Sh(), k, at, next, free); }
      } else {
        next := free;
        StuckIsBlocked(Sh(), k0, keys[..], hops[..], values[..], contents, cell, desired, start, free);
        if packed { StuckCell(Sh(), keys[..], hops[..], values[..], contents, cell, key, free); }
      }
    }

    /** Pull the free cell left until it is within reach of the bin of `key`. This succeeds exactly if
        there is room; in a packed table there is none only if the keys do not fit. */
    method MakeRoom(desired: nat, start: nat, ghost key: int) returns (ok: bool, free: nat)
      requires Valid() && key !in contents && desired == Sh().Bin(key) < start < keys.Length && desired < size
      requires FirstFree(keys[..], desired, start)
      modifies this`cell, keys, hops, values
      ensures Valid() && free < keys.Length && keys[free] == 0
      ensures if ok then desired < free < desired + hopRange
              else desired + hopRange <= free && hops.Length == size && StuckAt(Sh(), hops[..], free)
      ensures RunBut(keys[..], desired, free, free)
      ensures ok <==> HasRoom(Sh(), old(keys[..]), desired)
      ensures Pulled(Sh(), desired, old(keys[..]), start, keys[..], free)
      ensures old(Packed()) ==> CompactBut(Sh(), keys[..], cell, free)
      ensures old(Packed()) && !ok ==> !Fits(Sh(), contents.Keys + {key})
    {
      hide Wf, And, IsPow2, Fits, CompactBut, StuckAt, Blocked;
      ghost var packed, k0, at0 := Packed(), keys[..], cell;
      free := start;
      RoomUpTo(Sh(), k0, desired, start);
      hide HasRoom;
      if packed { AnyGap(Sh(), k0, at0, free); }
      assert Pulled(Sh(), desired, k0, start, k0, free);
      hide Pulled;
      assert Pulling(k0, packed, desired, start, free);
      hide Pulling;
      ok := true;
      while ok && free - desired >= hopRange
        invariant Pulling(k0, packed, desired, start, free)
        invariant !ok ==> desired + hopRange <= free < keys.Length && hops.Length == size
        invariant !ok ==> StuckAt(Sh(), hops[..], free)
        invariant !ok ==> Sh().Ok() && |k0| == keys.Length && free <= start && Blocked(Sh(), k0, desired, free)
        invariant !ok && packed ==> !Fits(Sh(), contents.Keys + {key})
        decreases ok, free
      {
        ok, free := Pull(desired, free, key, k0, packed, start);
      }
      PullingMeans(k0, packed, desired, start, free);
    }

    lemma PullingMeans(k0: seq<int>, packed: bool, desired: nat, start: nat, free: nat)
      requires Pulling(k0, packed, desired, start, free)
      ensures Valid() && desired < free < keys.Length && keys[free] == 0
      ensures RunBut(keys[..], desired, free, free) && Pulled(Sh(), desired, k0, start, keys[..], free)
      ensures packed ==> CompactBut(Sh(), keys[..], cell, free)
      ensures Sh().Ok() && free <= start < |k0|
      ensures free < desired + hopRange ==> forall c: nat :: c <= start ==> !Blocked(Sh(), k0, desired, c)
    {
      hide OwnersHold, KeysPlaced, CellsListed, IsPow2, CompactBut, Pulled, Blocked;
      if free < desired + hopRange { NoBlockPassed(Sh(), k0, keys[..], desired, start, free); }
    }

    /** Insert a key whose bin is occupied: find a free cell and bring it within reach. */
    method InsertFar(desired: nat, key: int, val: int) returns (r: nat)
      requires Valid() && key != 0 && key !in contents
      requires desired == Sh().Bin(key) < size && desired < keys.Length && keys[desired] != 0
      modifies this`count, this`contents, this`cell, keys, hops, values
      ensures Valid()
      ensures r > 0 ==> contents == old(contents)[key := val] && r == count == old(count) + 1
      ensures r == 0 ==> contents == old(contents) && count == old(count) && Full(desired)
      ensures r > 0 <==> HasRoom(Sh(), old(keys[..]), desired)
      ensures r > 0 ==> Hopped(Sh(), old(keys[..]), key, keys[..])
      ensures r > 0 ==> Fits(Sh(), old(contents).Keys + {key})
      ensures old(Packed()) ==> (r > 0 <==> Fits(Sh(), old(contents).Keys + {key})) && (r > 0 ==> Packed())
    {
      hide OwnersHold, KeysPlaced, CellsListed, Bit, And, Pow2, IsPow2, Fits, CompactBut, StuckAt, Pulled, Hopped;
      ghost var packed := Packed();
      var found, free := FindFree(desired);
      if !found {
        assert !HasRoom(Sh(), keys[..], desired);
        if packed {
          NoFreeCell(Sh(), keys[..], hops[..], values[..], contents, cell, key);
        }
        return 0;
      }
      hide Wf;
      ghost var k, start := keys[..], free;
      var ok;
      ok, free := MakeRoom(desired, free, key);
      if !ok {
        return 0;
      }
      HoppedTo(Sh(), k, key, start, keys[..], free);
      r := PlaceAt(free, key, val);
    }

    /** The table as it is takes the absent key: there is room for it, and the load is below the
        threshold or the key's own bin is free. */
    ghost predicate TakesHere(key: int)
      reads this, keys
    {
      && Sh().Ok() && Sh().Bin(key) < keys.Length && HasRoom(Sh(), keys[..], Sh().Bin(key))
      && (rehashing || count < threshold || keys[Sh().Bin(key)] == 0)
    }

    /** The same by cases. */
    lemma TakesFacts(key: int, desired: nat)
      requires Valid() && key !in contents && desired == Sh().Bin(key) < size
      ensures keys.Length == Sh().Cells() && hops.Length == size && hopRange > 0 && desired < keys.Length
      ensures RunBut(keys[..], desired, desired, desired)
      ensures keys[desired] == 0 ==> TakesHere(key) && Hopped(Sh(), keys[..], key, keys[..][desired := key])
      ensures keys[desired] != 0 && !rehashing && count >= threshold ==> !TakesHere(key) && Full(desired)
      ensures keys[desired] != 0 && (rehashing || count < threshold) ==>
                (TakesHere(key) <==> HasRoom(Sh(), keys[..], desired))
      ensures Packed() ==> CompactBut(Sh(), keys[..], cell, desired)
      ensures Packed() ==> (Accepts(Sh(), contents.Keys, key) <==>
                            Fits(Sh(), contents.Keys + {key}) && (count < threshold || keys[desired] == 0))
    {
      hide OwnersHold, KeysPlaced, CellsListed, Bit, And, Pow2, IsPow2, Fits, CompactBut, StuckAt, Filled, HasRoom;
      if Packed() {
        FilledIff(Sh(), keys[..], hops[..], values[..], contents, cell, desired);
        AnyGap(Sh(), keys[..], cell, desired);
      }
      if keys[desired] == 0 {
        FreeBinHasRoom(Sh(), keys[..], desired);
        HoppedTo(Sh(), keys[..], key, desired, keys[..], desired);
      }
    }

    /** hopscotch_insert up to the point where it would size the table up: the new count, or 0 when
        the table does not take the key. A packed table takes it exactly if all the keys fit. */
    method TryInsert(key: int, val: int) returns (r: nat)
      requires Valid() && key != 0 && key !in contents
      modifies this`count, this`contents, this`cell, keys, hops, values
      ensures Valid()
      ensures r > 0 ==> contents == old(contents)[key := val] && r == count == old(count) + 1
      ensures r == 0 ==> contents == old(contents) && count == old(count) && Full(Sh().Bin(key))
      ensures r > 0 <==> old(TakesHere(key))
      ensures r > 0 ==> Hopped(Sh(), old(keys[..]), key, keys[..])
      ensures r > 0 ==> Fits(Sh(), old(contents).Keys + {key})
      ensures old(Packed()) && r > 0 ==> Packed()
      ensures old(Packed()) && rehashing ==> (r > 0 <==> Fits(Sh(), old(contents).Keys + {key}))
      ensures old(Packed()) && !rehashing ==> (r > 0 <==> Accepts(Sh(), old(contents).Keys, key))
    {
      hide *;
      var desired := BinOf(key);
      TakesFacts(key, desired);
      if keys[desired] == 0 {
        r := PlaceAt(desired, key, val);
      } else if !rehashing && count >= threshold {
        r := 0;
      } else {
        r := InsertFar(desired, key, val);
      }
    }

    /** Place the key in the free cell and count it. */
    method PlaceAt(free: nat, key: int, val: int) returns (r: nat)
      requires Valid() && key != 0 && key !in contents
      requires Sh().Bin(key) <= free < Sh().Bin(key) + hopRange && free < keys.Length && keys[free] == 0
      requires RunBut(keys[..], Sh().Bin(key), free, free)
      modifies this`count, this`contents, this`cell, keys, hops, values
      ensures Valid() && contents == old(contents)[key := val] && r == count == old(count) + 1
      ensures keys[..] == old(keys[..])[free := key]
      ensures old(CompactBut(Sh(), keys[..], cell, free)) ==> Packed()
      ensures Fits(Sh(), old(contents).Keys + {key})
    {
      hide OwnersHold, KeysPlaced, CellsListed, Bit, And, Pow2, IsPow2, Fits, CompactBut;
      ghost var sh, k, at := Sh(), keys[..], cell;
      if CompactBut(sh, k, at, free) {
        PlaceKeepsCompact(sh, k, at, key, free);
      }
      Place(free, key, val);
      WfFits(Sh(), keys[..], hops[..], values[..], contents, cell);
      assert contents.Keys == old(contents).Keys + {key};
      r := count;
    }

    lemma FoundWhere(key: int)
      requires Valid() && key != 0
      ensures forall p :: 0 <= p < keys.Length && keys[p] == key ==> key in contents && key in cell && p == cell[key]
    {
      hide Wf;
      Lookup(Sh(), keys[..], hops[..], values[..], contents, cell, key);
      assert forall p :: 0 <= p < keys.Length ==> keys[p] == keys[..][p];
    }

    method CompareFour(index: nat, key: int) returns (hit: bool, p: nat)
      requires index + 4 <= keys.Length
      ensures hit ==> index <= p < index + 4 && keys[p] == key
      ensures !hit ==> forall q :: index <= q < index + 4 ==> keys[q] != key
    {
      if keys[index] == key {
        return true, index;
      }
      if keys[index + 1] == key {
        return true, index + 1;
      }
      if keys[index + 2] == key {
        return true, index + 2;
      }
      if keys[index + 3] == key {
        return true, index + 3;
      }
      return false, index;
    }

    method CompareEight(index: nat, key: int) returns (hit: bool, p: nat)
      requires index + 8 <= keys.Length
      ensures hit ==> index <= p < index + 8 && keys[p] == key
      ensures !hit ==> forall q :: index <= q < index + 8 ==> keys[q] != key
    {
      for i := index to index + 8
        invariant forall q :: index <= q < i ==> keys[q] != key
      {
        if keys[i] == key {
          return true, i;
        }
      }
      return false, index;
    }

    /** The probe loop of hopscotch_get and hopscotch_put: cells are compared four at a time,
        and a group is skipped only if the bin owns none of its cells. */
    method Find(key: int) returns (found: bool, index: nat)
      requires Valid() && key != 0
      ensures found <==> key in contents
      ensures found ==> key in cell && index == cell[key] < values.Length
    {
      hide Wf, Valid, Bit, And, Pow2, IsPow2, GroupHit, Remaining, Probed, NotSeen;
      index := BinOf(key);
      Parts();
      ghost var b, s := index, 0;
      ghost var sh, k, h, v := Sh(), keys[..], hops[..], values[..];
      ProbedIffPresent(sh, k, h, v, contents, cell, key, 4);
      var bits := hops[index];
      RemainingAll(bits);
      GroupWidths();
      FoundWhere(key);
      NothingSeen(k, h[b], b, 4, key);
      while bits != 0
        invariant index == b + s && s % 4 == 0
        invariant Remaining(h[b], bits, s)
        invariant NotSeen(k, h[b], b, s, 4, key)
        decreases bits
      {
        GroupTest(h[b], bits, s, 4);
        if bits % 16 != 0 {
          GroupInRange(sh, k, h, v, contents, cell, b, bits, s, 4);
          var hit, p := CompareFour(index, key);
          if hit {
            return true, p;
          }
        }
        NotSeenStep(k, h[b], b, s, 4, key);
        ShiftRemaining(h[b], bits, s, 4);
        GroupShifts(bits);
        bits, index, s := bits / 16, index + 4, s + 4;
      }
      NotSeenEnd(sh, k, h[b], b, s, 4, key);
      return false, index;
    }

    /** hopscotch_containsp, eight cells at a time. A key of 0 is not refused by the code:
        it is found exactly if a probed group has an empty cell. */
    method Contains(key: int) returns (found: bool)
      requires Valid()
      ensures Sh().Bin(key) < size && (found <==> Probed(Sh(), keys[..], hops[Sh().Bin(key)], Sh().Bin(key), 8, key))
      ensures key != 0 ==> (found <==> key in contents)
    {
      hide Wf, Valid, Bit, And, Pow2, IsPow2, GroupHit, Remaining, Probed, NotSeen;
      var index := BinOf(key);
      Parts();
      ghost var b, s := index, 0;
      ghost var sh, k, h, v := Sh(), keys[..], hops[..], values[..];
      if key != 0 {
        ProbedIffPresent(sh, k, h, v, contents, cell, key, 8);
      }
      var bits := hops[index];
      RemainingAll(bits);
      GroupWidths();
      NothingSeen(k, h[b], b, 8, key);
      while bits != 0
        invariant index == b + s && s % 8 == 0
        invariant Remaining(h[b], bits, s)
        invariant NotSeen(k, h[b], b, s, 8, key)
        decreases bits
      {
        GroupTest(h[b], bits, s, 8);
        if bits % 256 != 0 {
          GroupInRange(sh, k, h, v, contents, cell, b, bits, s, 8);
          var hit, p := CompareEight(index, key);
          if hit {
            GroupSeen(sh, k, h[b], b, s, 8, key, p - b);
            return true;
          }
        }
        NotSeenStep(k, h[b], b, s, 8, key);
        ShiftRemaining(h[b], bits, s, 8);
        GroupShifts(bits);
        bits, index, s := bits / 256, index + 8, s + 8;
      }
      NotSeenEnd(sh, k, h[b], b, s, 8, key);
      return false;
    }

    /** hopscotch_get */
    method Get(key: int, notFound: int) returns (val: int)
      requires Valid() && key != 0
      ensures val == if key in contents then contents[key] else notFound
    {
      hide OwnersHold, CellsListed, Bit;
      var found, index := Find(key);
      Lookup(Sh(), keys[..], hops[..], values[..], contents, cell, key);
      return if found then values[index] else notFound;
    }

    /** The search loop of hopscotch_delete, one hop bit at a time. */
    method FindOwned(key: int) returns (found: bool, logical: nat, physical: nat)
      requires Valid() && key != 0
      ensures found <==> key in contents
      ensures logical == Sh().Bin(key)
      ensures found ==> key in cell && physical == cell[key]
    {
      hide OwnersHold, KeysPlaced, CellsListed, Bit, And, Pow2, Remaining, IsPow2;
      logical := BinOf(key);
      ghost var sh, k, h, v := Sh(), keys[..], hops[..], values[..];
      Lookup(sh, k, h, v, contents, cell, key);
      physical := logical;
      var bits := hops[logical];
      RemainingAll(bits);
      while bits != 0
        invariant logical <= physical
        invariant Remaining(h[logical], bits, physical - logical)
        invariant key in contents ==> physical <= cell[key]
        decreases bits
      {
        FirstRemaining(h[logical], bits, physical - logical);
        if bits % 2 == 1 {
          MaskWithinRange(sh, k, h, v, contents, cell, logical, physical - logical);
          if keys[physical] == key {
            return true, logical, physical;
          }
        }
        ShiftRemaining(h[logical], bits, physical - logical, 1);
        GroupShifts(bits);
        bits, physical := bits / 2, physical + 1;
      }
      if key in contents {
        NoneRemaining(h[logical], physical - logical, cell[key] - logical);
      }
      return false, logical, physical;
    }

    /** Empty the cell of a key, give up its hop bit and lower the count. */
    method Erase(key: int, logical: nat, physical: nat)
      requires Valid() && key != 0 && key in contents && logical == Sh().Bin(key) && physical == cell[key]
      modifies this`count, this`contents, this`cell, keys, hops, values
      ensures Valid()
      ensures contents == old(contents) - {key} && keys[..] == Without(old(keys[..]), key)
    {
      hide OwnersHold, KeysPlaced, CellsListed, Bit, And, IsPow2;
      ghost var k, h, v := keys[..], hops[..], values[..];
      EraseKeepsWf(Sh(), k, h, v, contents, cell, key, logical, physical);
      WithoutIs(Sh(), k, h, v, contents, cell, key);
      assert values.Length == keys.Length && hops.Length == size;
      hide Wf, Xor, Pow2, IsPow2;
      var mask := Xor(hops[logical], Pow2(physical - logical));
      Store(keys, physical, 0);
      Store(values, physical, 0);
      Store(hops, logical, mask);
      contents, cell, count := contents - {key}, cell - {key}, count - 1;
    }

    /** hopscotch_delete */
    method Delete(key: int) returns (deleted: bool)
      requires Valid() && key != 0
      modifies this`count, this`contents, this`cell, keys, hops, values
      ensures Valid()
      ensures deleted <==> key in old(contents)
      ensures contents == old(contents) - {key} && keys[..] == Without(old(keys[..]), key)
    {
      hide Wf, Without;
      var found, logical, physical := FindOwned(key);
      if found {
        Erase(key, logical, physical);
      } else {
        WithoutAbsent(contents, key);
        WithoutIs(Sh(), keys[..], hops[..], values[..], contents, cell, key);
      }
      return found;
    }

    /** An empty table marked as rehashing; a large one gets the mixing hash. */
    method EmptyCopy(newSize: nat) returns (copy: Table)
      requires IsPow2(newSize)
      ensures copy.Valid() && fresh(copy.Repr()) && copy.rehashing && copy.contents == map[] && copy.cell == map[]
      ensures copy.size == newSize && copy.hopRange == DefaultHopRange(newSize)
      ensures copy.mixed == (mixAlways || DefaultHopRange(newSize) > 16)
      ensures copy.plainHash == plainHash && copy.mixHash == mixHash && copy.mixAlways == mixAlways
    {
      hide OwnersHold, KeysPlaced, CellsListed, Bit;
      copy := new Table(plainHash, mixHash, mixAlways, newSize, 0);
      NoKeysAllZero(copy.Sh(), copy.keys[..], copy.hops[..], copy.values[..], copy.contents, copy.cell);
      if copy.hopRange > 16 && !copy.mixed {
        copy.mixed := true;
      }
      copy.rehashing := true;
      copy.cell := map[];
      EmptyWf(copy.Sh(), copy.keys[..], copy.hops[..], copy.values[..]);
    }

    /** Insert the pairs of the columns `k`, `v` of another table, from the highest cell down; give up
        at the first pair that does not fit. All of them get in exactly if the keys fit. */
    method InsertAll(k: seq<int>, v: seq<int>, ghost src: Shape, ghost h: seq<nat>, ghost m: map<int, int>,
                     ghost at: map<int, nat>)
      returns (ok: bool)
      requires Valid() && contents == map[] && cell == map[] && rehashing
      requires Wf(src, k, h, v, m, at)
      modifies this`count, this`contents, this`cell, keys, hops, values
      ensures Valid()
      ensures ok <==> Fits(Sh(), m.Keys)
      ensures ok ==> contents == m && Packed()
    {
      hide OwnersHold, KeysPlaced, CellsListed, Bit, And, From, IsPow2, Fits, CompactBut, Accepts;
      FromEnds(src, k, h, v, m, at);
      EmptyIsCompact(Sh(), keys[..]);
      assert |k| == |v| && m.Keys == at.Keys && Sh().Ok();
      hide Wf, Valid;
      var i := |k|;
      while i > 0
        invariant 0 <= i <= |k| && Valid() && Packed()
        invariant contents == From(m, at, i)
      {
        i := i - 1;
        CopyStep(Sh(), src, k, h, v, m, at, i);
        if k[i] != 0 {
          var r := TryInsert(k[i], v[i]);
          if r == 0 {
            return false;
          }
        }
      }
      ContentsFit();
      ok := true;
    }

    lemma ContentsFit()
      requires Valid()
      ensures Sh().Ok() && Fits(Sh(), contents.Keys)
    {
      hide OwnersHold, KeysPlaced, CellsListed, Fits, IsPow2;
      WfFits(Sh(), keys[..], hops[..], values[..], contents, cell);
    }

    /** A complete copy with `n` bins, built as hopscotch_resize_up does. */
    ghost predicate IsCopy(copy: Table, n: nat)
      reads this, copy, copy.keys, copy.hops, copy.values
    {
      && copy.Valid() && copy.contents == contents && copy.Packed()
      && copy.plainHash == plainHash && copy.mixHash == mixHash && copy.mixAlways == mixAlways
      && copy.size == n && copy.Sh() == Hs().ShapeFor(n)
    }

    /** One attempt of hopscotch_resize_up at `newSize` bins: it succeeds exactly if the keys fit. */
    method TryRehash(newSize: nat) returns (ok: bool, copy: Table)
      requires Valid() && IsPow2(newSize)
      ensures fresh(copy.Repr())
      ensures Hs().ShapeFor(newSize).Ok() && (ok <==> Fits(Hs().ShapeFor(newSize), contents.Keys))
      ensures ok ==> IsCopy(copy, newSize)
    {
      hide OwnersHold, KeysPlaced, CellsListed, Bit, IsPow2, Fits, CompactBut, Packed;
      copy := EmptyCopy(newSize);
      ok := copy.InsertAll(keys[..], values[..], Sh(), hops[..], contents, cell);
    }

    /** Take over storage, geometry and hash function. */
    method Install(k: array<int>, h: array<nat>, v: array<int>, bins: nat, range: nat, mix: bool,
                   ghost at: map<int, nat>)
      requires count == |contents| && prevSize >= 1 && range in {8, 16, 32} && IsPow2(bins) && (mixAlways ==> mix)
      requires k != v && k as object != h && v as object != h
      requires Wf(Shape(bins, range, if mix then mixHash else plainHash), k[..], h[..], v[..], contents, at)
      modifies this`keys, this`hops, this`values, this`size, this`hopRange, this`threshold, this`mixed, this`cell
      ensures Valid()
      ensures keys == k && hops == h && values == v && cell == at
      ensures size == bins && hopRange == range && mixed == mix
    {
      hide Wf, IsPow2;
      threshold, size, hopRange, mixed, cell := k.Length * 13 / 16, bins, range, mix, at;
      keys, hops, values := k, h, v;
    }

    /** Move all data pointers of a complete copy into this table. */
    method Adopt(copy: Table, ghost n: nat)
      requires Valid() && IsCopy(copy, n) && copy != this
      modifies this
      ensures Valid() && contents == old(contents) && rehashing == old(rehashing) && resized
      ensures prevSize == old(prevSize)
      ensures keys == copy.keys && hops == copy.hops && values == copy.values
      ensures size == n && Sh() == Hs().ShapeFor(n) && Packed()
    {
      hide Wf, IsPow2, CompactBut, Hashing.ShapeFor;
      resized := true;
      Install(copy.keys, copy.hops, copy.values, copy.size, copy.hopRange, copy.mixed, copy.cell);
    }

    /** Double until every pair fits in a table built afresh, at most `fuel` times. This ends exactly
        if the keys fit after one of the doublings, and then at the first of these. */
    method FirstFit(fuel: nat) returns (ok: bool, tries: nat, copy: Table?)
      requires Valid()
      ensures tries <= fuel && (ok ==> tries > 0)
      ensures ok <==> FitsLater(Hs(), size, fuel, contents.Keys)
      ensures !FitsLater(Hs(), size, if ok then tries - 1 else tries, contents.Keys)
      ensures ok ==> copy != null && fresh(copy.Repr()) && IsCopy(copy, Doubled(size, tries))
    {
      ghost var hs, ks, from := Hs(), contents.Keys, size;
      var n := size;
      assert IsPow2(from) && n == Doubled(from, 0);
      hide *;
      ok, tries, copy := false, 0, null;
      NoTryYet(hs, from, ks);
      while !ok && tries < fuel
        invariant 0 <= tries <= fuel && n == Doubled(from, tries) && (ok ==> tries > 0)
        invariant !FitsLater(hs, from, if ok then tries - 1 else tries, ks)
        invariant ok ==> FitsLater(hs, from, fuel, ks)
        invariant ok ==> copy != null && fresh(copy.Repr()) && IsCopy(copy, n)
      {
        OneMoreTry(hs, from, tries, fuel, ks);
        n, tries := 2 * n, tries + 1;
        ok, copy := TryRehash(n);
      }
    }

    /** hopscotch_resize_up, with at most `fuel` doublings. */
    method ResizeUp(fuel: nat) returns (ok: bool, left: nat)
      requires Valid()
      modifies this
      ensures Valid() && contents == old(contents) && rehashing == old(rehashing)
      ensures SameOrFreshStorage() && prevSize == old(prevSize)
      ensures if ok then left < fuel && resized else left == 0 && unchanged(this)
      ensures ok <==> FitsLater(Hs(), old(size), fuel, contents.Keys)
      ensures ok ==> Packed() && Sh() == Hs().ShapeFor(size) && size == Doubled(old(size), fuel - left)
      ensures ok ==> !FitsLater(Hs(), old(size), fuel - left - 1, contents.Keys)
    {
      hide Wf, IsPow2, Fits, CompactBut, Doubled, FitsLater, Packed, Hashing.ShapeFor, Valid, IsCopy;
      ghost var n := size;
      var tries, copy;
      ok, tries, copy := FirstFit(fuel);
      left := 0;
      if ok {
        left := fuel - tries;
        Adopt(copy, Doubled(n, tries));
      }
    }

    /** The table was sized up from `from` bins to take the key. */
    ghost predicate Grown(from: nat, fuel: nat, ks: set<int>, key: int)
      reads this, keys
    {
      Packed() && resized && Sh() == Hs().ShapeFor(size) && GrownTo(Hs(), from, fuel, ks, key, size)
    }

    twostate predicate SameGeometry()
      reads this
    {
      Sh() == old(Sh()) && resized == old(resized)
    }

    /** hopscotch_insert, with at most `fuel` doublings of the table in all. If the key is not taken
        without doubling, it is taken exactly if one of the doubled tables accepts it. */
    method Insert(key: int, val: int, fuel: nat) returns (r: InsertResult)
      requires Valid() && key != 0 && key !in contents
      modifies Repr()
      ensures Valid() && SameOrFreshStorage() && rehashing == old(rehashing)
      ensures r.Inserted? ==> contents == old(contents)[key := val] && r.count == |contents|
      ensures !r.Inserted? ==> contents == old(contents)
      ensures r.NoRoom? ==> rehashing
      ensures r.Unfinished? ==> !rehashing
      ensures size >= old(size)
      ensures r.Inserted? <==>
              old(TakesHere(key)) || (!rehashing && TakenLater(Hs(), old(size), fuel, old(contents).Keys, key))
      ensures !rehashing && old(Packed()) ==> (old(TakesHere(key)) <==> old(Accepts(Sh(), contents.Keys, key)))
      ensures prevSize == old(prevSize)
      ensures old(TakesHere(key)) ==> SameGeometry() && Hopped(Sh(), old(keys[..]), key, keys[..])
      ensures old(TakesHere(key) && Packed()) ==> Packed()
      ensures r.Inserted? && !old(TakesHere(key)) ==> Grown(old(size), fuel, old(contents).Keys, key)
      decreases fuel, 1
    {
      hide Wf, IsPow2, Fits, CompactBut, Accepts, TakenLater, TakesHere, Hopped, GrownTo;
      var n := TryInsert(key, val);
      if n > 0 {
        return Inserted(n);
      }
      if rehashing {
        return NoRoom;
      }
      hide Valid, Packed;
      r := Grow(key, val, fuel);
    }

    /** hopscotch_insert(hopscotch_resize_up(ht), key, val) */
    method Grow(key: int, val: int, fuel: nat) returns (r: InsertResult)
      requires Valid() && key != 0 && key !in contents && !rehashing
      modifies Repr()
      ensures Valid() && SameOrFreshStorage() && !rehashing
      ensures r.Inserted? ==> contents == old(contents)[key := val] && r.count == |contents|
      ensures !r.Inserted? ==> r.Unfinished? && contents == old(contents)
      ensures r.Inserted? <==> TakenLater(Hs(), old(size), fuel, old(contents).Keys, key)
      ensures size >= old(size) && (r.Inserted? ==> size != old(size)) && prevSize == old(prevSize)
      ensures r.Inserted? ==> Grown(old(size), fuel, old(contents).Keys, key)
      decreases fuel, 0
    {
      ghost var hs, from, ks := Hs(), size, contents.Keys;
      hide Wf, IsPow2, Fits, CompactBut, Accepts, TakenLater, FitsLater, TakenAfter, Doubled, Packed, Hashing.ShapeFor,
        GrownTo, Hopped;
      var ok, left := ResizeUp(fuel);
      if !ok {
        NoneTaken(hs, from, fuel, ks, key);
        return Unfinished;
      }
      TakenFromFirstFit(hs, from, fuel - left, fuel, ks, key);
      TakenMeans(hs, from, fuel - left, ks, key);
      if TakenAfter(hs, from, fuel - left, ks, key) { GrownHere(hs, from, fuel - left, fuel, ks, key); }
      ghost var first := fuel - left;
      hide Valid, TakesHere;
      r := Insert(key, val, left);
      if r.Inserted? && !TakenAfter(hs, from, first, ks, key) {
        GrownFurther(hs, from, first, fuel, ks, key, size);
      }
    }

    /** hopscotch_put: 0 if the key existed, the new count if it was inserted. */
    method Put(key: int, val: int, fuel: nat) returns (r: InsertResult)
      requires Valid() && key != 0
      modifies Repr()
      ensures Valid() && SameOrFreshStorage() && rehashing == old(rehashing)
      ensures r.Inserted? ==> contents == old(contents)[key := val]
      ensures r.Inserted? ==> r.count == if key in old(contents) then 0 else |contents|
      ensures !r.Inserted? ==> contents == old(contents) && key !in contents
      ensures r.NoRoom? ==> rehashing
      ensures r.Unfinished? ==> !rehashing
      ensures key !in old(contents) ==>
                (r.Inserted? <==>
                 old(TakesHere(key)) || (!rehashing && TakenLater(Hs(), old(size), fuel, old(contents).Keys, key)))
      ensures prevSize == old(prevSize)
      ensures key in old(contents) ==> SameGeometry() && cell == old(cell)
      ensures key in old(contents) ==> keys[..] == old(keys[..]) && hops[..] == old(hops[..])
      ensures key !in old(contents) && old(TakesHere(key)) ==>
                SameGeometry() && Hopped(Sh(), old(keys[..]), key, keys[..])
      ensures key !in old(contents) && r.Inserted? && !old(TakesHere(key)) ==>
                Grown(old(size), fuel, old(contents).Keys, key)
    {
      hide Wf, IsPow2, Fits, CompactBut, Accepts, TakenLater, TakesHere, Hopped, Grown;
      var found, index := Find(key);
      if found {
        SetValue(key, index, val);
        return Inserted(0);
      }
      r := Insert(key, val, fuel);
    }

    /** set_val for a key that is present. */
    method SetValue(key: int, index: nat, val: int)
      requires Valid() && key in contents && key in cell && index == cell[key] < values.Length
      modifies this`contents, values
      ensures Valid() && contents == old(contents)[key := val]
    {
      hide OwnersHold, KeysPlaced, CellsListed, Bit, IsPow2;
      UpdateKeepsWf(Sh(), keys[..], hops[..], values[..], contents, cell, key, val);
      assert contents[key := val].Keys == contents.Keys;
      hide Wf;
      Store(values, index, val);
      contents := contents[key := val];
    }

    /** memset of the whole storage. */
    method Clear()
      requires Valid()
      modifies this`count, this`contents, this`cell, keys, hops, values
      ensures Valid() && contents == map[]
      ensures Blank(keys[..]) && Blank(hops[..]) && Blank(values[..])
    {
      hide OwnersHold, KeysPlaced, CellsListed, Bit, IsPow2;
      forall i | 0 <= i < keys.Length { keys[i] := 0; }
      forall i | 0 <= i < hops.Length { hops[i] := 0; }
      forall i | 0 <= i < values.Length { values[i] := 0; }
      count, contents, cell := 0, map[], map[];
      EmptyWf(Sh(), keys[..], hops[..], values[..]);
    }

    /** hopscotch_realloc on storage that is already there: the same words, all zero, are
        divided anew into a key, a hop and a value column. */
    method Recarve(newSize: nat)
      requires Valid() && contents == map[] && IsPow2(newSize)
      requires Blank(keys[..]) && Blank(hops[..]) && Blank(values[..])
      requires 2 * (newSize + DefaultHopRange(newSize) - 1) + newSize <= keys.Length + hops.Length + values.Length
      modifies this
      ensures Valid() && contents == map[] && SameOrFreshStorage()
      ensures size == newSize && hopRange == DefaultHopRange(newSize) && rehashing == old(rehashing)
    {
      assert newSize > 0;
      hide OwnersHold, KeysPlaced, CellsListed, Bit, IsPow2, Blank;
      var storage := Flat(keys[..], hops[..], values[..]);
      BlankFlat(keys[..], hops[..], values[..]);
      var range := DefaultHopRange(newSize);
      var cells := newSize + range - 1;
      var k := Carve(storage, 0, cells);
      var h := Carve(storage, cells, newSize);
      var v := Carve(storage, cells + newSize, cells);
      BlankPart(storage, 0, cells);
      BlankPart(storage, cells, newSize);
      BlankPart(storage, cells + newSize, cells);
      EmptyWf(Shape(newSize, range, Sh().hash), k[..], h[..], v[..]);
      Install(k, h, v, newSize, range, mixed, map[]);
    }

    /** hopscotch_reset */
    method Reset()
      requires Valid()
      modifies Repr()
      ensures Valid() && contents == map[] && SameOrFreshStorage()
      ensures prevSize == old(size) && !resized && rehashing == old(rehashing)
      ensures Resized(old(Sh()), old(prevSize), old(resized), Sh()) && mixed == mixAlways
    {
      hide OwnersHold, KeysPlaced, CellsListed, Bit, Blank, IsPow2;
      if count != 0 {
        Clear();
      } else {
        NoKeysAllZero(Sh(), keys[..], hops[..], values[..], contents, cell);
      }
      var n := size;
      if size > 2 * prevSize || (size == prevSize && !resized && size > 8) {
        HalfPow2(n);
        Recarve(n / 2);
      }
      hide Valid;
      FinishReset(n);
    }

    /** Remember the size for the next reset; go back to the plain hash function if that was
        the one asked for, which is allowed because the table is empty. */
    method FinishReset(n: nat)
      requires Valid() && contents == map[] && n >= 1
      modifies this`prevSize, this`resized, this`mixed, this`cell
      ensures Valid() && prevSize == n && !resized && mixed == mixAlways
    {
      hide OwnersHold, KeysPlaced, CellsListed, Bit, Blank, IsPow2;
      NoKeysAllZero(Sh(), keys[..], hops[..], values[..], contents, cell);
      prevSize, resized := n, false;
      if !mixAlways {
        mixed := false;
        cell := map[];
        EmptyWf(Sh(), keys[..], hops[..], values[..]);
      }
    }
  }

  // ---- Whole runs ----

  /** The addition of an absent key led from the table `s` to the table as it is. */
  lemma AddedIs(t: Table, s: Snapshot, key: int, fuel: nat)
    requires t.Valid() && s.Ok() && t.prevSize == s.prevSize
    requires s.Takes(key) ==> t.Sh() == s.sh && t.resized == s.resized && Hopped(s.sh, s.k, key, t.keys[..])
    requires !s.Takes(key) ==> t.Grown(s.sh.size, fuel, s.m.Keys, key)
    ensures t.Snap().Ok() && Added(t.Hs(), s, key, fuel, t.Snap())
  {
    hide Wf, IsPow2, HasRoom, Hopped, GrownTo, CompactBut, Hashing.ShapeFor, Snapshot.Takes;
  }

  lemma TakesIsTakesHere(t: Table, key: int)
    requires t.Valid() && !t.rehashing
    ensures t.Snap().Ok() && (t.Snap().Takes(key) <==> t.TakesHere(key))
  {
    hide Wf, IsPow2, HasRoom;
  }

  /** An addition, with or without a lookup before. */
  method Add(t: Table, op: Op, fuel: nat) returns (done: bool, a: int)
    requires t.Valid() && !t.rehashing && Allowed(t.contents, op) && (op.PutOp? || op.InsertOp?)
    modifies t.Repr()
    ensures t.Valid() && !t.rehashing && t.SameOrFreshStorage()
    ensures done ==> a == Answer(old(t.contents), op) && Follows(t.Hs(), old(t.Snap()), op, fuel, t.Snap())
    ensures !done ==> t.contents == old(t.contents)
    ensures !done <==> Refused(t.Hs(), old(t.Snap()), op, fuel)
  {
    hide Wf, IsPow2, TakenLater, Table.TakesHere, Hopped, Table.Grown, Snapshot.Takes, Added;
    ghost var s := t.Snap();
    TakesIsTakesHere(t, op.key);
    var r;
    match op {
      case PutOp(k, v) => r := t.Put(k, v, fuel);
      case InsertOp(k, v) => r := t.Insert(k, v, fuel);
    }
    done, a := r.Inserted?, if r.Inserted? then r.count else 0;
    if done && op.key !in s.m {
      AddedIs(t, s, op.key, fuel);
    }
  }

  /** One operation: it is done, except for the addition of a key that is taken neither by the table
      nor by any of its doublings. */
  method Step(t: Table, op: Op, fuel: nat) returns (done: bool, a: int)
    requires t.Valid() && !t.rehashing && Allowed(t.contents, op)
    modifies t.Repr()
    ensures t.Valid() && !t.rehashing && t.SameOrFreshStorage()
    ensures done ==> a == Answer(old(t.contents), op) && t.contents == Effect(old(t.contents), op)
    ensures done ==> Follows(t.Hs(), old(t.Snap()), op, fuel, t.Snap())
    ensures !done ==> t.contents == old(t.contents)
    ensures !done <==> Refused(t.Hs(), old(t.Snap()), op, fuel)
  {
    hide Wf, IsPow2, TakenLater, Added, Snapshot.Takes, Without, Resized;
    done := true;
    match op {
      case PutOp(_, _) =>
        done, a := Add(t, op, fuel);
      case InsertOp(_, _) =>
        done, a := Add(t, op, fuel);
      case DeleteOp(k) =>
        var d := t.Delete(k);
        a := if d then 1 else 0;
      case GetOp(k, d) =>
        a := t.Get(k, d);
      case ContainsOp(k) =>
        var c := t.Contains(k);
        a := if c then 1 else 0;
      case ResetOp =>
        t.Reset();
        a := 0;
    }
  }

  /** Every run of operations on a table answers as the finite map does. The tables in `trace`, from
      the one given on, follow one another, and each contains what the finite map does at that point. The
      run stops at an operation exactly if that adds a key which neither the table, as it is before the
      operation, nor any of the doublings allowed takes. It does not stop if the keys always fit in 2^32
      bins and doublings enough are allowed. */
  method Run(t: Table, ops: seq<Op>, fuel: nat) returns (answers: seq<int>, ghost trace: seq<Snapshot>)
    requires t.Valid() && !t.rehashing
    requires forall i :: 0 <= i < |ops| ==> Allowed(Denote(t.contents, ops[..i]), ops[i])
    modifies t.Repr()
    ensures t.Valid() && Answered(old(t.contents), ops, answers)
    ensures t.contents == Denote(old(t.contents), ops[..|answers|])
    ensures Traced(t.Hs(), ops, fuel, |answers|, trace) && trace[0] == old(t.Snap())
    ensures trace[|answers|].m == t.contents && (|answers| == |ops| ==> trace[|answers|] == t.Snap())
    ensures |answers| < |ops| ==> Refused(t.Hs(), trace[|answers|], ops[|answers|], fuel)
    ensures RoomThroughout(t.Hs(), old(t.contents), ops, fuel) ==> |answers| == |ops|
  {
    answers, trace := [], [t.Snap()];
    ghost var m, hs := t.contents, t.Hs();
    assert Denote(m, ops[..0]) == m;
    hide Wf, IsPow2, Answer, Effect, Denote, Table.Valid, Follows, Refused, RoomThroughout;
    for i := 0 to |ops|
      invariant t.Valid() && !t.rehashing && t.SameOrFreshStorage()
      invariant |answers| == i && t.contents == Denote(m, ops[..i]) && Answered(m, ops, answers)
      invariant Traced(hs, ops, fuel, i, trace) && trace[0] == old(t.Snap()) && trace[i] == t.Snap()
    {
      DenoteStep(m, ops, i);
      var done, a := Step(t, ops[i], fuel);
      if !done {
        if RoomThroughout(hs, m, ops, fuel) { NeverRefused(hs, m, ops, fuel, i, trace[i]); }
        return;
      }
      OneMoreAnswer(m, ops, answers, a);
      TraceOn(hs, ops, fuel, i, trace, t.Snap());
      answers, trace := answers + [a], trace + [t.Snap()];
    }
  }
}
