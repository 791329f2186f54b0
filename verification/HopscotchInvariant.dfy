/** What every hopscotch table keeps, stated over the contents of its three
    columns, and the three elementary updates that keep it: placing a key,
    displacing a key, removing a key. */
module HopscotchInvariant {
  import opened Common
  import opened HopBits

  /** The geometry of a table and the hash function in force.
      The key column is not circular: bins `0..size` may use the cells
      `size .. size + hopRange - 1` at the right end. */
  datatype Shape = Shape(size: nat, hopRange: nat, hash: int -> nat)
  {
    ghost predicate Ok() {
      size > 0 && hopRange > 0 && IsPow2(size)
    }

    /** `hash(ht, key) & ht->mask` */
    function Bin(key: int): (b: nat)
      requires size > 0
    {
      And(hash(key), size - 1)
    }

    function Cells(): nat
      requires hopRange > 0
    {
      size + hopRange - 1
    }
  }

  lemma BinBelowSize(sh: Shape, key: int)
    requires sh.Ok()
    ensures sh.Bin(key) < sh.size
    ensures sh.Bin(key) == sh.hash(key) % sh.size
  {
    AndMaskIsMod(sh.hash(key), Log2(sh.size));
  }

  /** The three columns agree with each other and with the finite map `m`;
      `at` names the cell in which each key sits. Key 0 means an empty cell. */
  ghost predicate Wf(sh: Shape, k: seq<int>, h: seq<nat>, v: seq<int>, m: map<int, int>, at: map<int, nat>)
  {
    && sh.Ok()
    && |k| == |v| == sh.Cells() && |h| == sh.size
    && m.Keys == at.Keys
    && OwnersHold(sh, k, h)
    && KeysPlaced(sh, k, h, v, m, at)
    && CellsListed(k, v, at)
  }

  /** Every hop bit claims an occupied cell whose key hashes to the claiming bin. */
  ghost predicate OwnersHold(sh: Shape, k: seq<int>, h: seq<nat>)
    requires sh.Ok() && |k| == sh.Cells() && |h| == sh.size
  {
    forall b: nat, j: nat :: b < sh.size && Bit(h[b], j) ==>
      j < sh.hopRange && k[b + j] != 0 && sh.Bin(k[b + j]) == b
  }

  /** Every key of the map is in a cell of its bin's neighbourhood and that bin claims the cell. */
  ghost predicate KeysPlaced(sh: Shape, k: seq<int>, h: seq<nat>, v: seq<int>, m: map<int, int>, at: map<int, nat>)
    requires sh.Ok() && |k| == |v| == sh.Cells() && |h| == sh.size && m.Keys == at.Keys
  {
    forall key :: key in at ==> KeyPlaced(sh, k, h, v, m, at, key)
  }

  ghost predicate KeyPlaced(sh: Shape, k: seq<int>, h: seq<nat>, v: seq<int>, m: map<int, int>, at: map<int, nat>,
                            key: int)
    requires sh.Ok() && |k| == |v| == sh.Cells() && |h| == sh.size && m.Keys == at.Keys && key in at
  {
    var b, p := sh.Bin(key), at[key];
    key != 0 && b < sh.size && b <= p < b + sh.hopRange && k[p] == key && v[p] == m[key] && Bit(h[b], p - b)
  }

  /** Every occupied cell is the cell of its key; an empty cell has value 0. */
  ghost predicate CellsListed(k: seq<int>, v: seq<int>, at: map<int, nat>)
    requires |k| == |v|
  {
    forall p: nat :: p < |k| ==>
      (k[p] != 0 ==> k[p] in at && at[k[p]] == p) && (k[p] == 0 ==> v[p] == 0)
  }

  /** `h2` is `h1` with bit `j` switched on. */
  ghost predicate BitSet(h1: nat, h2: nat, j: nat) {
    forall i: nat :: Bit(h2, i) <==> Bit(h1, i) || i == j
  }

  /** `h2` is `h1` with bit `j` switched off. */
  ghost predicate BitCleared(h1: nat, h2: nat, j: nat) {
    forall i: nat :: Bit(h2, i) <==> Bit(h1, i) && i != j
  }

  /** `h2` is `h1` with bit `off` switched off and bit `on` switched on. */
  ghost predicate BitMoved(h1: nat, h2: nat, off: nat, on: nat) {
    forall i: nat :: Bit(h2, i) <==> i == on || (Bit(h1, i) && i != off)
  }

  lemma OrSetsBit(h: nat, j: nat)
    ensures BitSet(h, Or(h, Pow2(j)), j)
  {
    forall i: nat ensures Bit(Or(h, Pow2(j)), i) <==> Bit(h, i) || i == j {
      BitOfOr(h, Pow2(j), i);
      BitOfPow2(j, i);
    }
  }

  lemma XorClearsBit(h: nat, j: nat)
    requires Bit(h, j)
    ensures BitCleared(h, Xor(h, Pow2(j)), j)
  {
    forall i: nat ensures Bit(Xor(h, Pow2(j)), i) <==> Bit(h, i) && i != j {
      BitOfXor(h, Pow2(j), i);
      BitOfPow2(j, i);
    }
  }

  lemma XorMovesBit(h: nat, off: nat, on: nat)
    requires Bit(h, off) && !Bit(h, on)
    ensures BitMoved(h, Xor(h, Or(Pow2(on), Pow2(off))), off, on)
  {
    var flip := Or(Pow2(on), Pow2(off));
    forall i: nat ensures Bit(Xor(h, flip), i) <==> i == on || (Bit(h, i) && i != off) {
      BitOfXor(h, flip, i);
      BitOfOr(Pow2(on), Pow2(off), i);
      BitOfPow2(on, i);
      BitOfPow2(off, i);
    }
  }

  lemma LowOnesKeepsLowBits(h: nat, n: nat)
    ensures forall j: nat :: Bit(And(h, LowOnes(n)), j) <==> Bit(h, j) && j < n
  {
    forall j: nat ensures Bit(And(h, LowOnes(n)), j) <==> Bit(h, j) && j < n {
      BitOfAnd(h, LowOnes(n), j);
      BitOfLowOnes(n, j);
    }
  }

  ghost predicate Blank(s: seq<int>) {
    forall i :: 0 <= i < |s| ==> s[i] == 0
  }

  lemma EmptyWf(sh: Shape, k: seq<int>, h: seq<nat>, v: seq<int>)
    requires sh.Ok() && |k| == |v| == sh.Cells() && |h| == sh.size
    requires Blank(k) && Blank(h) && Blank(v)
    ensures Wf(sh, k, h, v, map[], map[])
  {
    forall b: nat, j: nat | b < sh.size ensures !Bit(h[b], j) { BitOfZero(j); }
  }

  /** A table without keys has only zeros in all three columns. */
  lemma NoKeysAllZero(sh: Shape, k: seq<int>, h: seq<nat>, v: seq<int>, m: map<int, int>, at: map<int, nat>)
    requires Wf(sh, k, h, v, m, at) && |m| == 0
    ensures Blank(k) && Blank(h) && Blank(v)
  {
    assert at.Keys == {};
    forall b | 0 <= b < |h| ensures h[b] == 0 {
      assert h[b] != 0 ==> Bit(h[b], LowestBit(h[b]));
    }
  }

  /** Storing a new key in an empty cell of its neighbourhood. */
  lemma PlaceKeepsWf(sh: Shape, k: seq<int>, h: seq<nat>, v: seq<int>, m: map<int, int>, at: map<int, nat>,
                     p: nat, key: int, val: int, mask: nat)
    requires Wf(sh, k, h, v, m, at)
    requires key != 0 && key !in m
    requires sh.Bin(key) < sh.size && sh.Bin(key) <= p < sh.Bin(key) + sh.hopRange && k[p] == 0
    requires BitSet(h[sh.Bin(key)], mask, p - sh.Bin(key))
    ensures Wf(sh, k[p := key], h[sh.Bin(key) := mask], v[p := val], m[key := val], at[key := p])
  {
    hide OwnersHold, KeysPlaced, BitSet, Bit;
    PlaceKeepsOwners(sh, k, h, p, key, mask);
    PlaceKeepsKeys(sh, k, h, v, m, at, p, key, val, mask);
  }

  lemma PlaceKeepsOwners(sh: Shape, k: seq<int>, h: seq<nat>, p: nat, key: int, mask: nat)
    requires sh.Ok() && |k| == sh.Cells() && |h| == sh.size && OwnersHold(sh, k, h) && key != 0
    requires sh.Bin(key) < sh.size && sh.Bin(key) <= p < sh.Bin(key) + sh.hopRange && k[p] == 0
    requires BitSet(h[sh.Bin(key)], mask, p - sh.Bin(key))
    ensures OwnersHold(sh, k[p := key], h[sh.Bin(key) := mask])
  {
    var b := sh.Bin(key);
    var h' := h[b := mask];
    forall c: nat, j: nat | c < sh.size && Bit(h'[c], j)
      ensures j < sh.hopRange && k[p := key][c + j] != 0 && sh.Bin(k[p := key][c + j]) == c
    {
      if !(c == b && j == p - b) { assert Bit(h[c], j); }
    }
  }

  lemma PlaceKeepsKeys(sh: Shape, k: seq<int>, h: seq<nat>, v: seq<int>, m: map<int, int>, at: map<int, nat>,
                       p: nat, key: int, val: int, mask: nat)
    requires sh.Ok() && |k| == |v| == sh.Cells() && |h| == sh.size && m.Keys == at.Keys
    requires KeysPlaced(sh, k, h, v, m, at)
    requires key != 0 && key !in m
    requires sh.Bin(key) < sh.size && sh.Bin(key) <= p < sh.Bin(key) + sh.hopRange && k[p] == 0
    requires BitSet(h[sh.Bin(key)], mask, p - sh.Bin(key))
    ensures KeysPlaced(sh, k[p := key], h[sh.Bin(key) := mask], v[p := val], m[key := val], at[key := p])
  {
    var k', h', v', m', at' := k[p := key], h[sh.Bin(key) := mask], v[p := val], m[key := val], at[key := p];
    forall x | x in at' ensures KeyPlaced(sh, k', h', v', m', at', x) {
      if x != key { assert KeyPlaced(sh, k, h, v, m, at, x); }
    }
  }

  /** One displacement: the key in cell `p`, owned by bin `b`, goes to the empty cell `q`.
      The table still represents the same map. */
  lemma MoveKeepsWf(sh: Shape, k: seq<int>, h: seq<nat>, v: seq<int>, m: map<int, int>, at: map<int, nat>,
                    b: nat, p: nat, q: nat, mask: nat)
    requires Wf(sh, k, h, v, m, at)
    requires b < sh.size && b <= p < b + sh.hopRange && b <= q < b + sh.hopRange
    requires k[q] == 0 && Bit(h[b], p - b)
    requires BitMoved(h[b], mask, p - b, q - b)
    ensures k[p] != 0 && k[p] in at && at[k[p]] == p
    ensures Wf(sh, k[q := k[p]][p := 0], h[b := mask], v[q := v[p]][p := 0], m, at[k[p] := q])
  {
    hide OwnersHold, KeysPlaced, BitMoved, Bit;
    OwnedCell(sh, k, h, b, p);
    MoveKeepsOwners(sh, k, h, b, p, q, mask);
    MoveKeepsKeys(sh, k, h, v, m, at, b, p, q, mask);
  }

  lemma EmptyCellUnclaimed(sh: Shape, k: seq<int>, h: seq<nat>, b: nat, q: nat)
    requires sh.Ok() && |k| == sh.Cells() && |h| == sh.size && OwnersHold(sh, k, h)
    requires b < sh.size && b <= q < |k| && k[q] == 0
    ensures !Bit(h[b], q - b)
  {
    var j: nat := q - b;
    assert forall i: nat :: Bit(h[b], i) ==> k[b + i] != 0;
    assert k[b + j] == 0;
  }

  lemma OwnedCell(sh: Shape, k: seq<int>, h: seq<nat>, b: nat, p: nat)
    requires sh.Ok() && |k| == sh.Cells() && |h| == sh.size && OwnersHold(sh, k, h)
    requires b < sh.size && b <= p && Bit(h[b], p - b)
    ensures p < b + sh.hopRange && k[p] != 0 && sh.Bin(k[p]) == b
  {
    var j: nat := p - b;
    assert k[b + j] != 0 && sh.Bin(k[b + j]) == b;
  }

  lemma MoveKeepsOwners(sh: Shape, k: seq<int>, h: seq<nat>, b: nat, p: nat, q: nat, mask: nat)
    requires sh.Ok() && |k| == sh.Cells() && |h| == sh.size && OwnersHold(sh, k, h)
    requires b < sh.size && b <= p < b + sh.hopRange && b <= q < b + sh.hopRange
    requires k[q] == 0 && Bit(h[b], p - b)
    requires BitMoved(h[b], mask, p - b, q - b)
    ensures OwnersHold(sh, k[q := k[p]][p := 0], h[b := mask])
  {
    OwnedCell(sh, k, h, b, p);
    var k', h' := k[q := k[p]][p := 0], h[b := mask];
    forall c: nat, j: nat | c < sh.size && Bit(h'[c], j)
      ensures j < sh.hopRange && k'[c + j] != 0 && sh.Bin(k'[c + j]) == c
    {
      if !(c == b && j == q - b) {
        assert Bit(h[c], j);
        assert c + j != q && c + j != p;
      }
    }
  }

  lemma MoveKeepsKeys(sh: Shape, k: seq<int>, h: seq<nat>, v: seq<int>, m: map<int, int>, at: map<int, nat>,
                      b: nat, p: nat, q: nat, mask: nat)
    requires sh.Ok() && |k| == |v| == sh.Cells() && |h| == sh.size && m.Keys == at.Keys
    requires KeysPlaced(sh, k, h, v, m, at)
    requires b < sh.size && b <= p < b + sh.hopRange && b <= q < b + sh.hopRange
    requires k[q] == 0 && k[p] != 0 && k[p] in at && at[k[p]] == p && sh.Bin(k[p]) == b
    requires BitMoved(h[b], mask, p - b, q - b)
    ensures at[k[p] := q].Keys == at.Keys
    ensures KeysPlaced(sh, k[q := k[p]][p := 0], h[b := mask], v[q := v[p]][p := 0], m, at[k[p] := q])
  {
    var k', h', v', at' := k[q := k[p]][p := 0], h[b := mask], v[q := v[p]][p := 0], at[k[p] := q];
    assert at'.Keys == at.Keys;
    forall x | x in at' ensures KeyPlaced(sh, k', h', v', m, at', x) {
      assert KeyPlaced(sh, k, h, v, m, at, x);
      assert x != k[p] ==> at[x] != p && at[x] != q;
    }
  }

  /** Emptying the cell of a key. */
  lemma RemoveKeepsWf(sh: Shape, k: seq<int>, h: seq<nat>, v: seq<int>, m: map<int, int>, at: map<int, nat>,
                      key: int, mask: nat)
    requires Wf(sh, k, h, v, m, at)
    requires key in at
    requires KeyPlaced(sh, k, h, v, m, at, key) && BitCleared(h[sh.Bin(key)], mask, at[key] - sh.Bin(key))
    ensures Wf(sh, k[at[key] := 0], h[sh.Bin(key) := mask], v[at[key] := 0], m - {key}, at - {key})
  {
    hide OwnersHold, KeysPlaced, BitCleared, Bit;
    RemoveKeepsOwners(sh, k, h, key, at[key], mask);
    RemoveKeepsKeys(sh, k, h, v, m, at, key, mask);
  }

  lemma RemoveKeepsOwners(sh: Shape, k: seq<int>, h: seq<nat>, key: int, p: nat, mask: nat)
    requires sh.Ok() && |k| == sh.Cells() && |h| == sh.size && OwnersHold(sh, k, h)
    requires p < |k| && k[p] == key && sh.Bin(key) < sh.size && sh.Bin(key) <= p
    requires BitCleared(h[sh.Bin(key)], mask, p - sh.Bin(key))
    ensures OwnersHold(sh, k[p := 0], h[sh.Bin(key) := mask])
  {
    var k', h' := k[p := 0], h[sh.Bin(key) := mask];
    forall c: nat, j: nat | c < sh.size && Bit(h'[c], j)
      ensures j < sh.hopRange && k'[c + j] != 0 && sh.Bin(k'[c + j]) == c
    {
      assert Bit(h[c], j);
      assert c + j != p;
    }
  }

  lemma RemoveKeepsKeys(sh: Shape, k: seq<int>, h: seq<nat>, v: seq<int>, m: map<int, int>, at: map<int, nat>,
                        key: int, mask: nat)
    requires sh.Ok() && |k| == |v| == sh.Cells() && |h| == sh.size && m.Keys == at.Keys
    requires KeysPlaced(sh, k, h, v, m, at) && key in at
    requires KeyPlaced(sh, k, h, v, m, at, key) && BitCleared(h[sh.Bin(key)], mask, at[key] - sh.Bin(key))
    ensures (m - {key}).Keys == (at - {key}).Keys
    ensures KeysPlaced(sh, k[at[key] := 0], h[sh.Bin(key) := mask], v[at[key] := 0], m - {key}, at - {key})
  {
    var p := at[key];
    var k', h', v', m', at' := k[p := 0], h[sh.Bin(key) := mask], v[p := 0], m - {key}, at - {key};
    forall x | x in at' ensures KeyPlaced(sh, k', h', v', m', at', x) {
      assert KeyPlaced(sh, k, h, v, m, at, x);
      assert at[x] != p;
    }
  }

  /** What hopscotch_delete does to the columns once it has found the key. */
  lemma EraseKeepsWf(sh: Shape, k: seq<int>, h: seq<nat>, v: seq<int>, m: map<int, int>, at: map<int, nat>,
                     key: int, logical: nat, physical: nat)
    requires Wf(sh, k, h, v, m, at) && key in m && logical == sh.Bin(key) && physical == at[key]
    ensures logical < |h| && logical <= physical < |k| && |m - {key}| == |m| - 1
    ensures var mask := Xor(h[logical], Pow2(physical - logical));
            Wf(sh, k[physical := 0], h[logical := mask], v[physical := 0], m - {key}, at - {key})
  {
    hide OwnersHold, CellsListed, Bit, And, Pow2, Xor, BitCleared, IsPow2;
    assert KeyPlaced(sh, k, h, v, m, at, key);
    hide KeysPlaced;
    XorClearsBit(h[logical], physical - logical);
    RemoveKeepsWf(sh, k, h, v, m, at, key, Xor(h[logical], Pow2(physical - logical)));
    CardWithout(m, key);
  }

  /** Overwriting the value of a key. */
  lemma UpdateKeepsWf(sh: Shape, k: seq<int>, h: seq<nat>, v: seq<int>, m: map<int, int>, at: map<int, nat>,
                      key: int, val: int)
    requires Wf(sh, k, h, v, m, at)
    requires key in at && at[key] < |v|
    ensures Wf(sh, k, h, v[at[key] := val], m[key := val], at)
  {
    var v', m' := v[at[key] := val], m[key := val];
    assert KeyPlaced(sh, k, h, v, m, at, key);
    assert m'.Keys == at.Keys;
    forall x | x in at ensures KeyPlaced(sh, k, h, v', m', at, x) {
      assert KeyPlaced(sh, k, h, v, m, at, x);
      assert at[x] == at[key] ==> x == key;
    }
  }

  /** No cell is claimed by two bins. */
  lemma ClaimIsUnique(sh: Shape, k: seq<int>, h: seq<nat>, v: seq<int>, m: map<int, int>, at: map<int, nat>,
                      b: nat, j: nat, c: nat, i: nat)
    requires Wf(sh, k, h, v, m, at)
    requires b < sh.size && c < sh.size && Bit(h[b], j) && Bit(h[c], i) && b + j == c + i
    ensures b == c && j == i
  {
    hide Bit, KeysPlaced, CellsListed;
    assert sh.Bin(k[b + j]) == b;
    assert sh.Bin(k[c + i]) == c;
  }

  /** A bin's mask fits the hop range, so in 32 bits. */
  lemma {:induction false} MaskFits(m: nat, w: nat)
    requires forall j: nat :: Bit(m, j) ==> j < w
    ensures m < Pow2(w)
    decreases w
  {
    if m != 0 {
      assert Bit(m, LowestBit(m));
      if w > 0 {
        forall j: nat | Bit(m / 2, j) ensures j < w - 1 { assert Bit(m, j + 1); }
        MaskFits(m / 2, w - 1);
      }
    }
  }

  /** What a lookup relies on: key and cell determine each other, and the bin claims the cell. */
  lemma Lookup(sh: Shape, k: seq<int>, h: seq<nat>, v: seq<int>, m: map<int, int>, at: map<int, nat>, key: int)
    requires Wf(sh, k, h, v, m, at) && key != 0
    ensures forall p :: 0 <= p < |k| && k[p] == key ==> key in m && at[key] == p
    ensures key in m ==> key in at && KeyPlaced(sh, k, h, v, m, at, key)
  {
  }

  lemma MaskWithinRange(sh: Shape, k: seq<int>, h: seq<nat>, v: seq<int>, m: map<int, int>, at: map<int, nat>, b: nat,
                        j: nat)
    requires Wf(sh, k, h, v, m, at) && b < sh.size && Bit(h[b], j)
    ensures j < sh.hopRange
  {
  }

  // ---- Probing a neighbourhood in aligned groups of cells ----

  /** `bits` is what is left of `mask` after shifting right by `s`. */
  ghost predicate Remaining(mask: nat, bits: nat, s: nat) {
    forall j: nat :: Bit(bits, j) <==> Bit(mask, j + s)
  }

  /** Some bit of `mask` lies in the aligned group of `width` bits around bit `j`. */
  ghost predicate GroupHit(mask: nat, width: nat, j: nat)
    requires width > 0
  {
    exists i: nat :: Bit(mask, i) && i / width == j / width
  }

  /** A probe in groups of `width` cells compares `key` with an equal cell. */
  ghost predicate Probed(sh: Shape, k: seq<int>, mask: nat, b: nat, width: nat, key: int)
    requires width > 0
  {
    exists j: nat :: j < sh.hopRange && b + j < |k| && k[b + j] == key && GroupHit(mask, width, j)
  }

  lemma ShiftRemaining(mask: nat, bits: nat, s: nat, w: nat)
    requires Remaining(mask, bits, s)
    ensures Remaining(mask, Shr(bits, w), s + w)
  {
    forall j: nat ensures Bit(Shr(bits, w), j) <==> Bit(mask, j + (s + w)) {
      BitOfShr(bits, w, j);
      assert j + (s + w) == (j + w) + s;
    }
  }

  /** The low bits that remain say whether the current group is hit. */
  lemma GroupTest(mask: nat, bits: nat, s: nat, w: nat)
    requires Remaining(mask, bits, s) && w in {4, 8} && s % w == 0
    ensures bits % Pow2(w) != 0 <==> GroupHit(mask, w, s)
    ensures bits % Pow2(w) != 0 ==> exists i: nat :: Bit(mask, i) && s <= i < s + w
  {
    if bits % Pow2(w) != 0 {
      LowBitExists(bits, w);
      var j := LowestBit(bits);
      assert Bit(bits, j) && Bit(mask, j + s);
      assert (j + s) / w == s / w;
    }
    if GroupHit(mask, w, s) {
      var i: nat :| Bit(mask, i) && i / w == s / w;
      var j: nat := i - s;
      assert Bit(bits, j);
      LowBitSeen(bits, w, j);
    }
  }

  /** No probe of a hit group leaves the key column, for hop ranges 8, 16 and 32. */
  lemma GroupInRange(sh: Shape, k: seq<int>, h: seq<nat>, v: seq<int>, m: map<int, int>, at: map<int, nat>,
                     b: nat, bits: nat, s: nat, w: nat)
    requires Wf(sh, k, h, v, m, at) && sh.hopRange in {8, 16, 32}
    requires b < sh.size && Remaining(h[b], bits, s) && w in {4, 8} && s % w == 0 && bits % Pow2(w) != 0
    ensures s + w <= sh.hopRange && b + s + w <= |k|
  {
    hide OwnersHold, KeysPlaced, CellsListed, Remaining, GroupHit, Bit, Pow2, IsPow2;
    GroupTest(h[b], bits, s, w);
    var i: nat :| Bit(h[b], i) && s <= i < s + w;
    MaskWithinRange(sh, k, h, v, m, at, b, i);
    AlignedGroupFits(s, w, i, sh.hopRange);
  }

  lemma AlignedGroupFits(s: nat, w: nat, i: nat, r: nat)
    requires w in {4, 8} && r in {8, 16, 32} && s % w == 0 && s <= i < r
    ensures s + w <= r
  {
  }

  /** Although a probe ignores the individual hop bits inside a group, for a nonzero key it
      meets an equal cell exactly if the key is in the map. */
  lemma ProbedIffPresent(sh: Shape, k: seq<int>, h: seq<nat>, v: seq<int>, m: map<int, int>, at: map<int, nat>,
                         key: int, w: nat)
    requires Wf(sh, k, h, v, m, at) && key != 0 && w > 0 && sh.Bin(key) < sh.size
    ensures Probed(sh, k, h[sh.Bin(key)], sh.Bin(key), w, key) <==> key in m
  {
    hide OwnersHold, KeysPlaced, CellsListed, Bit;
    Lookup(sh, k, h, v, m, at, key);
    if key in m {
      var j: nat := at[key] - sh.Bin(key);
      assert Bit(h[sh.Bin(key)], j) && k[sh.Bin(key) + j] == key;
      assert GroupHit(h[sh.Bin(key)], w, j);
    }
  }

  /** None of the hit groups before offset `s` has a cell equal to `key`. */
  ghost predicate NotSeen(k: seq<int>, mask: nat, b: nat, s: nat, w: nat, key: int)
    requires w > 0
  {
    forall j: nat :: j < s && b + j < |k| && GroupHit(mask, w, j) ==> k[b + j] != key
  }

  lemma NothingSeen(k: seq<int>, mask: nat, b: nat, w: nat, key: int)
    requires w > 0
    ensures NotSeen(k, mask, b, 0, w, key)
  {
  }

  lemma GroupSeen(sh: Shape, k: seq<int>, mask: nat, b: nat, s: nat, w: nat, key: int, j: nat)
    requires w in {4, 8} && s % w == 0 && GroupHit(mask, w, s) && s <= j < s + w
    requires j < sh.hopRange && b + j < |k| && k[b + j] == key
    ensures Probed(sh, k, mask, b, w, key)
  {
    var i: nat :| Bit(mask, i) && i / w == s / w;
    assert i / w == j / w;
    assert GroupHit(mask, w, j);
  }

  lemma NotSeenStep(k: seq<int>, mask: nat, b: nat, s: nat, w: nat, key: int)
    requires w in {4, 8} && s % w == 0 && NotSeen(k, mask, b, s, w, key)
    requires GroupHit(mask, w, s) ==> forall p :: b + s <= p < b + s + w && p < |k| ==> k[p] != key
    ensures NotSeen(k, mask, b, s + w, w, key)
  {
    forall j: nat | j < s + w && b + j < |k| && GroupHit(mask, w, j) ensures k[b + j] != key {
      if j >= s {
        assert j / w == s / w;
        var i: nat :| Bit(mask, i) && i / w == j / w;
        assert GroupHit(mask, w, s);
      }
    }
  }

  lemma NotSeenEnd(sh: Shape, k: seq<int>, mask: nat, b: nat, s: nat, w: nat, key: int)
    requires w in {4, 8} && s % w == 0 && NotSeen(k, mask, b, s, w, key) && Remaining(mask, 0, s)
    ensures !Probed(sh, k, mask, b, w, key)
  {
    forall i: nat | i >= s ensures !Bit(mask, i) {
      BitOfZero(i - s);
      assert Bit(0, i - s) == Bit(mask, i - s + s);
    }
    forall j: nat | GroupHit(mask, w, j) ensures j < s {
      var i: nat :| Bit(mask, i) && i / w == j / w;
    }
  }

  lemma FirstRemaining(mask: nat, bits: nat, s: nat)
    requires Remaining(mask, bits, s)
    ensures Bit(mask, s) <==> bits % 2 == 1
  {
    assert Bit(bits, 0) <==> Bit(mask, 0 + s);
  }

  lemma NoneRemaining(mask: nat, s: nat, j: nat)
    requires Remaining(mask, 0, s) && s <= j
    ensures !Bit(mask, j)
  {
    BitOfZero(j - s);
    assert Bit(0, j - s) <==> Bit(mask, j - s + s);
  }

  lemma RemainingAll(mask: nat)
    ensures Remaining(mask, mask, 0)
  {
  }

  // ---- Rehashing ----

  /** The part of the map whose keys sit in cells from `i` on. */
  ghost function From(m: map<int, int>, at: map<int, nat>, i: nat): map<int, int>
    requires m.Keys == at.Keys
  {
    map key | key in m && at[key] >= i :: m[key]
  }

  lemma FromStep(sh: Shape, k: seq<int>, h: seq<nat>, v: seq<int>, m: map<int, int>, at: map<int, nat>, i: nat)
    requires Wf(sh, k, h, v, m, at) && i < |k|
    ensures k[i] != 0 ==> k[i] !in From(m, at, i + 1) && k[i] in m && From(m, at, i) == From(m, at, i + 1)[k[i] := v[i]]
    ensures k[i] == 0 ==> From(m, at, i) == From(m, at, i + 1)
  {
    hide OwnersHold, Bit;
    forall key | key in m ensures at[key] == i ==> key == k[i] && m[key] == v[i] {
      assert KeyPlaced(sh, k, h, v, m, at, key);
    }
  }

  lemma FromSubset(m: map<int, int>, at: map<int, nat>, i: nat)
    requires m.Keys == at.Keys
    ensures From(m, at, i).Keys <= m.Keys
  {
  }

  lemma FromEnds(sh: Shape, k: seq<int>, h: seq<nat>, v: seq<int>, m: map<int, int>, at: map<int, nat>)
    requires Wf(sh, k, h, v, m, at)
    ensures From(m, at, |k|) == map[] && From(m, at, 0) == m
  {
    forall key | key in m ensures at[key] < |k| {
      assert KeyPlaced(sh, k, h, v, m, at, key);
    }
  }

  lemma SmallMod(a: nat, n: nat)
    requires a < n
    ensures a % n == a
  {
  }

  // ---- Counting: what hopscotch_integrity_check recomputes ----

  function OccupiedCells(k: seq<int>): nat
  {
    if k == [] then 0 else OccupiedCells(k[..|k| - 1]) + (if k[|k| - 1] != 0 then 1 else 0)
  }

  function TotalBits(h: seq<nat>): nat
  {
    if h == [] then 0 else TotalBits(h[..|h| - 1]) + PopCount(h[|h| - 1])
  }

  ghost function KeysIn(k: seq<int>): set<int> {
    set x | x in k && x != 0
  }

  lemma {:induction false} OccupiedCountsKeys(k: seq<int>)
    requires forall p, q :: 0 <= p < q < |k| && k[p] != 0 ==> k[p] != k[q]
    ensures OccupiedCells(k) == |KeysIn(k)|
  {
    if k != [] {
      OccupiedCountsKeys(k[..|k| - 1]);
      KeysInStep(k);
    }
  }

  lemma KeysInStep(k: seq<int>)
    requires k != [] && forall p, q :: 0 <= p < q < |k| && k[p] != 0 ==> k[p] != k[q]
    ensures var front, last := KeysIn(k[..|k| - 1]), k[|k| - 1];
            last !in front && KeysIn(k) == if last != 0 then front + {last} else front
  {
    var init, last := k[..|k| - 1], k[|k| - 1];
    forall x ensures x in k <==> x in init || x == last { assert k == init + [last]; }
  }

  ghost function BitsOf(m: nat): set<nat>
  {
    set j: nat | j <= m && Bit(m, j)
  }

  lemma {:induction false} BitIndexSmall(m: nat, j: nat)
    requires Bit(m, j)
    ensures j < m
  {
    if j > 0 { BitIndexSmall(m / 2, j - 1); }
  }

  lemma BitsOfHalf(m: nat, j: nat)
    ensures j + 1 in BitsOf(m) <==> j in BitsOf(m / 2)
  {
    assert Bit(m, j + 1) <==> Bit(m / 2, j);
    if Bit(m / 2, j) {
      BitIndexSmall(m / 2, j);
      BitIndexSmall(m, j + 1);
    }
  }

  lemma UpperBits(m: nat)
    ensures BitsOf(m) - {0} == Raised(BitsOf(m / 2))
  {
    hide BitsOf;
    RaisedMembers(BitsOf(m / 2));
    hide Raised;
    forall j: nat ensures j in BitsOf(m) - {0} <==> j in Raised(BitsOf(m / 2)) {
      if j > 0 { BitsOfHalf(m, j - 1); }
    }
  }

  lemma {:induction false} PopCountCountsBits(m: nat)
    ensures PopCount(m) == |BitsOf(m)|
  {
    if m == 0 {
      forall j: nat ensures !Bit(0, j) { BitOfZero(j); }
      assert BitsOf(m) == {};
    } else {
      PopCountCountsBits(m / 2);
      RaisedCard(BitsOf(m / 2));
      assert 0 in BitsOf(m) <==> m % 2 == 1;
      UpperBits(m);
    }
  }

  ghost function Raised(s: set<nat>): set<nat> {
    set j | j in s :: j + 1
  }

  lemma {:induction false} RaisedCard(s: set<nat>)
    ensures |Raised(s)| == |s|
    decreases s
  {
    if s == {} {
      assert Raised(s) == {};
    } else {
      var x :| x in s;
      RaisedCard(s - {x});
      RaisedMembers(s);
      RaisedMembers(s - {x});
      hide Raised;
      assert Raised(s) == Raised(s - {x}) + {x + 1};
    }
  }

  lemma RaisedMembers(s: set<nat>)
    ensures forall y: nat :: y in Raised(s) <==> y > 0 && y - 1 in s
  {
    forall y: nat | y > 0 && y - 1 in s ensures y in Raised(s) {
      var j: nat := y - 1;
      assert j in s;
    }
  }

  /** The keys claimed by one bin. */
  ghost function BinKeys(sh: Shape, m: map<int, int>, b: nat): set<int>
    requires sh.Ok()
  {
    set key | key in m && sh.Bin(key) == b
  }

  ghost function KeysBelow(sh: Shape, m: map<int, int>, b: nat): set<int>
    requires sh.Ok()
  {
    set key | key in m && sh.Bin(key) < b
  }

  lemma {:induction false} BinKeysCount(sh: Shape, k: seq<int>, h: seq<nat>, v: seq<int>, m: map<int, int>,
                                        at: map<int, nat>, b: nat)
    requires Wf(sh, k, h, v, m, at) && b < sh.size
    ensures PopCount(h[b]) == |BinKeys(sh, m, b)| <= sh.hopRange
  {
    PopCountCountsBits(h[b]);
    OffsetsOfBin(sh, k, h, v, m, at, b);
    hide Wf, BitsOf, BinKeys, PopCount, Bit;
    KeysAtCard(k, at, b, BitsOf(h[b]));
    SameKeys(k, at, b, BitsOf(h[b]), BinKeys(sh, m, b));
    BoundedCard(BitsOf(h[b]), sh.hopRange);
  }

  lemma OffsetsOfBin(sh: Shape, k: seq<int>, h: seq<nat>, v: seq<int>, m: map<int, int>, at: map<int, nat>, b: nat)
    requires Wf(sh, k, h, v, m, at) && b < sh.size
    ensures forall j :: j in BitsOf(h[b]) ==>
      j < sh.hopRange && b + j < |k| && k[b + j] in BinKeys(sh, m, b) && k[b + j] in at && at[k[b + j]] == b + j
    ensures forall x :: x in BinKeys(sh, m, b) ==>
      x in at && b <= at[x] < |k| && at[x] - b in BitsOf(h[b]) && k[at[x]] == x
  {
    hide OwnersHold, KeysPlaced, CellsListed, BinKeys, BitsOf, Bit;
    forall j | j in BitsOf(h[b])
      ensures j < sh.hopRange && k[b + j] in BinKeys(sh, m, b) && k[b + j] in at && at[k[b + j]] == b + j
    {
      BitNamesKey(sh, k, h, v, m, at, b, j);
    }
    forall x | x in BinKeys(sh, m, b)
      ensures x in at && b <= at[x] < |k| && at[x] - b in BitsOf(h[b]) && k[at[x]] == x
    {
      KeyNamesBit(sh, k, h, v, m, at, b, x);
    }
  }

  lemma BitNamesKey(sh: Shape, k: seq<int>, h: seq<nat>, v: seq<int>, m: map<int, int>, at: map<int, nat>, b: nat,
                    j: nat)
    requires Wf(sh, k, h, v, m, at) && b < sh.size && j in BitsOf(h[b])
    ensures j < sh.hopRange && k[b + j] in BinKeys(sh, m, b) && k[b + j] in at && at[k[b + j]] == b + j
  {
    hide Bit, KeysPlaced;
    assert Bit(h[b], j);
  }

  lemma KeyNamesBit(sh: Shape, k: seq<int>, h: seq<nat>, v: seq<int>, m: map<int, int>, at: map<int, nat>, b: nat,
                    x: int)
    requires Wf(sh, k, h, v, m, at) && b < sh.size && x in BinKeys(sh, m, b)
    ensures x in at && b <= at[x] < |k| && at[x] - b in BitsOf(h[b]) && k[at[x]] == x
  {
    hide Bit, OwnersHold, CellsListed;
    assert KeyPlaced(sh, k, h, v, m, at, x);
    BitIndexSmall(h[b], at[x] - b);
  }

  lemma SameKeys(k: seq<int>, at: map<int, nat>, b: nat, offs: set<nat>, ks: set<int>)
    requires forall j :: j in offs ==> b + j < |k| && k[b + j] in ks
    requires forall x :: x in ks ==> x in at && b <= at[x] < |k| && at[x] - b in offs && k[at[x]] == x
    ensures KeysAt(k, b, offs) == ks
  {
    forall x | x in ks ensures x in KeysAt(k, b, offs) {
      var j: nat := at[x] - b;
      assert j in offs && b + j < |k| && k[b + j] == x;
    }
  }

  /** The keys at these offsets from cell `b`. */
  ghost function KeysAt(k: seq<int>, b: nat, offs: set<nat>): set<int> {
    set j | j in offs && b + j < |k| :: k[b + j]
  }

  lemma {:induction false} KeysAtCard(k: seq<int>, at: map<int, nat>, b: nat, offs: set<nat>)
    requires forall j :: j in offs ==> b + j < |k| && k[b + j] in at && at[k[b + j]] == b + j
    ensures |KeysAt(k, b, offs)| == |offs|
    decreases offs
  {
    if offs == {} {
      assert KeysAt(k, b, offs) == {};
    } else {
      var j :| j in offs;
      KeysAtCard(k, at, b, offs - {j});
      OneMoreKey(k, b, offs, j);
      KeyNotAt(k, at, b, offs - {j}, j);
    }
  }

  lemma OneMoreKey(k: seq<int>, b: nat, offs: set<nat>, j: nat)
    requires j in offs && b + j < |k|
    ensures KeysAt(k, b, offs) == KeysAt(k, b, offs - {j}) + {k[b + j]}
  {
    forall x | x in KeysAt(k, b, offs) ensures x in KeysAt(k, b, offs - {j}) + {k[b + j]} {
      var i :| i in offs && b + i < |k| && x == k[b + i];
      assert i != j ==> i in offs - {j};
    }
  }

  lemma KeyNotAt(k: seq<int>, at: map<int, nat>, b: nat, offs: set<nat>, j: nat)
    requires forall i :: i in offs ==> b + i < |k| && k[b + i] in at && at[k[b + i]] == b + i
    requires j !in offs && b + j < |k| && k[b + j] in at && at[k[b + j]] == b + j
    ensures k[b + j] !in KeysAt(k, b, offs)
  {
    assert forall i :: i in offs ==> k[b + i] != k[b + j];
  }

  lemma {:induction false} BoundedCard(s: set<nat>, n: nat)
    requires forall x :: x in s ==> x < n
    ensures |s| <= n
  {
    if n == 0 {
      assert s == {};
    } else {
      BoundedCard(s - {n - 1}, n - 1);
    }
  }

  lemma {:induction false} TotalBitsCountKeys(sh: Shape, k: seq<int>, h: seq<nat>, v: seq<int>, m: map<int, int>,
                                              at: map<int, nat>, b: nat)
    requires Wf(sh, k, h, v, m, at) && b <= sh.size
    ensures TotalBits(h[..b]) == |KeysBelow(sh, m, b)|
  {
    if b == 0 {
      assert KeysBelow(sh, m, 0) == {};
    } else {
      TotalBitsCountKeys(sh, k, h, v, m, at, b - 1);
      BinKeysCount(sh, k, h, v, m, at, b - 1);
      assert h[..b][..b - 1] == h[..b - 1];
      assert KeysBelow(sh, m, b) == KeysBelow(sh, m, b - 1) + BinKeys(sh, m, b - 1);
      assert KeysBelow(sh, m, b - 1) !! BinKeys(sh, m, b - 1);
    }
  }

  /** The tallies that hopscotch_integrity_check compares all equal the size of the map. */
  lemma TalliesAgree(sh: Shape, k: seq<int>, h: seq<nat>, v: seq<int>, m: map<int, int>, at: map<int, nat>)
    requires Wf(sh, k, h, v, m, at)
    ensures OccupiedCells(k) == |m| == TotalBits(h)
  {
    hide OwnersHold;
    assert forall p :: 0 <= p < |k| && k[p] != 0 ==> at[k[p]] == p;
    OccupiedCountsKeys(k);
    forall key | key in m.Keys ensures key in KeysIn(k) {
      assert KeyPlaced(sh, k, h, v, m, at, key);
    }
    assert KeysIn(k) == m.Keys;
    TotalBitsCountKeys(sh, k, h, v, m, at, sh.size);
    assert h[..sh.size] == h;
    forall key | key in m.Keys ensures sh.Bin(key) < sh.size { BinBelowSize(sh, key); }
    assert KeysBelow(sh, m, sh.size) == m.Keys;
  }

  /** A lookup of the key 0, which means an empty cell: a table that holds only the key 5 has free
      cells in the group that is probed, so it is found. */
  lemma ZeroIsFound()
    ensures var sh := Shape(1, 8, _ => 0);
            var k, h, v := [5, 0, 0, 0, 0, 0, 0, 0], [1], [7, 0, 0, 0, 0, 0, 0, 0];
            && Wf(sh, k, h, v, map[5 := 7], map[5 := 0])
            && sh.Bin(0) == 0 && Probed(sh, k, h[0], 0, 8, 0)
  {
    var sh := Shape(1, 8, _ => 0);
    var k, h, v := [5, 0, 0, 0, 0, 0, 0, 0], [1], [7, 0, 0, 0, 0, 0, 0, 0];
    BinBelowSize(sh, 5);
    BinBelowSize(sh, 0);
    forall j: nat ensures Bit(1, j) <==> j == 0 {
      assert Pow2(0) == 1;
      BitOfPow2(0, j);
    }
    assert GroupHit(h[0], 8, 1) by { assert Bit(1, 0) && 0 / 8 == 1 / 8; }
    assert k[0 + 1] == 0;
  }

  lemma WithoutAbsent<K, V>(m: map<K, V>, x: K)
    requires x !in m
    ensures m - {x} == m
  {
  }

  lemma CardWithout<K, V>(m: map<K, V>, x: K)
    requires x in m
    ensures |m - {x}| == |m| - 1
  {
    assert (m - {x}).Keys == m.Keys - {x};
  }

  lemma AnElement<T>(s: set<T>) returns (x: T)
    requires |s| > 0
    ensures x in s
  {
    x :| x in s;
  }
}
