/** Runs of operations on a hopscotch table: what each does to the finite map, and how the geometry
    and the key column of the table follow one another. */
module HopscotchSteps {
  import opened Common
  import opened HopBits
  import opened HopscotchInvariant
  import opened HopscotchFit

  datatype Op =
    | PutOp(key: int, val: int)
    | InsertOp(key: int, val: int)
    | DeleteOp(key: int)
    | GetOp(key: int, notFound: int)
    | ContainsOp(key: int)
    | ResetOp

  /** What an operation does to the finite map. */
  function Effect(m: map<int, int>, op: Op): map<int, int>
  {
    match op
    case PutOp(k, v) => m[k := v]
    case InsertOp(k, v) => m[k := v]
    case DeleteOp(k) => m - {k}
    case GetOp(_, _) => m
    case ContainsOp(_) => m
    case ResetOp => map[]
  }

  /** The finite map that a run of operations denotes. */
  function Denote(m: map<int, int>, ops: seq<Op>): map<int, int>
    decreases |ops|
  {
    if ops == [] then m else Effect(Denote(m, ops[..|ops| - 1]), ops[|ops| - 1])
  }

  /** What an operation answers on the finite map `m`. */
  function Answer(m: map<int, int>, op: Op): int
  {
    match op
    case PutOp(k, _) => if k in m then 0 else |m| + 1
    case InsertOp(k, _) => |m| + 1
    case DeleteOp(k) => if k in m then 1 else 0
    case GetOp(k, d) => if k in m then m[k] else d
    case ContainsOp(k) => if k in m then 1 else 0
    case ResetOp => 0
  }

  /** Keys are not 0, and only an absent key may be inserted without a lookup. */
  predicate Allowed(m: map<int, int>, op: Op)
  {
    (op.ResetOp? || op.key != 0) && (op.InsertOp? ==> op.key !in m)
  }

  /** The operation adds a key. */
  predicate Adds(m: map<int, int>, op: Op)
  {
    (op.PutOp? || op.InsertOp?) && op.key !in m
  }

  // ---- The table between two operations ----

  /** Geometry and hash function, the three columns, the finite map with the cell of each key, and
      what hopscotch_reset looks at. */
  datatype Snapshot = Snapshot(sh: Shape, k: seq<int>, h: seq<nat>, v: seq<int>, m: map<int, int>, at: map<int, nat>,
                               prevSize: nat, resized: bool)
  {
    ghost predicate Ok() {
      Wf(sh, k, h, v, m, at)
    }

    /** The table as it is takes the absent key: there is room for it, and the load is below the
        threshold or the key's own bin is free. */
    ghost predicate Takes(key: int) {
      && sh.Ok() && sh.Bin(key) < |k| && HasRoom(sh, k, sh.Bin(key))
      && (|m| < |k| * 13 / 16 || k[sh.Bin(key)] == 0)
    }
  }

  /** The key column without `key`. */
  function Without(k: seq<int>, key: int): (r: seq<int>)
    ensures |r| == |k|
  {
    seq(|k|, i requires 0 <= i < |k| => if k[i] == key then 0 else k[i])
  }

  lemma WithoutIs(sh: Shape, k: seq<int>, h: seq<nat>, v: seq<int>, m: map<int, int>, at: map<int, nat>, key: int)
    requires Wf(sh, k, h, v, m, at) && key != 0
    ensures key !in m ==> Without(k, key) == k
    ensures key in m ==> key in at && at[key] < |k| && Without(k, key) == k[at[key] := 0]
  {
    hide OwnersHold;
    assert key in m ==> KeyPlaced(sh, k, h, v, m, at, key);
  }

  /** The table after an absent key was added. Where the table takes it, the key column changes by the
      displacements alone. Otherwise the table has the first of the doubled sizes that takes the key,
      and no free cell between the bin and the cell of a key. */
  ghost predicate Added(hs: Hashing, s: Snapshot, key: int, fuel: nat, s': Snapshot)
    requires s.Ok() && s'.Ok()
  {
    s'.prevSize == s.prevSize &&
    if s.Takes(key) then
      s'.sh == s.sh && s'.resized == s.resized && Hopped(s.sh, s.k, key, s'.k)
    else
      && s'.sh == hs.ShapeFor(s'.sh.size) && s'.resized && Compact(s'.sh, s'.k, s'.at)
      && GrownTo(hs, s.sh.size, fuel, s.m.Keys, key, s'.sh.size)
  }

  /** hopscotch_reset halves a table that is much larger than at the last reset, or that is as large but
      did not have to grow; then it has the hop range that is usual for its size. */
  ghost predicate Resized(was: Shape, prevSize: nat, resized: bool, now: Shape) {
    if was.size > 2 * prevSize || (was.size == prevSize && !resized && was.size > 8) then
      2 * now.size == was.size && now.hopRange == if now.size < 1024 then 8 else if now.size <= 16384 then 16 else 32
    else
      now.size == was.size && now.hopRange == was.hopRange
  }

  /** One operation leads from the table `s` to the table `s'`. */
  ghost predicate Follows(hs: Hashing, s: Snapshot, op: Op, fuel: nat, s': Snapshot)
  {
    && s.Ok() && s'.Ok() && s'.m == Effect(s.m, op)
    && match op
       case PutOp(key, _) =>
         if key in s.m then s' == s.(v := s'.v, m := s'.m) else Added(hs, s, key, fuel, s')
       case InsertOp(key, _) => Added(hs, s, key, fuel, s')
       case DeleteOp(key) =>
         s'.k == Without(s.k, key) && s'.sh == s.sh && s'.prevSize == s.prevSize && s'.resized == s.resized
       case GetOp(_, _) => s' == s
       case ContainsOp(_) => s' == s
       case ResetOp =>
         && s'.prevSize == s.sh.size && !s'.resized && s'.sh.hash == (if hs.mixAlways then hs.mix else hs.plain)
         && Resized(s.sh, s.prevSize, s.resized, s'.sh)
  }

  /** The operation adds a key that neither the table nor any of the doublings allowed takes. */
  ghost predicate Refused(hs: Hashing, s: Snapshot, op: Op, fuel: nat)
  {
    Adds(s.m, op) && !s.Takes(op.key) && !TakenLater(hs, s.sh.size, fuel, s.m.Keys, op.key)
  }

  /** The tables `trace` before each operation that was done, and after the last one. */
  ghost predicate Traced(hs: Hashing, ops: seq<Op>, fuel: nat, done: nat, trace: seq<Snapshot>)
  {
    && done <= |ops| && |trace| == done + 1
    && (forall i :: 0 <= i < done ==> Follows(hs, trace[i], ops[i], fuel, trace[i + 1]))
    && (forall i :: 0 <= i < done ==> !Refused(hs, trace[i], ops[i], fuel))
  }

  lemma TraceOn(hs: Hashing, ops: seq<Op>, fuel: nat, done: nat, trace: seq<Snapshot>, s: Snapshot)
    requires Traced(hs, ops, fuel, done, trace) && done < |ops|
    requires Follows(hs, trace[done], ops[done], fuel, s) && !Refused(hs, trace[done], ops[done], fuel)
    ensures Traced(hs, ops, fuel, done + 1, trace + [s])
  {
    hide Follows, Refused;
  }

  /** The answers so far are those of the finite map. */
  predicate Answered(m: map<int, int>, ops: seq<Op>, answers: seq<int>)
  {
    |answers| <= |ops| && forall i :: 0 <= i < |answers| ==> answers[i] == Answer(Denote(m, ops[..i]), ops[i])
  }

  lemma DenoteStep(m: map<int, int>, ops: seq<Op>, n: nat)
    requires n < |ops|
    ensures Denote(m, ops[..n + 1]) == Effect(Denote(m, ops[..n]), ops[n])
  {
    assert ops[..n + 1][..n] == ops[..n];
  }

  lemma OneMoreAnswer(m: map<int, int>, ops: seq<Op>, answers: seq<int>, a: int)
    requires Answered(m, ops, answers) && |answers| < |ops|
    requires a == Answer(Denote(m, ops[..|answers|]), ops[|answers|])
    ensures Answered(m, ops, answers + [a])
  {
    hide Answer, Denote;
  }

  // ---- Runs that are never refused ----

  /** All keys fit in a table of 2^32 bins, with hashes of 32 bits. */
  ghost predicate FitsLarge(hs: Hashing, ks: set<int>)
  {
    var sh := hs.ShapeFor(Pow2(32));
    Hashes32(hs, ks) && sh.Ok() && Fits(sh, ks)
  }

  /** After every addition the keys fit in a table of 2^32 bins, and there are doublings enough. */
  ghost predicate RoomThroughout(hs: Hashing, m: map<int, int>, ops: seq<Op>, fuel: nat)
  {
    && fuel >= 32 + 2 * (|m| + |ops|)
    && forall i :: 0 <= i < |ops| && Adds(Denote(m, ops[..i]), ops[i]) ==> FitsLarge(hs, Denote(m, ops[..i + 1]).Keys)
  }

  lemma {:induction false} DenoteSize(m: map<int, int>, ops: seq<Op>)
    ensures |Denote(m, ops)| <= |m| + |ops|
    decreases |ops|
  {
    if ops != [] {
      DenoteSize(m, ops[..|ops| - 1]);
      EffectSize(Denote(m, ops[..|ops| - 1]), ops[|ops| - 1]);
    }
  }

  lemma EffectSize(m: map<int, int>, op: Op)
    ensures |Effect(m, op)| <= |m| + 1
  {
    match op
    case PutOp(k, v) => UpdateSize(m, k, v);
    case InsertOp(k, v) => UpdateSize(m, k, v);
    case DeleteOp(k) =>
      assert (m - {k}).Keys <= m.Keys;
      SubsetCard((m - {k}).Keys, m.Keys);
    case _ =>
  }

  lemma UpdateSize(m: map<int, int>, k: int, v: int)
    ensures |m[k := v]| <= |m| + 1
  {
    assert m[k := v].Keys == m.Keys + {k};
  }

  lemma LargeTakes(hs: Hashing, n: nat, ks: set<int>, key: int, fuel: nat)
    requires IsPow2(n) && FitsLarge(hs, ks + {key}) && fuel >= 32 + 2 * |ks|
    ensures TakenLater(hs, n, fuel, ks, key)
  {
    hide Pow2, IsPow2, Fits, Hashes32, TakenLater, Hashing.ShapeFor;
    Pow2IsPow2(32);
    LargeTableTakes(hs, n, ks, key);
    TakenSooner(hs, n, 32 + 2 * |ks|, fuel, ks, key);
  }

  /** In such a run no operation is refused. */
  lemma NeverRefused(hs: Hashing, m: map<int, int>, ops: seq<Op>, fuel: nat, i: nat, s: Snapshot)
    requires RoomThroughout(hs, m, ops, fuel) && i < |ops|
    requires s.m == Denote(m, ops[..i]) && IsPow2(s.sh.size)
    ensures !Refused(hs, s, ops[i], fuel)
  {
    hide IsPow2, FitsLarge, TakenLater, HasRoom, Denote;
    if Adds(s.m, ops[i]) {
      DenoteStep(m, ops, i);
      DenoteSize(m, ops[..i]);
      var key := ops[i].key;
      assert Denote(m, ops[..i + 1]).Keys == s.m.Keys + {key};
      LargeTakes(hs, s.sh.size, s.m.Keys, key, fuel);
    }
  }

  /** If the mixing hash tells the keys apart in 32 bits, there is room throughout. */
  lemma DifferentHashesHaveRoom(hs: Hashing, m: map<int, int>, ops: seq<Op>, fuel: nat)
    requires fuel >= 32 + 2 * (|m| + |ops|)
    requires forall n :: 0 < n <= |ops| ==> HashesDiffer(hs, Denote(m, ops[..n]).Keys)
    ensures RoomThroughout(hs, m, ops, fuel)
  {
    hide Denote, FitsLarge, HashesDiffer, Adds;
    forall n | 0 < n <= |ops| ensures FitsLarge(hs, Denote(m, ops[..n]).Keys) {
      DifferentHashesAreRoomy(hs, Denote(m, ops[..n]).Keys);
    }
  }

  lemma DifferentHashesAreRoomy(hs: Hashing, ks: set<int>)
    requires HashesDiffer(hs, ks)
    ensures FitsLarge(hs, ks)
  {
    hide Pow2, Fits, IsPow2, Hashing.ShapeFor;
    DifferentHashesFit(hs, ks);
  }
}
