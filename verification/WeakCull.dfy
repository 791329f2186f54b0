/** Culling of weak hash tables after a collection, `src/runtime/gc-common.c`:
    dead entries are emptied, counted off and reported; live entries have their
    forwarding pointers followed; the table asks for a rehash if an
    address-sensitive key moved. */
module WeakCull {
  /** A key or value: the empty marker, or any other word. */
  datatype Ref = Empty | Word(bits: int)

  type Pair = (Ref, Ref)

  predicate Blank(p: Pair) {
    p.0.Empty? && p.1.Empty?
  }

  /** What the collection decided: which entries are alive, where objects went (if it moved any),
      and which keys an EQL table hashes by content. */
  datatype Verdict = Verdict(alive: Pair -> bool, moves: bool, forward: Ref -> Ref, stable: Ref -> bool)
  {
    predicate Dead(p: Pair) { !Blank(p) && !alive(p) }

    /** The entry after the cull. */
    function After(p: Pair): Pair {
      if Blank(p) then p
      else if !alive(p) then (Empty, Empty)
      else if moves then (forward(p.0), forward(p.1)) else p
    }
  }

  /** How the table hashes: with a hash vector, or by pointer bits, or by EQL rules. */
  datatype Hashing = Vector(byAddress: seq<bool>) | Pointer | Eql

  /** Does the key of entry `i` depend on its address, given its value after the collection? */
  ghost predicate Sensitive(h: Hashing, v: Verdict, i: nat, newKey: Ref) {
    match h
    case Vector(a) => i < |a| && a[i]
    case Pointer => true
    case Eql => !v.stable(newKey)
  }

  /** A surviving entry whose address-sensitive key moved. */
  ghost predicate Displaced(h: Hashing, v: Verdict, i: nat, p: Pair) {
    !Blank(p) && v.alive(p) && v.moves && v.forward(p.0) != p.0 && Sensitive(h, v, i, v.forward(p.0))
  }

  /** The report of a culled cell: two small numbers packed in a fixnum, or a cons. */
  datatype Report = Packed(word: nat) | Cons(index: nat, bucket: nat)

  function Encode(index: nat, bucket: nat): Report {
    if index >= 0x4000 || bucket >= 0x4000 then Cons(index, bucket) else Packed(index * 0x4000 + bucket)
  }

  /** The cell and the bucket that Lisp reads from a report: bits 14 to 27 and bits 0 to 13 of a
      fixnum, or the halves of a cons. */
  ghost predicate Names(r: Report, index: nat, bucket: nat) {
    match r
    case Packed(word) => index == word / 0x4000 % 0x4000 && bucket == word % 0x4000
    case Cons(i, b) => index == i && bucket == b
  }

  /** What is written is what is read, and a cons is made only for large numbers. */
  lemma EncodeIsRead(index: nat, bucket: nat)
    ensures forall i: nat, b: nat :: Names(Encode(index, bucket), i, b) <==> i == index && b == bucket
    ensures Encode(index, bucket).Packed? <==> index < 0x4000 && bucket < 0x4000
    ensures Encode(3, 5) == Packed(49157)
  {
  }

  lemma EncodeInjective(i: nat, b: nat, j: nat, c: nat)
    requires Encode(i, b) == Encode(j, c)
    ensures i == j && b == c
  {
  }

  // ---- Chains ----

  /** Bucket `b` starts at cell `c[0]` and is linked through the next vector; 0 ends it. */
  ghost predicate ChainOk(start: nat, next: seq<nat>, c: seq<nat>) {
    && start == Head(c, 0)
    && (forall k :: 0 <= k < |c| ==> 0 < c[k] < |next| && next[c[k]] == Head(c, k + 1))
  }

  function Head(c: seq<nat>, k: nat): nat {
    if k < |c| then c[k] else 0
  }

  /** The (index, bucket) pairs that a walk over the buckets meets, in order. */
  function Visits(chains: seq<seq<nat>>): seq<(nat, nat)>
  {
    if chains == [] then [] else Visits(chains[..|chains| - 1]) + BucketVisits(chains[|chains| - 1], |chains| - 1)
  }

  function BucketVisits(c: seq<nat>, b: nat): (r: seq<(nat, nat)>)
    ensures |r| == |c| && forall k :: 0 <= k < |c| ==> r[k] == (c[k], b)
  {
    seq(|c|, k requires 0 <= k < |c| => (c[k], b))
  }

  /** The walk stays inside the table and meets no cell twice. */
  ghost predicate WalkOk(n: nat, vs: seq<(nat, nat)>) {
    && (forall k :: 0 <= k < |vs| ==> 0 < vs[k].0 < n)
    && (forall k, m :: 0 <= k < m < |vs| ==> vs[k].0 != vs[m].0)
  }

  // ---- What the cull computes, along the walk ----

  ghost predicate Met(vs: seq<(nat, nat)>, i: nat) {
    exists k :: 0 <= k < |vs| && vs[k].0 == i
  }

  function At(pairs: seq<Pair>, i: nat): Pair {
    if i < |pairs| then pairs[i] else (Empty, Empty)
  }

  /** The reports of the dead cells met, latest first. */
  function Reports(v: Verdict, pairs: seq<Pair>, vs: seq<(nat, nat)>): seq<Report>
  {
    if vs == [] then []
    else
      var (i, b) := vs[|vs| - 1];
      (if v.Dead(At(pairs, i)) then [Encode(i, b)] else []) + Reports(v, pairs, vs[..|vs| - 1])
  }

  /** The number of entries met that are not blank. */
  function Occupied(pairs: seq<Pair>, vs: seq<(nat, nat)>): nat
  {
    if vs == [] then 0
    else Occupied(pairs, vs[..|vs| - 1]) + if Blank(At(pairs, vs[|vs| - 1].0)) then 0 else 1
  }

  /** Exactly the cells met so far have their final form. */
  ghost predicate CulledTo(v: Verdict, was: seq<Pair>, now: seq<Pair>, vs: seq<(nat, nat)>) {
    |was| == |now| && forall i :: 0 <= i < |was| ==> now[i] == if Met(vs, i) then v.After(was[i]) else was[i]
  }

  ghost predicate SomeDisplaced(h: Hashing, v: Verdict, was: seq<Pair>, vs: seq<(nat, nat)>) {
    exists k :: 0 <= k < |vs| && vs[k].0 < |was| && Displaced(h, v, vs[k].0, was[vs[k].0])
  }

  /** What the cull makes of an entry that it meets: a dead one becomes empty, in a live one both
      halves are where the collection moved them. */
  ghost predicate EntryCulled(v: Verdict, was: Pair, now: Pair) {
    if was.0.Empty? && was.1.Empty? then now == was
    else if !v.alive(was) then now.0.Empty? && now.1.Empty?
    else if v.moves then now.0 == v.forward(was.0) && now.1 == v.forward(was.1)
    else now == was
  }

  /** Cell `i` is on the chain of bucket `b`. */
  ghost predicate OnChain(chains: seq<seq<nat>>, i: nat, b: nat) {
    b < |chains| && i in chains[b]
  }

  /** Exactly the entries on the chains are culled. */
  ghost predicate TableCulled(v: Verdict, chains: seq<seq<nat>>, was: seq<Pair>, now: seq<Pair>) {
    && |was| == |now|
    && (forall i: nat, b: nat :: OnChain(chains, i, b) && i < |was| ==> EntryCulled(v, was[i], now[i]))
    && (forall i :: 0 <= i < |was| && (forall b: nat :: !OnChain(chains, i, b)) ==> now[i] == was[i])
  }

  /** An entry on a chain survives, its key has moved, and the table hashes that key by address. */
  ghost predicate KeyMoved(h: Hashing, v: Verdict, chains: seq<seq<nat>>, was: seq<Pair>) {
    exists i: nat, b: nat :: OnChain(chains, i, b) && i < |was|
      && v.moves && !(was[i].0.Empty? && was[i].1.Empty?) && v.alive(was[i]) && v.forward(was[i].0) != was[i].0
      && match h
         case Vector(byAddress) => i < |byAddress| && byAddress[i]
         case Pointer => true
         case Eql => !v.stable(v.forward(was[i].0))
  }

  /** The reports name the dead entries and their buckets. */
  ghost predicate DeadNamed(v: Verdict, chains: seq<seq<nat>>, was: seq<Pair>, reports: seq<Report>) {
    forall i: nat, b: nat :: Named(reports, i, b) <==> OnChain(chains, i, b) && i < |was| && IsDead(v, was[i])
  }

  /** To the list of reports were added, in front, those of the dead entries, each once. */
  ghost predicate Reported(v: Verdict, chains: seq<seq<nat>>, was: seq<Pair>, before: seq<Report>, after: seq<Report>) {
    var n := |after| - |before|;
    && n >= 0 && after[n..] == before && DeadNamed(v, chains, was, after[..n])
    && forall j, k :: 0 <= j < k < n ==> after[j] != after[k]
  }

  lemma AllReported(v: Verdict, chains: seq<seq<nat>>, was: seq<Pair>, before: seq<Report>)
    requires WalkOk(|was|, Visits(chains)) && DeadNamed(v, chains, was, Reports(v, was, Visits(chains)))
    ensures Reported(v, chains, was, before, Reports(v, was, Visits(chains)) + before)
  {
    hide DeadNamed, WalkOk, Reports, Visits;
    var reports := Reports(v, was, Visits(chains));
    ReportsDistinct(v, was, Visits(chains));
    assert (reports + before)[..|reports|] == reports && (reports + before)[|reports|..] == before;
  }

  lemma {:induction false} VisitsExact(chains: seq<seq<nat>>, i: nat, b: nat)
    ensures (i, b) in Visits(chains) <==> OnChain(chains, i, b)
  {
    if chains != [] {
      var rest, n := chains[..|chains| - 1], |chains| - 1;
      VisitsExact(rest, i, b);
      assert OnChain(chains, i, b) <==> OnChain(rest, i, b) || (b == n && i in chains[n]);
      var last := BucketVisits(chains[n], n);
      if (i, b) in last { var k :| 0 <= k < |last| && last[k] == (i, b); }
      if b == n && i in chains[n] {
        var k :| 0 <= k < |chains[n]| && chains[n][k] == i;
        assert last[k] == (i, b);
      }
    }
  }

  lemma MetExact(chains: seq<seq<nat>>, i: nat)
    ensures Met(Visits(chains), i) <==> exists b: nat :: OnChain(chains, i, b)
  {
    var vs := Visits(chains);
    if k :| 0 <= k < |vs| && vs[k].0 == i { VisitsExact(chains, i, vs[k].1); }
    if b: nat :| OnChain(chains, i, b) {
      VisitsExact(chains, i, b);
      var k :| 0 <= k < |vs| && vs[k] == (i, b);
    }
  }

  /** What the walk does in its order, seen cell by cell. */
  lemma WalkMeans(h: Hashing, v: Verdict, chains: seq<seq<nat>>, was: seq<Pair>, now: seq<Pair>)
    requires WalkOk(|was|, Visits(chains)) && CulledTo(v, was, now, Visits(chains))
    ensures TableCulled(v, chains, was, now) && DeadNamed(v, chains, was, Reports(v, was, Visits(chains)))
    ensures SomeDisplaced(h, v, was, Visits(chains)) <==> KeyMoved(h, v, chains, was)
  {
    hide Visits, Reports, Named, IsDead, Met, OnChain;
    var vs := Visits(chains);
    forall i: nat ensures Met(vs, i) <==> exists b: nat :: OnChain(chains, i, b) { MetExact(chains, i); }
    forall i: nat, b: nat
      ensures Named(Reports(v, was, vs), i, b) <==> OnChain(chains, i, b) && i < |was| && IsDead(v, was[i])
    {
      VisitsExact(chains, i, b);
      ReportsExact(v, was, vs, i, b);
    }
    if k :| 0 <= k < |vs| && vs[k].0 < |was| && Displaced(h, v, vs[k].0, was[vs[k].0]) {
      VisitsExact(chains, vs[k].0, vs[k].1);
    }
    if i: nat, b: nat :| OnChain(chains, i, b) && i < |was| && Displaced(h, v, i, was[i]) {
      VisitsExact(chains, i, b);
      var k :| 0 <= k < |vs| && vs[k] == (i, b);
    }
  }

  /** Some report of the list names the cell and the bucket. */
  ghost predicate Named(reports: seq<Report>, i: nat, b: nat) {
    exists k :: 0 <= k < |reports| && Names(reports[k], i, b)
  }

  /** The entry holds something and is not alive. */
  ghost predicate IsDead(v: Verdict, p: Pair) {
    !(p.0.Empty? && p.1.Empty?) && !v.alive(p)
  }

  /** Each dead cell is reported, under its bucket, and nothing else is. */
  lemma ReportsExact(v: Verdict, pairs: seq<Pair>, vs: seq<(nat, nat)>, i: nat, b: nat)
    requires WalkOk(|pairs|, vs)
    ensures Named(Reports(v, pairs, vs), i, b) <==> (i, b) in vs && IsDead(v, pairs[i])
  {
    hide Encode, Reports, Names;
    var reports := Reports(v, pairs, vs);
    WrittenExact(v, pairs, vs, i, b);
    EncodeIsRead(i, b);
    if k :| 0 <= k < |reports| && Names(reports[k], i, b) {
      EachIsWritten(v, pairs, vs, k);
      var j: nat, c: nat :| reports[k] == Encode(j, c) && (j, c) in vs;
      EncodeIsRead(j, c);
    }
  }

  lemma {:induction false} EachIsWritten(v: Verdict, pairs: seq<Pair>, vs: seq<(nat, nat)>, k: nat)
    requires k < |Reports(v, pairs, vs)|
    ensures exists i: nat, b: nat :: Reports(v, pairs, vs)[k] == Encode(i, b) && (i, b) in vs
  {
    hide Encode;
    var rest, last := vs[..|vs| - 1], vs[|vs| - 1];
    assert vs == rest + [last];
    if v.Dead(At(pairs, last.0)) {
      if k > 0 { EachIsWritten(v, pairs, rest, k - 1); }
    } else {
      EachIsWritten(v, pairs, rest, k);
    }
  }

  lemma {:induction false} WrittenExact(v: Verdict, pairs: seq<Pair>, vs: seq<(nat, nat)>, i: nat, b: nat)
    requires WalkOk(|pairs|, vs)
    ensures Encode(i, b) in Reports(v, pairs, vs) <==> (i, b) in vs && v.Dead(pairs[i])
  {
    if vs != [] {
      var rest, last := vs[..|vs| - 1], vs[|vs| - 1];
      assert vs == rest + [last];
      WrittenExact(v, pairs, rest, i, b);
      if Encode(i, b) == Encode(last.0, last.1) { EncodeInjective(i, b, last.0, last.1); }
    }
  }

  /** No cell is reported twice. */
  lemma {:induction false} ReportsDistinct(v: Verdict, pairs: seq<Pair>, vs: seq<(nat, nat)>)
    requires WalkOk(|pairs|, vs)
    ensures forall p, q :: 0 <= p < q < |Reports(v, pairs, vs)| ==> Reports(v, pairs, vs)[p] != Reports(v, pairs, vs)[q]
  {
    if vs != [] {
      var rest, last := vs[..|vs| - 1], vs[|vs| - 1];
      ReportsDistinct(v, pairs, rest);
      WrittenExact(v, pairs, rest, last.0, last.1);
    }
  }

  /** The entries that stay occupied are those occupied before, less the reported ones. */
  lemma {:induction false} CountsAgree(v: Verdict, was: seq<Pair>, now: seq<Pair>, vs: seq<(nat, nat)>,
                                       all: seq<(nat, nat)>)
    requires WalkOk(|was|, all) && CulledTo(v, was, now, all) && vs <= all
    requires forall r :: v.forward(r).Empty? <==> r.Empty?
    ensures Occupied(now, vs) + |Reports(v, was, vs)| == Occupied(was, vs)
  {
    if vs != [] {
      var last := vs[|vs| - 1];
      CountsAgree(v, was, now, vs[..|vs| - 1], all);
      assert all[|vs| - 1] == last;
      assert Met(all, last.0);
    }
  }

  lemma {:induction false} OccupiedGrows(pairs: seq<Pair>, vs: seq<(nat, nat)>, all: seq<(nat, nat)>)
    requires vs <= all
    ensures Occupied(pairs, vs) <= Occupied(pairs, all)
    decreases |all|
  {
    if vs != all {
      OccupiedGrows(pairs, vs, all[..|all| - 1]);
    }
  }

  lemma {:induction false} ReportsBounded(v: Verdict, pairs: seq<Pair>, vs: seq<(nat, nat)>)
    ensures |Reports(v, pairs, vs)| <= Occupied(pairs, vs)
  {
    if vs != [] { ReportsBounded(v, pairs, vs[..|vs| - 1]); }
  }

  /** What holds after the walk has met `vs`, relative to the table before the pass. */
  ghost predicate ProgressOf(h: Hashing, v: Verdict, was: seq<Pair>, count0: int, smashed0: seq<Report>,
                             vs: seq<(nat, nat)>, now: seq<Pair>, count: int, smashed: seq<Report>, due: bool)
  {
    && WalkOk(|was|, vs) && CulledTo(v, was, now, vs)
    && count == count0 - |Reports(v, was, vs)| && smashed == Reports(v, was, vs) + smashed0
    && (due <==> SomeDisplaced(h, v, was, vs))
  }

  /** The next cell of the walk has not been touched, and the count covers it. */
  lemma NextCell(h: Hashing, v: Verdict, was: seq<Pair>, count0: int, smashed0: seq<Report>,
                 vs: seq<(nat, nat)>, now: seq<Pair>, count: int, smashed: seq<Report>, due: bool,
                 index: nat, bucket: nat)
    requires ProgressOf(h, v, was, count0, smashed0, vs, now, count, smashed, due)
    requires WalkOk(|was|, vs + [(index, bucket)]) && count0 >= Occupied(was, vs + [(index, bucket)])
    ensures !Met(vs, index) && index < |was| == |now| && now[index] == was[index]
    ensures !Blank(was[index]) ==> count > 0
  {
    var vs' := vs + [(index, bucket)];
    assert vs'[..|vs|] == vs && vs'[|vs|] == (index, bucket);
    forall k | 0 <= k < |vs| ensures vs[k].0 != index { assert vs'[k].0 != vs'[|vs|].0; }
    ReportsBounded(v, was, vs);
  }

  lemma ProgressStep(h: Hashing, v: Verdict, was: seq<Pair>, count0: int, smashed0: seq<Report>,
                     vs: seq<(nat, nat)>, now: seq<Pair>, count: int, smashed: seq<Report>, due: bool,
                     index: nat, bucket: nat, due': bool)
    requires ProgressOf(h, v, was, count0, smashed0, vs, now, count, smashed, due)
    requires WalkOk(|was|, vs + [(index, bucket)]) && !Met(vs, index) && index < |was| == |now|
    requires now[index] == was[index]
    requires due' <==> due || Displaced(h, v, index, was[index])
    ensures ProgressOf(h, v, was, count0, smashed0, vs + [(index, bucket)], now[index := v.After(was[index])],
                       count - (if v.Dead(was[index]) then 1 else 0),
                       (if v.Dead(was[index]) then [Encode(index, bucket)] else []) + smashed, due')
  {
    hide Encode, Displaced, WalkOk, SomeDisplaced, Met;
    var vs' := vs + [(index, bucket)];
    assert vs'[..|vs|] == vs && vs'[|vs|] == (index, bucket);
    MetOneMore(vs, index, bucket);
    DisplacedOneMore(h, v, was, vs, index, bucket);
  }

  class WeakTable {
    var pairs: array<Pair>         // key/value cells; cell 0 is not an entry
    var next: array<nat>           // next_vector
    var buckets: array<nat>        // index_vector
    const hashing: Hashing
    var count: int
    var smashed: seq<Report>       // smashed_cells, newest first
    var rehash: bool               // the need-to-rehash bit

    ghost predicate ChainsOk(chains: seq<seq<nat>>)
      reads this, next, buckets
    {
      |chains| == buckets.Length && forall b :: 0 <= b < |chains| ==> ChainOk(buckets[b], next[..], chains[b])
    }

    constructor (pairs: array<Pair>, next: array<nat>, buckets: array<nat>, hashing: Hashing, count: int,
                 smashed: seq<Report>, rehash: bool)
      ensures this.pairs == pairs && this.next == next && this.buckets == buckets && this.hashing == hashing
      ensures this.count == count && this.smashed == smashed && this.rehash == rehash
    {
      this.pairs, this.next, this.buckets, this.hashing := pairs, next, buckets, hashing;
      this.count, this.smashed, this.rehash := count, smashed, rehash;
    }

    /** One cell of a bucket. `due` is the pass's own rehash flag, which also short-circuits the
        test of an EQL key. */
    method CullCell(v: Verdict, index: nat, bucket: nat, due: bool) returns (due': bool)
      requires index < pairs.Length
      requires v.Dead(pairs[index]) ==> !pairs[index].0.Empty? && !pairs[index].1.Empty? && count > 0
      modifies this`count, this`smashed, pairs
      ensures pairs[..] == old(pairs[..])[index := v.After(old(pairs[index]))]
      ensures EntryCulled(v, old(pairs[index]), pairs[index])
      ensures count == old(count) - if v.Dead(old(pairs[index])) then 1 else 0
      ensures smashed == (if v.Dead(old(pairs[index])) then [Encode(index, bucket)] else []) + old(smashed)
      ensures if IsDead(v, old(pairs[index])) then
                |smashed| == |old(smashed)| + 1 && smashed[1..] == old(smashed) && Names(smashed[0], index, bucket)
              else smashed == old(smashed)
      ensures due' <==> due || Displaced(hashing, v, index, old(pairs[index]))
    {
      due' := due;
      var p := pairs[index];
      if Blank(p) {
        return;
      }
      if !v.alive(p) {
        assert !p.0.Empty? && !p.1.Empty? && count > 0;
        pairs[index] := (Empty, Empty);
        count := count - 1;
        smashed := [Encode(index, bucket)] + smashed;
        EncodeIsRead(index, bucket);
      } else if v.moves {
        var newKey := v.forward(p.0);
        pairs[index] := (newKey, v.forward(p.1));
        if newKey != p.0 &&
           (match hashing
            case Vector(a) => index < |a| && a[index]
            case Pointer => true
            case Eql => due || !v.stable(newKey)) {
          due' := true;
        }
      }
    }

    ghost predicate Progress(v: Verdict, was: seq<Pair>, count0: int, smashed0: seq<Report>, vs: seq<(nat, nat)>,
                             due: bool)
      reads this, pairs
    {
      ProgressOf(hashing, v, was, count0, smashed0, vs, pairs[..], count, smashed, due)
    }

    /** One more cell. */
    method Advance(v: Verdict, index: nat, bucket: nat, due: bool,
                   ghost was: seq<Pair>, ghost count0: int, ghost smashed0: seq<Report>, ghost vs: seq<(nat, nat)>)
      returns (due': bool)
      requires Progress(v, was, count0, smashed0, vs, due) && WalkOk(|was|, vs + [(index, bucket)])
      requires forall i :: 0 <= i < |was| && v.Dead(was[i]) ==> !was[i].0.Empty? && !was[i].1.Empty?
      requires count0 >= Occupied(was, vs + [(index, bucket)])
      modifies this`count, this`smashed, pairs
      ensures Progress(v, was, count0, smashed0, vs + [(index, bucket)], due')
    {
      hide Encode, Displaced, ProgressOf, Occupied;
      ghost var now, c, sm := pairs[..], count, smashed;
      NextCell(hashing, v, was, count0, smashed0, vs, now, c, sm, due, index, bucket);
      assert pairs[index] == now[index];
      due' := CullCell(v, index, bucket, due);
      ProgressStep(hashing, v, was, count0, smashed0, vs, now, c, sm, due, index, bucket, due');
    }

    /** cull_weak_hash_table_bucket */
    method CullBucket(v: Verdict, b: nat, due: bool, ghost c: seq<nat>,
                      ghost was: seq<Pair>, ghost count0: int, ghost smashed0: seq<Report>, ghost vs: seq<(nat, nat)>)
      returns (due': bool)
      requires b < buckets.Length && ChainOk(buckets[b], next[..], c) && next.Length <= |was|
      requires Progress(v, was, count0, smashed0, vs, due) && WalkOk(|was|, vs + BucketVisits(c, b))
      requires forall i :: 0 <= i < |was| && v.Dead(was[i]) ==> !was[i].0.Empty? && !was[i].1.Empty?
      requires count0 >= Occupied(was, vs + BucketVisits(c, b))
      modifies this`count, this`smashed, pairs
      ensures Progress(v, was, count0, smashed0, vs + BucketVisits(c, b), due')
    {
      hide ProgressOf, Occupied, Reports, WalkOk, ChainOk, BucketVisits;
      due' := due;
      var index := buckets[b];
      ghost var k, nx := 0, next[..];
      ghost var all := vs + BucketVisits(c, b);
      ChainStart(index, nx, c);
      VisitsAt(vs, c, b, 0);
      while index != 0
        modifies this`count, this`smashed, pairs
        invariant k <= |c| && index == Head(c, k) && nx == next[..]
        invariant Progress(v, was, count0, smashed0, all[..|vs| + k], due')
        decreases |c| - k
      {
        ChainStep(buckets[b], nx, c, k);
        VisitsAt(vs, c, b, k);
        PrefixWalk(|was|, all[..|vs| + k + 1], all);
        OccupiedGrows(was, all[..|vs| + k + 1], all);
        due' := Advance(v, index, b, due', was, count0, smashed0, all[..|vs| + k]);
        index := next[index];
        k := k + 1;
      }
      ChainEnd(buckets[b], nx, c, k);
      VisitsAt(vs, c, b, k);
    }

    /** cull_weak_hash_table: exactly the dead entries of the buckets are emptied, counted off
        and reported, each once; the others have their pointers forwarded; the rehash bit is set
        exactly if a surviving address-sensitive key moved. */
    method Cull(v: Verdict, ghost chains: seq<seq<nat>>)
      requires ChainsOk(chains) && next.Length <= pairs.Length
      requires WalkOk(pairs.Length, Visits(chains))
      requires forall i :: 0 <= i < pairs.Length && v.Dead(pairs[i]) ==> !pairs[i].0.Empty? && !pairs[i].1.Empty?
      requires count == Occupied(pairs[..], Visits(chains))
      requires forall r :: v.forward(r).Empty? <==> r.Empty?
      modifies this`count, this`smashed, this`rehash, pairs
      ensures TableCulled(v, chains, old(pairs[..]), pairs[..])
      ensures count == Occupied(pairs[..], Visits(chains))
      ensures Reported(v, chains, old(pairs[..]), old(smashed), smashed)
      ensures count == old(count) - (|smashed| - |old(smashed)|)
      ensures rehash <==> old(rehash) || KeyMoved(hashing, v, chains, old(pairs[..]))
    {
      ghost var was, count0, smashed0 := pairs[..], count, smashed;
      hide *;
      NoProgress(hashing, v, was, count0, smashed0);
      var due := CullBuckets(v, chains, was, count0, smashed0);
      FinishCull(v, was, count0, smashed0, Visits(chains), due);
      WalkMeans(hashing, v, chains, was, pairs[..]);
      AllReported(v, chains, was, smashed0);
      if due {
        rehash := true;
      }
    }

    method CullBuckets(v: Verdict, ghost chains: seq<seq<nat>>, ghost was: seq<Pair>, ghost count0: int,
                       ghost smashed0: seq<Report>)
      returns (due: bool)
      requires ChainsOk(chains) && next.Length <= |was|
      requires WalkOk(|was|, Visits(chains)) && Progress(v, was, count0, smashed0, [], false)
      requires forall i :: 0 <= i < |was| && v.Dead(was[i]) ==> !was[i].0.Empty? && !was[i].1.Empty?
      requires count0 >= Occupied(was, Visits(chains))
      modifies this`count, this`smashed, pairs
      ensures Progress(v, was, count0, smashed0, Visits(chains), due)
    {
      hide ProgressOf, Occupied, Reports, WalkOk, BucketVisits, SomeDisplaced, CulledTo, ChainOk;
      due := false;
      for b := 0 to buckets.Length
        modifies this`count, this`smashed, pairs
        invariant Progress(v, was, count0, smashed0, Visits(chains[..b]), due)
      {
        VisitsPrefix(chains, b + 1);
        assert chains[..b + 1][..b] == chains[..b];
        PrefixWalk(|was|, Visits(chains[..b + 1]), Visits(chains));
        OccupiedGrows(was, Visits(chains[..b + 1]), Visits(chains));
        due := CullBucket(v, b, due, chains[b], was, count0, smashed0, Visits(chains[..b]));
      }
      assert chains[..buckets.Length] == chains;
    }

    lemma FinishCull(v: Verdict, was: seq<Pair>, count0: int, smashed0: seq<Report>, all: seq<(nat, nat)>, due: bool)
      requires Progress(v, was, count0, smashed0, all, due) && count0 == Occupied(was, all)
      requires forall r :: v.forward(r).Empty? <==> r.Empty?
      ensures CulledTo(v, was, pairs[..], all) && count == Occupied(pairs[..], all)
      ensures smashed == Reports(v, was, all) + smashed0 && count + |smashed| == count0 + |smashed0|
      ensures due <==> SomeDisplaced(hashing, v, was, all)
    {
      CountsAgree(v, was, pairs[..], all, all);
    }
  }

  lemma NoProgress(h: Hashing, v: Verdict, was: seq<Pair>, count0: int, smashed0: seq<Report>)
    ensures ProgressOf(h, v, was, count0, smashed0, [], was, count0, smashed0, false)
  {
  }

  lemma ChainStart(start: nat, next: seq<nat>, c: seq<nat>)
    requires ChainOk(start, next, c)
    ensures start == Head(c, 0)
  {
  }

  lemma ChainStep(start: nat, next: seq<nat>, c: seq<nat>, k: nat)
    requires ChainOk(start, next, c) && Head(c, k) != 0
    ensures k < |c| && 0 < c[k] < |next| && next[c[k]] == Head(c, k + 1)
  {
  }

  lemma ChainEnd(start: nat, next: seq<nat>, c: seq<nat>, k: nat)
    requires ChainOk(start, next, c) && k <= |c| && Head(c, k) == 0
    ensures k == |c|
  {
  }

  lemma VisitsAt(vs: seq<(nat, nat)>, c: seq<nat>, b: nat, k: nat)
    requires k <= |c|
    ensures var all := vs + BucketVisits(c, b);
            && |all| == |vs| + |c|
            && (k == 0 ==> all[..|vs| + k] == vs)
            && (k < |c| ==> all[..|vs| + k] + [(c[k], b)] == all[..|vs| + k + 1])
            && (k == |c| ==> all[..|vs| + k] == all)
  {
  }

  lemma MetOneMore(vs: seq<(nat, nat)>, index: nat, b: nat)
    ensures forall i :: Met(vs + [(index, b)], i) <==> Met(vs, i) || i == index
  {
    var vs' := vs + [(index, b)];
    forall i: nat ensures Met(vs', i) <==> Met(vs, i) || i == index {
      if i == index { assert vs'[|vs|].0 == i; }
      if k :| 0 <= k < |vs| && vs[k].0 == i { assert vs'[k].0 == i; }
    }
  }

  lemma DisplacedOneMore(h: Hashing, v: Verdict, was: seq<Pair>, vs: seq<(nat, nat)>, index: nat, b: nat)
    requires index < |was|
    ensures SomeDisplaced(h, v, was, vs + [(index, b)]) <==>
              SomeDisplaced(h, v, was, vs) || Displaced(h, v, index, was[index])
  {
    var vs' := vs + [(index, b)];
    if Displaced(h, v, index, was[index]) { assert vs'[|vs|].0 == index; }
    if k :| 0 <= k < |vs| && vs[k].0 < |was| && Displaced(h, v, vs[k].0, was[vs[k].0]) { assert vs'[k] == vs[k]; }
  }

  lemma {:induction false} VisitsPrefix(chains: seq<seq<nat>>, b: nat)
    requires b <= |chains|
    ensures Visits(chains[..b]) <= Visits(chains)
  {
    if b < |chains| {
      VisitsPrefix(chains[..|chains| - 1], b);
      assert chains[..|chains| - 1][..b] == chains[..b];
    } else {
      assert chains[..b] == chains;
    }
  }

  lemma PrefixWalk(n: nat, vs: seq<(nat, nat)>, all: seq<(nat, nat)>)
    requires WalkOk(n, all) && vs <= all
    ensures WalkOk(n, vs)
  {
  }
}
