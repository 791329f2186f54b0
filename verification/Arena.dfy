/** Claiming memory from an arena, `src/runtime/arena.c`, as a step relation over any
    number of threads: a compare-and-swap on the free pointer of the current block,
    and extension of the arena under its mutex. */
module Arena {
  import opened Common
  import opened Arithmetic

  const CHUNK_ALIGN: nat := 4096
  const MEMBLK_BYTES: nat := 40
  const WORD_BYTES: nat := 8

  // ---- The shape of a new block ----

  function AlignUp(x: nat, a: nat): nat
    requires a > 0
  {
    (x + a - 1) / a * a
  }

  function AlignDown(x: nat, a: nat): nat
    requires a > 0
  {
    x / a * a
  }

  function Alignment(hidable: bool): nat {
    if hidable then CHUNK_ALIGN else 2 * WORD_BYTES
  }

  /** The bytes asked of the system for an oversized request. */
  function AllocSize(request: nat, hidable: bool): nat {
    if hidable then request + 3 * CHUNK_ALIGN
    else request + MEMBLK_BYTES + 2 * WORD_BYTES
  }

  function Base(mem: nat, hidable: bool): nat {
    AlignUp(mem + MEMBLK_BYTES, Alignment(hidable))
  }

  function Limit(mem: nat, size: nat, hidable: bool): nat {
    AlignDown(mem + size, Alignment(hidable))
  }

  lemma AlignBounds(x: nat, a: nat)
    requires a > 0
    ensures AlignDown(x, a) % a == 0 && AlignUp(x, a) % a == 0
    ensures x - a < AlignDown(x, a) <= x <= AlignUp(x, a) < x + a
  {
    MultipleMod(x / a, a);
    MultipleMod((x + a - 1) / a, a);
    assert x == x / a * a + x % a;
    assert x + a - 1 == (x + a - 1) / a * a + (x + a - 1) % a;
  }

  /** In a block that can be hidden the three spare chunks always leave room for the request. */
  lemma HidableHugeFits(mem: nat, request: nat)
    ensures Base(mem, true) + request <= Limit(mem, AllocSize(request, true), true)
  {
    AlignBounds(mem + MEMBLK_BYTES, CHUNK_ALIGN);
    AlignBounds(mem + request + 3 * CHUNK_ALIGN, CHUNK_ALIGN);
  }

  lemma RoundedSum(s: nat, start: nat, tail: nat, x: nat)
    requires start == s % 16 && tail == x % 16
    ensures (s + x) % 16 == if start + tail < 16 then start + tail else start + tail - 16
  {
    var q := s / 16 + x / 16;
    assert s + x == q * 16 + (start + tail);
    if start + tail < 16 {
      ModUnique(s + x, 16, q, start + tail);
    } else {
      ModUnique(s + x, 16, q + 1, start + tail - 16);
    }
  }

  /** In any other block it depends on the alignments: `start` is where the header ends within a
      double word, `tail` how far the request exceeds a whole number of double words. The
      "alignment glitch" exit is taken exactly if this condition fails. */
  predicate Aligned(mem: nat, request: nat) {
    var start, tail := (mem + MEMBLK_BYTES) % 16, request % 16;
    start == 0 || tail == 0 || start + tail >= 16
  }

  lemma PlainHugeFitsIff(mem: nat, request: nat)
    ensures Base(mem, false) + request <= Limit(mem, AllocSize(request, false), false) <==> Aligned(mem, request)
  {
    var s := mem + MEMBLK_BYTES;
    var start, tail := s % 16, request % 16;
    AlignBounds(s, 16);
    AlignBounds(s + request + 16, 16);
    RoundedSum(s, start, tail, request);
    var up, down := AlignUp(s, 16), AlignDown(s + request + 16, 16);
    assert up == if start == 0 then s else s + 16 - start by {
      ModUnique(s + 15, 16, (s / 16) + (if start == 0 then 0 else 1), if start == 0 then 15 else start - 1);
    }
    var rest := (s + request) % 16;
    assert down == s + request + 16 - rest by {
      DivPlusOne(s + request, 16);
    }
  }

  // ---- The state ----

  /** A block of the chain: memory from `mem` of `size` bytes, of which `base` to `limit` can be
      claimed and `base` to `free` has been. `claims` records what was handed out. */
  datatype Block = Block(mem: nat, size: nat, base: nat, limit: nat, free: nat, next: Option<nat>, claims: seq<Range>)

  /** A block that holds one oversized object. */
  datatype Huge = Huge(mem: nat, size: nat, base: nat, limit: nat, request: nat)

  datatype Reason = LimitReached | AlignmentGlitch

  /** Where a thread is inside memblk_claim_subrange; `n` is the number of bytes it wants and
      `cons` whether they are for conses. */
  datatype Pc =
    | Idle
    | Start(n: nat, cons: bool)                          // about to read the current block
    | Enter(b: nat, n: nat, cons: bool)                  // about to read the free pointer
    | Try(b: nat, n: nat, cons: bool, at: nat)           // about to compare-and-swap
    | Want(b: nat, n: nat, cons: bool)                   // about to acquire the mutex
    | Hold(b: nat, n: nat, cons: bool)                   // has the mutex
    | Dead(reason: Reason)

  datatype Config = Config(original: nat, growth: nat, threshold: nat, maxLength: nat, hidable: bool)

  datatype State = State(config: Config, blocks: seq<Block>, current: nat, huge: seq<Huge>, length: nat,
                         holder: Option<nat>, pcs: map<nat, Pc>)

  function PcOf(s: State, t: nat): Pc {
    if t in s.pcs then s.pcs[t] else Idle
  }

  function WithPc(s: State, t: nat, pc: Pc): State {
    s.(pcs := s.pcs[t := pc])
  }

  function NewBlock(mem: nat, size: nat, hidable: bool): Block {
    var base := Base(mem, hidable);
    Block(mem, size, base, Limit(mem, size, hidable), base, None, [])
  }

  function NewHuge(mem: nat, request: nat, hidable: bool): Huge {
    var size := AllocSize(request, hidable);
    Huge(mem, size, Base(mem, hidable), Limit(mem, size, hidable), request)
  }

  function Extent(b: Block): Range { Range(b.mem, b.mem + b.size) }

  function HugeExtent(h: Huge): Range { Range(h.mem, h.mem + h.size) }

  /** What the system may hand out: memory that no block of the arena holds. */
  ghost predicate Unused(s: State, r: Range) {
    && (forall i :: 0 <= i < |s.blocks| ==> Apart(r, Extent(s.blocks[i])))
    && (forall k :: 0 <= k < |s.huge| ==> Apart(r, HugeExtent(s.huge[k])))
  }

  // ---- Steps of a thread ----

  /** claim_new_subrange is called for `n` bytes. */
  ghost predicate Call(s: State, s': State, t: nat, n: nat, cons: bool) {
    PcOf(s, t).Idle? && s' == WithPc(s, t, Start(n, cons))
  }

  /** Read the current block without the mutex. */
  ghost predicate ReadCurrent(s: State, s': State, t: nat) {
    var pc := PcOf(s, t);
    pc.Start? && s' == WithPc(s, t, Enter(s.current, pc.n, pc.cons))
  }

  /** Compare what was read with the limit of the block. */
  function Judge(block: Block, b: nat, n: nat, cons: bool, at: nat): Pc {
    if at + n > block.limit then Want(b, n, cons) else Try(b, n, cons, at)
  }

  ghost predicate ReadFree(s: State, s': State, t: nat) {
    var pc := PcOf(s, t);
    && pc.Enter? && pc.b < |s.blocks|
    && s' == WithPc(s, t, Judge(s.blocks[pc.b], pc.b, pc.n, pc.cons, s.blocks[pc.b].free))
  }

  /** The compare-and-swap advances the free pointer exactly if it still has the value that was
      read; otherwise the thread goes on with the value found. */
  ghost predicate CompareAndSwap(s: State, s': State, t: nat) {
    var pc := PcOf(s, t);
    && pc.Try? && pc.b < |s.blocks|
    && var block := s.blocks[pc.b];
    s' == if block.free == pc.at then
            WithPc(s, t, Idle).(blocks := s.blocks[pc.b := block.(free := pc.at + pc.n,
                claims := block.claims + [Range(pc.at, pc.at + pc.n)])])
          else
            WithPc(s, t, Judge(block, pc.b, pc.n, pc.cons, block.free))
  }

  ghost predicate Acquire(s: State, s': State, t: nat) {
    var pc := PcOf(s, t);
    pc.Want? && s.holder == None && s' == WithPc(s, t, Hold(pc.b, pc.n, pc.cons)).(holder := Some(t))
  }

  /** Somebody else has extended the arena: start over with the actual current block. */
  ghost predicate Late(s: State, s': State, t: nat) {
    var pc := PcOf(s, t);
    pc.Hold? && pc.b != s.current && s' == WithPc(s, t, Enter(s.current, pc.n, pc.cons)).(holder := None)
  }

  predicate Oversized(s: State, n: nat, cons: bool) {
    !cons && n > s.config.threshold
  }

  function Request(s: State, n: nat, cons: bool): nat {
    if Oversized(s, n, cons) then n else s.config.growth
  }

  /** The arena may not grow any more; the program ends. */
  ghost predicate Refuse(s: State, s': State, t: nat) {
    var pc := PcOf(s, t);
    && pc.Hold? && pc.b == s.current && s.length + Request(s, pc.n, pc.cons) > s.config.maxLength
    && s' == WithPc(s, t, Dead(LimitReached)).(holder := None)
  }

  /** Append a block and make it the current one. */
  ghost predicate ExtendBlock(s: State, s': State, t: nat, mem: nat) {
    var pc := PcOf(s, t);
    && pc.Hold? && pc.b == s.current < |s.blocks| && !Oversized(s, pc.n, pc.cons)
    && s.length + s.config.growth <= s.config.maxLength && Unused(s, Range(mem, mem + s.config.growth))
    && var block, extension := s.blocks[s.current], NewBlock(mem, s.config.growth, s.config.hidable);
    s' == WithPc(s, t, Start(pc.n, pc.cons))
            .(blocks := s.blocks[s.current := block.(next := Some(|s.blocks|))] + [extension],
              current := |s.blocks|, length := s.length + s.config.growth, holder := None)
  }

  /** Allocate one oversized object in memory of its own; the request is tallied before the
      usable space is looked at. */
  ghost predicate ExtendHuge(s: State, s': State, t: nat, mem: nat) {
    var pc := PcOf(s, t);
    && pc.Hold? && pc.b == s.current && Oversized(s, pc.n, pc.cons)
    && s.length + pc.n <= s.config.maxLength
    && var h := NewHuge(mem, pc.n, s.config.hidable);
    && Unused(s, HugeExtent(h))
    && var tallied := s.(length := s.length + pc.n, huge := [h] + s.huge);
    s' == if h.base + pc.n > h.limit then
            WithPc(s, t, Dead(AlignmentGlitch)).(length := s.length + pc.n)
          else
            WithPc(tallied, t, Idle).(holder := None)
  }

  /** arena_release_memblks, called while no thread uses the arena. */
  ghost predicate Release(s: State, s': State) {
    && (forall t :: PcOf(s, t).Idle?) && |s.blocks| > 0
    && s' == s.(blocks := [s.blocks[0].(free := s.blocks[0].base, next := None, claims := [])],
                current := 0, huge := [], length := s.config.original)
  }

  ghost predicate ThreadStep(s: State, s': State, t: nat) {
    || (exists n, cons :: Call(s, s', t, n, cons))
    || ReadCurrent(s, s', t) || ReadFree(s, s', t) || CompareAndSwap(s, s', t)
    || Acquire(s, s', t) || Late(s, s', t) || Refuse(s, s', t)
    || (exists mem :: ExtendBlock(s, s', t, mem))
    || (exists mem :: ExtendHuge(s, s', t, mem))
  }

  /** The end of one thread's program is the end of the process. */
  ghost predicate Alive(s: State) {
    forall t :: !PcOf(s, t).Dead?
  }

  ghost predicate Next(s: State, s': State) {
    Alive(s) && ((exists t :: ThreadStep(s, s', t)) || Release(s, s'))
  }

  /** sbcl_new_arena at `arena`; the block header comes `head` bytes later. */
  ghost predicate Init(s: State, arena: nat, head: nat) {
    && head <= s.config.original && s.length == s.config.original
    && s.blocks == [NewBlock(arena + head, s.config.original - head, s.config.hidable)]
    && s.current == 0 && s.huge == [] && s.holder == None && s.pcs == map[]
  }

  // ---- What every run keeps ----

  /** The claims lie end to end from `lo` to `hi`. */
  ghost predicate Tiled(claims: seq<Range>, lo: nat, hi: nat) {
    if claims == [] then lo == hi
    else
      var last := claims[|claims| - 1];
      last.hi == hi && last.lo <= hi && Tiled(claims[..|claims| - 1], lo, last.lo)
  }

  ghost predicate BlockOk(b: Block) {
    && b.mem + MEMBLK_BYTES <= b.base && b.limit <= b.mem + b.size
    && Tiled(b.claims, b.base, b.free) && (b.claims != [] ==> b.free <= b.limit)
  }

  ghost predicate HugeOk(h: Huge) {
    h.mem + MEMBLK_BYTES <= h.base && h.base + h.request <= h.limit <= h.mem + h.size
  }

  ghost predicate ExtentsApart(s: State) {
    && (forall i, j :: 0 <= i < j < |s.blocks| ==> Apart(Extent(s.blocks[i]), Extent(s.blocks[j])))
    && (forall i, j :: 0 <= i < j < |s.huge| ==> Apart(HugeExtent(s.huge[i]), HugeExtent(s.huge[j])))
    && (forall i, k :: 0 <= i < |s.blocks| && 0 <= k < |s.huge| ==> Apart(Extent(s.blocks[i]), HugeExtent(s.huge[k])))
  }

  /** The blocks form one chain that ends in the current one. */
  ghost predicate ChainOk(s: State) {
    && |s.blocks| > 0 && s.current == |s.blocks| - 1
    && forall i :: 0 <= i < |s.blocks| ==> s.blocks[i].next == if i == s.current then None else Some(i + 1)
  }

  function Requests(huge: seq<Huge>): nat {
    if huge == [] then 0 else huge[0].request + Requests(huge[1..])
  }

  function Larger(x: nat, y: nat): nat { if x > y then x else y }

  ghost predicate Glitched(s: State) {
    exists t: nat :: PcOf(s, t) == Dead(AlignmentGlitch)
  }

  ghost predicate LengthOk(s: State) {
    && |s.blocks| > 0
    && (s.length == s.config.original + s.config.growth * (|s.blocks| - 1) + Requests(s.huge) || Glitched(s))
    && s.length <= Larger(s.config.original, s.config.maxLength)
    && s.blocks[0].size <= s.config.original
    && forall i :: 1 <= i < |s.blocks| ==> s.blocks[i].size == s.config.growth
  }

  /** The request does not fit in what is left of the block. */
  ghost predicate Exceeds(s: State, b: nat, n: nat) {
    b < |s.blocks| && s.blocks[b].free + n > s.blocks[b].limit
  }

  /** A range is tried only where it fits, and the mutex is wanted only where it does not. */
  ghost predicate PcOk(s: State, t: nat) {
    match PcOf(s, t)
    case Enter(b, n, cons) => b < |s.blocks|
    case Try(b, n, cons, at) => b < |s.blocks| && at + n <= s.blocks[b].limit
    case Want(b, n, cons) => Exceeds(s, b, n)
    case Hold(b, n, cons) => Exceeds(s, b, n)
    case _ => true
  }

  /** Only the holder of the mutex acts as such; it keeps the mutex if it dies of the glitch. */
  ghost predicate HolderOk(s: State, t: nat) {
    && (PcOf(s, t).Hold? ==> s.holder == Some(t))
    && (s.holder == Some(t) ==> PcOf(s, t).Hold? || PcOf(s, t) == Dead(AlignmentGlitch))
  }

  ghost predicate BlocksOk(s: State) {
    && (forall i :: 0 <= i < |s.blocks| ==> BlockOk(s.blocks[i]))
    && (forall k :: 0 <= k < |s.huge| ==> HugeOk(s.huge[k]))
  }

  ghost predicate Inv(s: State) {
    && ChainOk(s) && ExtentsApart(s) && LengthOk(s) && BlocksOk(s)
    && forall t: nat :: PcOk(s, t) && HolderOk(s, t)
  }

  lemma NewBlockOk(mem: nat, size: nat, hidable: bool)
    ensures BlockOk(NewBlock(mem, size, hidable))
  {
    AlignBounds(mem + MEMBLK_BYTES, Alignment(hidable));
    AlignBounds(mem + size, Alignment(hidable));
  }

  /** One thread moves, the blocks keep their limits, and no other thread gets or loses the mutex. */
  lemma ThreadsKeep(s: State, s': State, t: nat)
    requires forall u: nat :: PcOk(s, u) && HolderOk(s, u)
    requires |s.blocks| <= |s'.blocks|
    requires forall i :: 0 <= i < |s.blocks| ==>
               s'.blocks[i].limit == s.blocks[i].limit && s'.blocks[i].free >= s.blocks[i].free
    requires forall u: nat :: u != t ==> PcOf(s', u) == PcOf(s, u)
    requires s'.holder == s.holder || (s.holder == None && s'.holder == Some(t)) ||
               (s.holder == Some(t) && s'.holder == None)
    requires PcOk(s', t) && HolderOk(s', t)
    ensures forall u: nat :: PcOk(s', u) && HolderOk(s', u)
  {
    forall u: nat ensures PcOk(s', u) && HolderOk(s', u) { assert PcOk(s, u) && HolderOk(s, u); }
  }

  /** The history of a block grows by the range that was won. */
  lemma CasBlock(s: State, s': State, t: nat)
    requires Inv(s) && CompareAndSwap(s, s', t)
    ensures var b := PcOf(s, t).b; b < |s.blocks| == |s'.blocks| && BlockOk(s'.blocks[b])
    ensures forall i :: 0 <= i < |s.blocks| ==> Shape(s'.blocks[i]) == Shape(s.blocks[i])
    ensures forall i :: 0 <= i < |s.blocks| && i != PcOf(s, t).b ==> s'.blocks[i] == s.blocks[i]
    ensures s'.blocks[PcOf(s, t).b].free >= s.blocks[PcOf(s, t).b].free
  {
    var pc := PcOf(s, t);
    var block, block' := s.blocks[pc.b], s'.blocks[pc.b];
    assert PcOk(s, t) && BlockOk(block);
    if block.free == pc.at {
      assert block'.claims[..|block'.claims| - 1] == block.claims;
    }
  }

  /** What a compare-and-swap does not touch. */
  function Shape(b: Block): Block {
    b.(free := 0, claims := [])
  }

  lemma CasKeeps(s: State, s': State, t: nat)
    requires Inv(s) && CompareAndSwap(s, s', t)
    ensures Inv(s')
  {
    CasBlock(s, s', t);
    hide BlockOk, HugeOk;
    assert PcOk(s, t) && HolderOk(s, t);
    ThreadsKeep(s, s', t);
    SameShape(s, s', t);
  }

  lemma SameShape(s: State, s': State, t: nat)
    requires ChainOk(s) && ExtentsApart(s) && LengthOk(s)
    requires |s'.blocks| == |s.blocks| && forall i :: 0 <= i < |s.blocks| ==> Shape(s'.blocks[i]) == Shape(s.blocks[i])
    requires s'.huge == s.huge && s'.config == s.config && s'.length == s.length && s'.current == s.current
    requires forall u: nat :: PcOf(s, u).Dead? ==> PcOf(s', u) == PcOf(s, u)
    ensures ChainOk(s') && ExtentsApart(s') && LengthOk(s')
  {
    forall i | 0 <= i < |s.blocks|
      ensures Extent(s'.blocks[i]) == Extent(s.blocks[i]) && s'.blocks[i].size == s.blocks[i].size
      ensures s'.blocks[i].next == s.blocks[i].next
    {
      assert Shape(s'.blocks[i]).mem == Shape(s.blocks[i]).mem;
    }
    if Glitched(s) {
      var u: nat :| PcOf(s, u) == Dead(AlignmentGlitch);
      assert PcOf(s', u) == Dead(AlignmentGlitch);
    }
  }

  ghost predicate Local(s: State, s': State, t: nat) {
    || (exists n, cons :: Call(s, s', t, n, cons)) || ReadCurrent(s, s', t) || ReadFree(s, s', t)
    || Acquire(s, s', t) || Late(s, s', t) || Refuse(s, s', t)
  }

  /** The steps that leave the blocks alone. */
  lemma LocalKeeps(s: State, s': State, t: nat)
    requires Inv(s) && Local(s, s', t)
    ensures Inv(s')
  {
    hide BlockOk, HugeOk;
    assert PcOk(s, t) && HolderOk(s, t);
    ThreadsKeep(s, s', t);
    SameShape(s, s', t);
  }

  lemma ExtendBlockKeeps(s: State, s': State, t: nat, mem: nat)
    requires Alive(s) && Inv(s) && ExtendBlock(s, s', t, mem)
    ensures Inv(s')
  {
    NewBlockOk(mem, s.config.growth, s.config.hidable);
    assert PcOk(s, t) && HolderOk(s, t);
    ThreadsKeep(s, s', t);
    assert BlocksOk(s') by {
      forall i | 0 <= i < |s.blocks| ensures BlockOk(s'.blocks[i]) { assert BlockOk(s.blocks[i]); }
    }
    ExtendChain(s, s', t, mem);
    ExtendExtents(s, s', t, mem);
  }

  lemma ExtendChain(s: State, s': State, t: nat, mem: nat)
    requires Alive(s) && ChainOk(s) && LengthOk(s) && ExtendBlock(s, s', t, mem)
    ensures ChainOk(s') && LengthOk(s')
  {
    hide NewBlock;
    assert s'.blocks[|s.blocks|].size == s.config.growth &&
             s'.blocks[|s.blocks|].next == None by { NewBlockShape(mem, s.config.growth, s.config.hidable); }
    GrownOnce(s.config.growth, |s.blocks|);
    assert !Glitched(s);
  }

  lemma GrownOnce(growth: nat, n: nat)
    ensures growth * n == growth * (n - 1) + growth
  {
  }

  lemma NewBlockShape(mem: nat, size: nat, hidable: bool)
    ensures var b := NewBlock(mem, size, hidable); b.mem == mem && b.size == size && b.next == None && b.claims == []
  {
  }

  lemma ExtendExtents(s: State, s': State, t: nat, mem: nat)
    requires ChainOk(s) && ExtentsApart(s) && ExtendBlock(s, s', t, mem)
    ensures ExtentsApart(s')
  {
    forall i | 0 <= i < |s'.blocks|
      ensures Extent(s'.blocks[i]) == if i < |s.blocks| then Extent(s.blocks[i]) else Range(mem, mem + s.config.growth)
    { }
  }

  lemma NewHugeOk(mem: nat, request: nat, hidable: bool)
    requires var h := NewHuge(mem, request, hidable); h.base + request <= h.limit
    ensures HugeOk(NewHuge(mem, request, hidable))
  {
    AlignBounds(mem + MEMBLK_BYTES, Alignment(hidable));
    AlignBounds(mem + AllocSize(request, hidable), Alignment(hidable));
  }

  lemma ExtendHugeKeeps(s: State, s': State, t: nat, mem: nat)
    requires Alive(s) && Inv(s) && ExtendHuge(s, s', t, mem)
    ensures Inv(s')
  {
    var n := PcOf(s, t).n;
    var h := NewHuge(mem, n, s.config.hidable);
    assert h.request == n;
    hide NewHuge, BlockOk, HugeOk;
    assert PcOk(s, t) && HolderOk(s, t);
    assert !Glitched(s);
    if h.base + n > h.limit {
      assert PcOf(s', t) == Dead(AlignmentGlitch);
    } else {
      NewHugeOk(mem, n, s.config.hidable);
      assert s'.huge[1..] == s.huge;
    }
    ThreadsKeep(s, s', t);
  }

  lemma ReleaseKeeps(s: State, s': State)
    requires Inv(s) && Release(s, s')
    ensures Inv(s')
  {
    assert BlockOk(s.blocks[0]);
    forall t: nat ensures PcOk(s', t) && HolderOk(s', t) { assert PcOf(s, t).Idle? && HolderOk(s, t); }
  }

  lemma NextKeeps(s: State, s': State)
    requires Inv(s) && Next(s, s')
    ensures Inv(s')
  {
    hide Inv, Call, ReadCurrent, ReadFree, CompareAndSwap, Acquire;
    hide Late, Refuse, ExtendBlock, ExtendHuge, Release, Alive;
    if t :| ThreadStep(s, s', t) {
      if CompareAndSwap(s, s', t) {
        CasKeeps(s, s', t);
      } else if mem :| ExtendBlock(s, s', t, mem) {
        ExtendBlockKeeps(s, s', t, mem);
      } else if mem :| ExtendHuge(s, s', t, mem) {
        ExtendHugeKeeps(s, s', t, mem);
      } else {
        LocalKeeps(s, s', t);
      }
    } else {
      ReleaseKeeps(s, s');
    }
  }

  ghost predicate IsRun(run: seq<State>, arena: nat, head: nat) {
    && |run| > 0 && Init(run[0], arena, head)
    && forall i :: 0 < i < |run| ==> Next(run[i - 1], run[i])
  }

  lemma {:induction false} RunKeeps(run: seq<State>, arena: nat, head: nat, i: nat)
    requires IsRun(run, arena, head) && i < |run|
    ensures Inv(run[i]) && run[i].config == run[0].config
  {
    if i == 0 {
      NewBlockOk(arena + head, run[0].config.original - head, run[0].config.hidable);
      assert run[0].config.growth * 0 == 0;
      forall t: nat ensures PcOk(run[0], t) && HolderOk(run[0], t) { }
    } else {
      RunKeeps(run, arena, head, i - 1);
      NextKeeps(run[i - 1], run[i]);
    }
  }

  // ---- What the claims are worth ----

  /** One range that a thread was given: the `i`th claim of block `b`, or a huge object. */
  datatype Claim = InBlock(b: nat, i: nat) | InHuge(k: nat)

  ghost predicate Given(s: State, c: Claim) {
    match c
    case InBlock(b, i) => b < |s.blocks| && i < |s.blocks[b].claims|
    case InHuge(k) => k < |s.huge|
  }

  ghost function RangeOf(s: State, c: Claim): Range
    requires Given(s, c)
  {
    match c
    case InBlock(b, i) => s.blocks[b].claims[i]
    case InHuge(k) => Range(s.huge[k].base, s.huge[k].base + s.huge[k].request)
  }

  /** The usable part of the block that a claim is in. */
  ghost function Home(s: State, c: Claim): Range
    requires Given(s, c)
  {
    match c
    case InBlock(b, _) => Range(s.blocks[b].base, s.blocks[b].limit)
    case InHuge(k) => Range(s.huge[k].base, s.huge[k].limit)
  }

  lemma {:induction false} TiledIsOrdered(claims: seq<Range>, lo: nat, hi: nat, i: nat)
    requires Tiled(claims, lo, hi) && i < |claims|
    ensures lo <= claims[i].lo <= claims[i].hi <= hi
    ensures forall j :: 0 <= j < i ==> claims[j].hi <= claims[i].lo
  {
    var last := |claims| - 1;
    TiledStart(claims[..last], lo, claims[last].lo);
    if i < last {
      TiledIsOrdered(claims[..last], lo, claims[last].lo, i);
      assert forall j :: 0 <= j < i ==> claims[..last][j] == claims[j];
    } else {
      forall j | 0 <= j < last ensures claims[j].hi <= claims[last].lo {
        TiledIsOrdered(claims[..last], lo, claims[last].lo, j);
      }
    }
  }

  lemma {:induction false} TiledStart(claims: seq<Range>, lo: nat, hi: nat)
    requires Tiled(claims, lo, hi)
    ensures lo <= hi
  {
    if claims != [] {
      TiledStart(claims[..|claims| - 1], lo, claims[|claims| - 1].lo);
    }
  }

  /** In every run, whatever the interleaving, the ranges that have been handed out since the
      last release are pairwise disjoint, and each lies in the usable part of its block. */
  lemma ClaimsAreDisjoint(run: seq<State>, arena: nat, head: nat, k: nat, c: Claim, d: Claim)
    requires IsRun(run, arena, head) && k < |run| && Given(run[k], c) && Given(run[k], d)
    ensures c != d ==> Apart(RangeOf(run[k], c), RangeOf(run[k], d))
    ensures Home(run[k], c).lo <= RangeOf(run[k], c).lo <= RangeOf(run[k], c).hi <= Home(run[k], c).hi
  {
    RunKeeps(run, arena, head, k);
    ClaimIsHome(run[k], c);
    ClaimIsHome(run[k], d);
    if c.InBlock? && d.InBlock? && c.b == d.b && c.i != d.i {
      var block := run[k].blocks[c.b];
      assert BlockOk(block);
      TiledIsOrdered(block.claims, block.base, block.free, Larger(c.i, d.i));
    }
  }

  /** The arena is extended, or reported to be exhausted, only for a request that does not fit in what
      is left of the current block. */
  lemma ExtendedOnlyWhenFull(run: seq<State>, arena: nat, head: nat, k: nat, t: nat, mem: nat)
    requires IsRun(run, arena, head) && k + 1 < |run|
    requires var s, s' := run[k], run[k + 1];
             ExtendBlock(s, s', t, mem) || ExtendHuge(s, s', t, mem) || Refuse(s, s', t)
    ensures var s := run[k];
            && PcOf(s, t).Hold? && s.current < |s.blocks|
            && s.blocks[s.current].free + PcOf(s, t).n > s.blocks[s.current].limit
  {
    RunKeeps(run, arena, head, k);
    assert PcOk(run[k], t);
  }

  /** A thread that finds room in the current block and is not disturbed has the next bytes of the
      block after three steps, and nothing else has changed. */
  lemma AloneIsServed(s0: State, s1: State, s2: State, s3: State, t: nat)
    requires PcOf(s0, t).Start? && s0.current < |s0.blocks|
    requires s0.blocks[s0.current].free + PcOf(s0, t).n <= s0.blocks[s0.current].limit
    requires ThreadStep(s0, s1, t) && ThreadStep(s1, s2, t) && ThreadStep(s2, s3, t)
    ensures PcOf(s3, t).Idle? && s3 == s0.(pcs := s3.pcs, blocks := s3.blocks)
    ensures forall u :: u != t ==> PcOf(s3, u) == PcOf(s0, u)
    ensures |s3.blocks| == |s0.blocks|
    ensures forall b :: 0 <= b < |s0.blocks| && b != s0.current ==> s3.blocks[b] == s0.blocks[b]
    ensures var block, n := s0.blocks[s0.current], PcOf(s0, t).n;
            s3.blocks[s0.current] ==
              block.(free := block.free + n, claims := block.claims + [Range(block.free, block.free + n)])
  {
    hide *;
    EntersCurrent(s0, s1, t);
    TriesFree(s1, s2, t);
    Wins(s2, s3, t);
  }

  lemma EntersCurrent(s: State, s': State, t: nat)
    requires ThreadStep(s, s', t) && PcOf(s, t).Start?
    ensures s' == s.(pcs := s'.pcs) && PcOf(s', t) == Enter(s.current, PcOf(s, t).n, PcOf(s, t).cons)
    ensures forall u :: u != t ==> PcOf(s', u) == PcOf(s, u)
  {
    hide NewBlock, NewHuge, Unused, Judge;
  }

  lemma TriesFree(s: State, s': State, t: nat)
    requires ThreadStep(s, s', t) && PcOf(s, t).Enter? && PcOf(s, t).b < |s.blocks|
    requires s.blocks[PcOf(s, t).b].free + PcOf(s, t).n <= s.blocks[PcOf(s, t).b].limit
    ensures var pc := PcOf(s, t);
            s' == s.(pcs := s'.pcs) && PcOf(s', t) == Try(pc.b, pc.n, pc.cons, s.blocks[pc.b].free)
    ensures forall u :: u != t ==> PcOf(s', u) == PcOf(s, u)
  {
    hide NewBlock, NewHuge, Unused;
  }

  lemma Wins(s: State, s': State, t: nat)
    requires ThreadStep(s, s', t) && PcOf(s, t).Try? && PcOf(s, t).b < |s.blocks|
    requires s.blocks[PcOf(s, t).b].free == PcOf(s, t).at
    ensures var pc := PcOf(s, t);
            var block := s.blocks[pc.b];
            && s' == s.(pcs := s'.pcs, blocks := s.blocks[pc.b := block.(free := pc.at + pc.n,
                 claims := block.claims + [Range(pc.at, pc.at + pc.n)])])
            && PcOf(s', t).Idle?
    ensures forall u :: u != t ==> PcOf(s', u) == PcOf(s, u)
  {
    hide NewBlock, NewHuge, Unused, Judge;
  }

  /** Such steps exist. */
  lemma AloneCanStep(s0: State, t: nat)
    requires PcOf(s0, t).Start? && s0.current < |s0.blocks|
    requires s0.blocks[s0.current].free + PcOf(s0, t).n <= s0.blocks[s0.current].limit
    ensures exists s1, s2, s3 :: ThreadStep(s0, s1, t) && ThreadStep(s1, s2, t) && ThreadStep(s2, s3, t)
  {
    var pc, block := PcOf(s0, t), s0.blocks[s0.current];
    var s1 := WithPc(s0, t, Enter(s0.current, pc.n, pc.cons));
    var s2 := WithPc(s1, t, Try(s0.current, pc.n, pc.cons, block.free));
    var s3 := WithPc(s2, t, Idle).(blocks := s0.blocks[s0.current := block.(free := block.free + pc.n,
      claims := block.claims + [Range(block.free, block.free + pc.n)])]);
    assert ReadCurrent(s0, s1, t) && ReadFree(s1, s2, t) && CompareAndSwap(s2, s3, t);
    assert ThreadStep(s0, s1, t) && ThreadStep(s1, s2, t) && ThreadStep(s2, s3, t);
  }

  // ---- What the holder of the mutex does ----

  /** The usable part of new memory: bounded by multiples of the chunk size if the arena can be hidden,
      else of two words, and as large as that allows behind the header of five words. */
  ghost predicate Carved(mem: nat, size: nat, base: nat, limit: nat, hidable: bool) {
    var unit := if hidable then 4096 else 16;
    && base % unit == 0 && limit % unit == 0
    && mem + 40 <= base < mem + 40 + unit && mem + size - unit < limit <= mem + size
  }

  lemma NewMemoryIsCarved(mem: nat, size: nat, hidable: bool)
    ensures Carved(mem, size, Base(mem, hidable), Limit(mem, size, hidable), hidable)
  {
    AlignBounds(mem + MEMBLK_BYTES, Alignment(hidable));
    AlignBounds(mem + size, Alignment(hidable));
  }

  /** A new arena has one block, in what its header leaves of the memory. */
  lemma NewArenaIsCarved(s: State, arena: nat, head: nat)
    requires Init(s, arena, head)
    ensures |s.blocks| == 1 && s.blocks[0].mem == arena + head && s.blocks[0].size == s.config.original - head
    ensures var b := s.blocks[0];
            Carved(b.mem, b.size, b.base, b.limit, s.config.hidable) && b.free == b.base && b.claims == []
  {
    NewMemoryIsCarved(arena + head, s.config.original - head, s.config.hidable);
  }

  /** A new block of the usual size is the current one, with nothing claimed; the thread starts over. */
  ghost predicate BlockAdded(s: State, s': State, t: nat, n: nat, cons: bool)
    requires s.current < |s.blocks|
  {
    && PcOf(s', t) == Start(n, cons) && s'.huge == s.huge && s'.length == s.length + s.config.growth
    && |s'.blocks| == |s.blocks| + 1 && s'.current == |s.blocks|
    && (forall b :: 0 <= b < |s.blocks| ==>
          s'.blocks[b] == if b == s.current then s.blocks[b].(next := Some(|s.blocks|)) else s.blocks[b])
    && var x := s'.blocks[|s.blocks|];
    && x.size == s.config.growth && x.free == x.base && x.next == None && x.claims == []
    && Carved(x.mem, x.size, x.base, x.limit, s.config.hidable) && Unused(s, Extent(x))
  }

  /** The request has memory of its own, with three spare chunks if the arena can be hidden, else with
      room for the header and two words; or the program ends because it does not fit there. */
  ghost predicate HugeAdded(s: State, s': State, t: nat, n: nat)
  {
    && s'.blocks == s.blocks && s'.current == s.current && s'.length == s.length + n
    && (PcOf(s', t) == Dead(AlignmentGlitch) || HugeIsFirst(s, s', t, n))
  }

  ghost predicate HugeIsFirst(s: State, s': State, t: nat, n: nat) {
    && PcOf(s', t).Idle? && |s'.huge| == |s.huge| + 1 && s'.huge[1..] == s.huge
    && var x := s'.huge[0];
    && x.request == n && x.size == n + (if s.config.hidable then 3 * 4096 else 56)
    && x.base + n <= x.limit && Carved(x.mem, x.size, x.base, x.limit, s.config.hidable)
    && Unused(s, HugeExtent(x))
  }

  /** The next step of a thread with the mutex: it starts over if the arena was extended meanwhile; the
      program ends if the limit would be exceeded; an oversized request that is not for conses gets
      memory of its own; otherwise the arena gets a block of the usual size. */
  lemma HoldDecides(s: State, s': State, t: nat)
    requires Inv(s) && ThreadStep(s, s', t) && PcOf(s, t).Hold?
    ensures forall u :: u != t ==> PcOf(s', u) == PcOf(s, u)
    ensures s'.config == s.config && (s'.holder == None || PcOf(s', t) == Dead(AlignmentGlitch))
    ensures var pc := PcOf(s, t);
            var huge := !pc.cons && pc.n > s.config.threshold;
            var more := if huge then pc.n else s.config.growth;
            if pc.b != s.current then
              s' == s.(pcs := s'.pcs, holder := None) && PcOf(s', t) == Enter(s.current, pc.n, pc.cons)
            else if s.length + more > s.config.maxLength then
              s' == s.(pcs := s'.pcs, holder := None) && PcOf(s', t) == Dead(LimitReached)
            else if huge then HugeAdded(s, s', t, pc.n)
            else BlockAdded(s, s', t, pc.n, pc.cons)
  {
    var pc := PcOf(s, t);
    assert ChainOk(s);
    hide Inv, NewBlock, NewHuge, Unused, Carved;
    if mem :| ExtendBlock(s, s', t, mem) {
      BlockIsAdded(s, s', t, mem);
    } else if mem :| ExtendHuge(s, s', t, mem) {
      HugeIsAdded(s, s', t, mem);
    }
  }

  lemma BlockIsAdded(s: State, s': State, t: nat, mem: nat)
    requires ExtendBlock(s, s', t, mem)
    ensures BlockAdded(s, s', t, PcOf(s, t).n, PcOf(s, t).cons)
  {
    hide Unused, Carved;
    NewMemoryIsCarved(mem, s.config.growth, s.config.hidable);
    assert Extent(s'.blocks[|s.blocks|]) == Range(mem, mem + s.config.growth);
  }

  lemma HugeIsAdded(s: State, s': State, t: nat, mem: nat)
    requires ExtendHuge(s, s', t, mem)
    ensures HugeAdded(s, s', t, PcOf(s, t).n)
  {
    hide Unused, Carved;
    var n := PcOf(s, t).n;
    NewMemoryIsCarved(mem, AllocSize(n, s.config.hidable), s.config.hidable);
  }

  /** While no thread uses the arena it can be released: the first block is as it was, and all others are
      gone. */
  lemma CanRelease(s: State)
    requires Inv(s) && forall t :: PcOf(s, t).Idle?
    ensures exists s' :: Release(s, s') && |s'.blocks| == 1 && s'.blocks[0].free == s.blocks[0].base
                         && s'.blocks[0].claims == [] && s'.huge == [] && s'.length == s.config.original
  {
    assert ChainOk(s);
    var s' := s.(blocks := [s.blocks[0].(free := s.blocks[0].base, next := None, claims := [])],
                 current := 0, huge := [], length := s.config.original);
    assert Release(s, s');
  }

  /** Given unused memory it can make that step. */
  lemma HoldCanGoOn(s: State, t: nat, mem: nat)
    requires Inv(s) && PcOf(s, t).Hold?
    requires Unused(s, Range(mem, mem + s.config.growth))
    requires Unused(s, Range(mem, mem + PcOf(s, t).n + if s.config.hidable then 3 * 4096 else 56))
    ensures exists s' :: ThreadStep(s, s', t)
  {
    var pc := PcOf(s, t);
    assert ChainOk(s);
    if pc.b != s.current {
      var s' := WithPc(s, t, Enter(s.current, pc.n, pc.cons)).(holder := None);
      assert Late(s, s', t) && ThreadStep(s, s', t);
    } else if s.length + Request(s, pc.n, pc.cons) > s.config.maxLength {
      var s' := WithPc(s, t, Dead(LimitReached)).(holder := None);
      assert Refuse(s, s', t) && ThreadStep(s, s', t);
    } else if Oversized(s, pc.n, pc.cons) {
      var h := NewHuge(mem, pc.n, s.config.hidable);
      assert HugeExtent(h) == Range(mem, mem + pc.n + if s.config.hidable then 3 * 4096 else 56);
      var s' := if h.base + pc.n > h.limit then
                  WithPc(s, t, Dead(AlignmentGlitch)).(length := s.length + pc.n)
                else
                  WithPc(s.(length := s.length + pc.n, huge := [h] + s.huge), t, Idle).(holder := None);
      assert ExtendHuge(s, s', t, mem) && ThreadStep(s, s', t);
    } else {
      var block, extension := s.blocks[s.current], NewBlock(mem, s.config.growth, s.config.hidable);
      var s' := WithPc(s, t, Start(pc.n, pc.cons))
                  .(blocks := s.blocks[s.current := block.(next := Some(|s.blocks|))] + [extension],
                    current := |s.blocks|, length := s.length + s.config.growth, holder := None);
      assert ExtendBlock(s, s', t, mem) && ThreadStep(s, s', t);
    }
  }

  lemma ClaimIsHome(s: State, c: Claim)
    requires Inv(s) && Given(s, c)
    ensures Home(s, c).lo <= RangeOf(s, c).lo <= RangeOf(s, c).hi <= Home(s, c).hi
    ensures match c
            case InBlock(b, _) => s.blocks[b].mem <= Home(s, c).lo &&
                Home(s, c).hi <= s.blocks[b].mem + s.blocks[b].size
            case InHuge(h) => s.huge[h].mem <= Home(s, c).lo && Home(s, c).hi <= s.huge[h].mem + s.huge[h].size
  {
    match c
    case InBlock(b, i) =>
      assert BlockOk(s.blocks[b]);
      TiledIsOrdered(s.blocks[b].claims, s.blocks[b].base, s.blocks[b].free, i);
    case InHuge(k) =>
      assert HugeOk(s.huge[k]);
  }

  /** Nothing but a release takes back what was handed out. */
  lemma ClaimsPersist(s: State, s': State, t: nat, c: Claim)
    requires ThreadStep(s, s', t) && Given(s, c)
    ensures Given(s', SameClaim(s, s', c)) && RangeOf(s', SameClaim(s, s', c)) == RangeOf(s, c)
  {
    hide NewBlock, NewHuge, Unused, Judge;
    if mem :| ExtendBlock(s, s', t, mem) {
    } else if mem :| ExtendHuge(s, s', t, mem) {
    } else if CompareAndSwap(s, s', t) {
    } else {
      assert s'.blocks == s.blocks && s'.huge == s.huge;
    }
  }

  /** Huge blocks are pushed in front of the earlier ones. */
  function SameClaim(s: State, s': State, c: Claim): Claim {
    if c.InHuge? && |s'.huge| > |s.huge| then InHuge(c.k + 1) else c
  }

  /** The total length never exceeds the limit, or the original size if that is larger, and
      tells exactly what was added to the original block, as long as the program lives. */
  lemma LengthIsBounded(run: seq<State>, arena: nat, head: nat, k: nat)
    requires IsRun(run, arena, head) && k < |run|
    ensures var s, config := run[k], run[0].config;
            && s.length <= Larger(config.original, config.maxLength)
            && (Alive(s) ==> s.length == config.original + config.growth * (|s.blocks| - 1) + Requests(s.huge))
  {
    RunKeeps(run, arena, head, k);
  }

  /** The mutex is exclusive. */
  lemma MutexIsExclusive(run: seq<State>, arena: nat, head: nat, k: nat, t: nat, u: nat)
    requires IsRun(run, arena, head) && k < |run|
    requires PcOf(run[k], t).Hold? && PcOf(run[k], u).Hold?
    ensures t == u
  {
    RunKeeps(run, arena, head, k);
    assert HolderOk(run[k], t) && HolderOk(run[k], u);
  }

  // ---- The glitch ----

  /** The exit is taken exactly if the arena cannot be hidden and the alignments are bad. */
  lemma GlitchIff(s: State, s': State, t: nat, mem: nat)
    requires ExtendHuge(s, s', t, mem)
    ensures PcOf(s', t) == Dead(AlignmentGlitch) <==> !s.config.hidable && !Aligned(mem, PcOf(s, t).n)
  {
    if s.config.hidable { HidableHugeFits(mem, PcOf(s, t).n); } else { PlainHugeFitsIff(mem, PcOf(s, t).n); }
  }

  /** Whole words in a block that starts at a word are enough. */
  lemma WordsAreAligned(mem: nat, request: nat)
    requires mem % WORD_BYTES == 0 && request % WORD_BYTES == 0
    ensures Aligned(mem, request)
  {
    SumMultiple(mem, MEMBLK_BYTES, WORD_BYTES);
    WordInDoubleWord(mem + MEMBLK_BYTES);
    WordInDoubleWord(request);
  }

  lemma WordInDoubleWord(x: nat)
    requires x % WORD_BYTES == 0
    ensures x % 16 == 0 || x % 16 == 8
  {
    var q := x / 8;
    ModUnique(x, 16, q / 2, q % 2 * 8);
  }

  /** A run that takes the exit: a request of 5009 bytes, which is no whole number of words, goes to
      memory at a multiple of 16, as malloc gives it. */
  ghost function GlitchState(i: nat): State {
    var block := NewBlock(0, 4096, false);
    var s := State(Config(4096, 4096, 4096, 1000000, false), [block], 0, [], 4096, None, map[]);
    if i == 0 then s
    else if i == 1 then s.(pcs := map[0 := Start(5009, false)])
    else if i == 2 then s.(pcs := map[0 := Enter(0, 5009, false)])
    else if i == 3 then s.(pcs := map[0 := Want(0, 5009, false)])
    else if i == 4 then s.(pcs := map[0 := Hold(0, 5009, false)], holder := Some(0))
    else s.(pcs := map[0 := Dead(AlignmentGlitch)], holder := Some(0), length := 9105)
  }

  lemma GlitchSteps()
    ensures Call(GlitchState(0), GlitchState(1), 0, 5009, false) && ReadCurrent(GlitchState(1), GlitchState(2), 0)
    ensures ReadFree(GlitchState(2), GlitchState(3), 0) && Acquire(GlitchState(3), GlitchState(4), 0)
  {
    hide NewBlock;
    var block := NewBlock(0, 4096, false);
    assert block.limit == 4096 && block.free == 48 by { SmallBlock(); }
    forall i: nat | i < 4 ensures GlitchState(i + 1).pcs == GlitchState(i).pcs[0 := GlitchState(i + 1).pcs[0]] { }
  }

  lemma SmallBlock()
    ensures var block := NewBlock(0, 4096, false); block.limit == 4096 && block.free == 48
  {
  }

  lemma GlitchExit()
    ensures ExtendHuge(GlitchState(4), GlitchState(5), 0, 8192)
  {
    PlainHugeFitsIff(8192, 5009);
    var s := GlitchState(4);
    assert Extent(s.blocks[0]) == Range(0, 4096);
    assert s.pcs[0 := Dead(AlignmentGlitch)] == GlitchState(5).pcs;
  }

  lemma GlitchNext(i: nat)
    requires i < 5
    ensures Next(GlitchState(i), GlitchState(i + 1))
  {
    GlitchSteps();
    GlitchExit();
    assert Alive(GlitchState(i));
    hide GlitchState, Call, ReadCurrent, ReadFree, Acquire, ExtendHuge, Alive;
    assert ThreadStep(GlitchState(i), GlitchState(i + 1), 0);
  }

  lemma GlitchIsReachable()
    ensures exists run :: IsRun(run, 0, 0) && Glitched(run[|run| - 1])
  {
    var run := seq(6, (i: nat) => GlitchState(i));
    assert Init(GlitchState(0), 0, 0);
    assert PcOf(GlitchState(5), 0) == Dead(AlignmentGlitch);
    hide GlitchState, Next;
    forall i | 0 < i < |run| ensures Next(run[i - 1], run[i]) { GlitchNext(i - 1); }
    assert IsRun(run, 0, 0) && Glitched(run[5]);
  }

  ghost predicate WantsDoubleWords(hidable: bool, pc: Pc) {
    match pc
    case Idle => true
    case Dead(reason) => reason != AlignmentGlitch
    case _ => hidable || pc.n % 16 == 0
  }

  lemma WantsKeep(s: State, s': State, t: nat)
    requires forall u: nat :: WantsDoubleWords(s.config.hidable, PcOf(s, u))
    requires ThreadStep(s, s', t)
    requires PcOf(s', t).Start? ==> WantsDoubleWords(s.config.hidable, PcOf(s', t))
    ensures forall u: nat :: WantsDoubleWords(s.config.hidable, PcOf(s', u))
  {
    hide NewBlock, NewHuge, Unused;
    assert WantsDoubleWords(s.config.hidable, PcOf(s, t));
    if mem :| ExtendHuge(s, s', t, mem) {
      GlitchIff(s, s', t, mem);
    }
    forall u: nat | u != t ensures PcOf(s', u) == PcOf(s, u) { }
  }

  lemma NextWants(s: State, s': State)
    requires forall u: nat :: WantsDoubleWords(s.config.hidable, PcOf(s, u))
    requires Next(s, s')
    requires forall t: nat :: PcOf(s', t).Start? ==> WantsDoubleWords(s.config.hidable, PcOf(s', t))
    ensures forall u: nat :: WantsDoubleWords(s.config.hidable, PcOf(s', u))
  {
    hide Call, ReadCurrent, ReadFree, CompareAndSwap, Acquire, Late, Refuse, ExtendBlock, ExtendHuge;
    if t :| ThreadStep(s, s', t) {
      WantsKeep(s, s', t);
    } else {
      assert Release(s, s');
      forall u: nat ensures PcOf(s', u).Idle? { assert PcOf(s, u).Idle?; }
    }
  }

  /** If every call asks for a whole number of double words, or the arena can be hidden, no run
      takes the exit. */
  lemma {:induction false} GlitchIsUnreachable(run: seq<State>, arena: nat, head: nat, k: nat)
    requires IsRun(run, arena, head) && k < |run|
    requires forall i, t: nat :: 0 <= i < |run| && PcOf(run[i], t).Start? ==>
               WantsDoubleWords(run[0].config.hidable, PcOf(run[i], t))
    ensures !Glitched(run[k]) && forall t: nat :: WantsDoubleWords(run[0].config.hidable, PcOf(run[k], t))
  {
    if k > 0 {
      GlitchIsUnreachable(run, arena, head, k - 1);
      RunKeeps(run, arena, head, k - 1);
      RunKeeps(run, arena, head, k);
      NextWants(run[k - 1], run[k]);
    }
  }

  // ---- arena_bytes_used ----

  function ClaimBytes(claims: seq<Range>): int {
    if claims == [] then 0 else ClaimBytes(claims[..|claims| - 1]) + claims[|claims| - 1].hi - claims[|claims| - 1].lo
  }

  function BlockBytes(blocks: seq<Block>): int {
    if blocks == [] then 0 else BlockBytes(blocks[..|blocks| - 1]) + ClaimBytes(blocks[|blocks| - 1].claims)
  }

  function Spans(huge: seq<Huge>): int {
    if huge == [] then 0 else Spans(huge[..|huge| - 1]) + huge[|huge| - 1].limit - huge[|huge| - 1].base
  }

  lemma {:induction false} TiledSum(claims: seq<Range>, lo: nat, hi: nat)
    requires Tiled(claims, lo, hi)
    ensures ClaimBytes(claims) == hi - lo
  {
    if claims != [] {
      TiledSum(claims[..|claims| - 1], lo, claims[|claims| - 1].lo);
    }
  }

  /** The blocks are chained in order, and what is claimed of each is what lies below its free pointer. */
  lemma BlockChain(s: State)
    requires Inv(s)
    ensures |s.blocks| > 0
    ensures forall i :: 0 <= i < |s.blocks| ==>
              && s.blocks[i].next == (if i + 1 < |s.blocks| then Some(i + 1) else None)
              && ClaimBytes(s.blocks[i].claims) == s.blocks[i].free - s.blocks[i].base
  {
    hide ClaimBytes;
    forall i | 0 <= i < |s.blocks| ensures ClaimBytes(s.blocks[i].claims) == s.blocks[i].free - s.blocks[i].base {
      assert BlockOk(s.blocks[i]);
      TiledSum(s.blocks[i].claims, s.blocks[i].base, s.blocks[i].free);
    }
  }

  lemma BlockSums(blocks: seq<Block>, n: nat)
    ensures BlockBytes(blocks[..0]) == 0
    ensures n < |blocks| ==> BlockBytes(blocks[..n + 1]) == BlockBytes(blocks[..n]) + ClaimBytes(blocks[n].claims)
  {
    if n < |blocks| { assert blocks[..n + 1][..n] == blocks[..n]; }
  }

  lemma SpanSums(huge: seq<Huge>, n: nat)
    ensures Spans(huge[..0]) == 0
    ensures n < |huge| ==> Spans(huge[..n + 1]) == Spans(huge[..n]) + huge[n].limit - huge[n].base
  {
    if n < |huge| { assert huge[..n + 1][..n] == huge[..n]; }
  }

  /** Walking both chains adds up exactly what has been claimed, plus the whole usable part of
      each huge block. */
  method BytesUsed(s: State) returns (sum: int)
    requires Inv(s)
    ensures sum == BlockBytes(s.blocks) + Spans(s.huge)
  {
    BlockChain(s);
    hide Inv, BlockBytes, Spans, ClaimBytes;
    BlockSums(s.blocks, 0);
    SpanSums(s.huge, 0);
    sum := 0;
    var at := Some(0);
    ghost var done := 0;
    while at.Some?
      invariant 0 <= done <= |s.blocks|
      invariant at == if done < |s.blocks| then Some(done) else None
      invariant sum == BlockBytes(s.blocks[..done])
      decreases |s.blocks| - done
    {
      var block := s.blocks[at.value];
      BlockSums(s.blocks, done);
      sum := sum + block.free - block.base;
      at := block.next;
      done := done + 1;
    }
    assert s.blocks[..done] == s.blocks;
    for k := 0 to |s.huge|
      invariant sum == BlockBytes(s.blocks) + Spans(s.huge[..k])
    {
      SpanSums(s.huge, k);
      sum := sum + s.huge[k].limit - s.huge[k].base;
    }
    assert s.huge[..|s.huge|] == s.huge;
  }
}
