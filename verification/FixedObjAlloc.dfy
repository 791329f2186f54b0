/** The lock-free allocator of fixed-size immobile objects in
    `src/runtime/immobile-space.c`, as a step relation over any number of threads.
    Each shared read, write and compare-and-swap is one step; between any two steps
    of a thread all others may act. */
module FixedObjAlloc {
  import opened Common
  import opened Arithmetic
  import opened FixedObjPage

  /** Where a thread is inside alloc_immobile_fixedobj; `c` is the size class it allocates for. */
  datatype Pc =
    | Idle
    | Search(c: nat)                                 // in get_freeish_page
    | Start(c: nat, page: nat)                       // about to read the free index
    | Probe(c: nat, page: nat, at: nat)              // about to look at the cell `at`
    | Try(c: nat, page: nat, at: nat, seen: nat)     // read a hole, about to compare-and-swap
    | Skip(c: nat, page: nat, at: nat)               // lost the cell, about to reread the free index
    | Publish(c: nat, page: nat, at: nat, seen: nat) // won the cell, about to store the free index
    | Stamp(c: nat, page: nat, at: nat)              // about to set the bit of generation 0 in the mask
    | MarkFull(c: nat, page: nat)                    // ran off the page

  /** An object that was handed out. */
  datatype Object = Object(page: nat, at: nat, spacing: nat)

  /** `classes` gives the spacing of each size class; `hints` the page to start at. */
  datatype State = State(classes: seq<nat>, pages: seq<Page>, hints: map<nat, nat>, pcs: map<nat, Pc>,
                         live: seq<Object>)

  function PcOf(s: State, t: nat): Pc {
    if t in s.pcs then s.pcs[t] else Idle
  }

  function WithPc(s: State, t: nat, pc: Pc): State {
    s.(pcs := s.pcs[t := pc])
  }

  function WithPage(s: State, p: nat, page: Page): State
    requires p < |s.pages|
  {
    s.(pages := s.pages[p := page])
  }

  // ---- Steps of one thread ----

  /** Enter with the page hint of the size class, or search if there is none. */
  ghost predicate Enter(s: State, s': State, t: nat, c: nat) {
    && PcOf(s, t).Idle? && c < |s.classes|
    && s' == WithPc(s, t, if c in s.hints then Start(c, s.hints[c]) else Search(c))
  }

  /** get_freeish_page claims an unclaimed page by compare-and-swap, or settles on a page that
      already has the wanted spacing; the hint of the class may or may not be updated. */
  ghost predicate Settle(s: State, s': State, t: nat, p: nat, hinted: bool) {
    var pc := PcOf(s, t);
    && pc.Search? && pc.c < |s.classes| && p < |s.pages|
    && var n := s.classes[pc.c];
    && (s.pages[p].spacing == 0 || s.pages[p].spacing == n)
    && s' == WithPc(WithPage(s, p, s.pages[p].(spacing := n)), t, Start(pc.c, p))
               .(hints := if hinted then s.hints[pc.c := p] else s.hints)
  }

  ghost predicate ReadFree(s: State, s': State, t: nat) {
    var pc := PcOf(s, t);
    && pc.Start? && pc.page < |s.pages|
    && s' == WithPc(s, t, Probe(pc.c, pc.page, s.pages[pc.page].freeIndex))
  }

  /** Look at a cell: past the limit, the page is given up; a hole will be tried; an object is
      skipped. */
  ghost predicate Look(s: State, s': State, t: nat) {
    var pc := PcOf(s, t);
    && pc.Probe? && pc.page < |s.pages| && pc.c < |s.classes|
    && s' == WithPc(s, t,
         if pc.at + s.classes[pc.c] > CARD_BYTES then MarkFull(pc.c, pc.page)
         else match WordAt(s.pages[pc.page], pc.at)
              case Hole(d) => Try(pc.c, pc.page, pc.at, d)
              case _ => Skip(pc.c, pc.page, pc.at))
  }

  /** The compare-and-swap succeeds exactly if the word still has the value that was read. */
  ghost predicate CompareAndSwap(s: State, s': State, t: nat) {
    var pc := PcOf(s, t);
    && pc.Try? && pc.page < |s.pages| && pc.c < |s.classes|
    && if WordAt(s.pages[pc.page], pc.at) == Hole(pc.seen) then
         var page := s.pages[pc.page];
         s' == WithPc(WithPage(s, pc.page, page.(words := page.words[pc.at / 8 := Header(0, false)])), t,
                      Publish(pc.c, pc.page, pc.at, pc.seen))
                 .(live := s.live + [Object(pc.page, pc.at, s.classes[pc.c])])
       else
         s' == WithPc(s, t, Skip(pc.c, pc.page, pc.at))
  }

  /** Move on to the larger of the current free index and the next cell. */
  ghost predicate Reread(s: State, s': State, t: nat) {
    var pc := PcOf(s, t);
    && pc.Skip? && pc.page < |s.pages| && pc.c < |s.classes|
    && var free, next := s.pages[pc.page].freeIndex, pc.at + s.classes[pc.c];
    s' == WithPc(s, t, Probe(pc.c, pc.page, if free > next then free else next))
  }

  /** Slam in the free index computed from the hole that was won, however stale. */
  ghost predicate StoreFree(s: State, s': State, t: nat) {
    var pc := PcOf(s, t);
    && pc.Publish? && pc.page < |s.pages| && pc.c < |s.classes|
    && s' == WithPc(WithPage(s, pc.page, s.pages[pc.page].(freeIndex := pc.at + s.classes[pc.c] + pc.seen)), t,
                    Stamp(pc.c, pc.page, pc.at))
  }

  /** Note generation 0 in the mask of the page, and return. */
  ghost predicate StoreMask(s: State, s': State, t: nat) {
    var pc := PcOf(s, t);
    && pc.Stamp? && pc.page < |s.pages|
    && s' == WithPc(WithPage(s, pc.page, s.pages[pc.page].(gens := s.pages[pc.page].gens + {0})), t, Idle)
  }

  ghost predicate StoreFull(s: State, s': State, t: nat) {
    var pc := PcOf(s, t);
    && pc.MarkFull? && pc.page < |s.pages|
    && s' == WithPc(WithPage(s, pc.page, s.pages[pc.page].(freeIndex := CARD_BYTES)), t, Search(pc.c))
  }

  /** A mutator writes any word, free-space-like or not, inside an object that was handed out,
      but keeps the header word a header. */
  ghost predicate Mutate(s: State, s': State, o: Object, at: nat, w: Word) {
    && o in s.live && o.page < |s.pages| && o.at < at < o.at + o.spacing && at % 8 == 0
    && at / 8 < |s.pages[o.page].words|
    && s' == WithPage(s, o.page, s.pages[o.page].(words := s.pages[o.page].words[at / 8 := w]))
  }

  /** A collection runs while no thread allocates: on every page it enlivens some objects and sweeps;
      the objects that are not swept away stay. */
  ghost predicate Collect(s: State, s': State, g: Gens) {
    && (forall t :: PcOf(s, t).Idle?) && s'.pcs == s.pcs && g.Ok()
    && s'.classes == s.classes && s'.hints == map[]
    && |s'.pages| == |s.pages| && (forall p :: 0 <= p < |s.pages| ==> Collected(g, s.pages[p], s'.pages[p]))
    && s'.live == Remaining(s.live, s'.pages)
  }

  /** The objects whose cells are not free. */
  ghost function Remaining(live: seq<Object>, pages: seq<Page>): seq<Object> {
    if live == [] then []
    else
      var o, rest := live[|live| - 1], Remaining(live[..|live| - 1], pages);
      if o.page < |pages| && !WordAt(pages[o.page], o.at).Hole? then rest + [o] else rest
  }

  ghost predicate ThreadStep(s: State, s': State, t: nat) {
    || (exists c :: Enter(s, s', t, c))
    || (exists p, hinted :: Settle(s, s', t, p, hinted))
    || ReadFree(s, s', t) || Look(s, s', t) || CompareAndSwap(s, s', t)
    || Reread(s, s', t) || StoreFree(s, s', t) || StoreMask(s, s', t) || StoreFull(s, s', t)
  }

  ghost predicate Next(s: State, s': State) {
    || (exists t :: ThreadStep(s, s', t))
    || (exists o, at, w :: Mutate(s, s', o, at, w))
    || (exists g :: Collect(s, s', g))
  }

  // ---- What every run keeps ----

  /** The page has been claimed for the size class. */
  ghost predicate OnPage(s: State, c: nat, p: nat) {
    c < |s.classes| && p < |s.pages| && s.pages[p].spacing == s.classes[c]
  }

  /** A thread works on a page of its own spacing, at a cell boundary or past the page. */
  ghost predicate PcOk(s: State, pc: Pc) {
    match pc
    case Idle => true
    case Search(c) => c < |s.classes|
    case Start(c, p) => OnPage(s, c, p)
    case Probe(c, p, at) => OnPage(s, c, p) && s.classes[c] > 0 && Multiple(at, s.classes[c])
    case Try(c, p, at, seen) => OnPage(s, c, p) && Boundary(s.pages[p].spacing, at) && seen % s.classes[c] == 0
    case Skip(c, p, at) => OnPage(s, c, p) && Boundary(s.pages[p].spacing, at)
    case Publish(c, p, at, seen) => OnPage(s, c, p) && Won(s.pages[p], at) && seen % s.classes[c] == 0
    case Stamp(c, p, at) => OnPage(s, c, p) && Won(s.pages[p], at)
    case MarkFull(c, p) => OnPage(s, c, p)
  }

  /** The cell holds a new object. */
  ghost predicate Won(p: Page, at: nat) {
    Boundary(p.spacing, at) && WordAt(p, at) == Header(0, false)
  }

  /** Offsets of the new objects on page `p` whose generation may not be noted in the mask yet. */
  ghost function Pending(s: State, p: nat): set<nat> {
    set t | t in s.pcs && (s.pcs[t].Publish? || s.pcs[t].Stamp?) && s.pcs[t].page == p :: s.pcs[t].at
  }

  /** The object lies on a boundary of a page of its spacing, and its header word is a header. */
  ghost predicate ObjectOk(pages: seq<Page>, o: Object) {
    && o.page < |pages| && pages[o.page].spacing == o.spacing
    && Boundary(pages[o.page].spacing, o.at) && WordAt(pages[o.page], o.at).Header?
  }

  ghost predicate Distinct(live: seq<Object>) {
    forall i, j :: 0 <= i < j < |live| ==> (live[i].page, live[i].at) != (live[j].page, live[j].at)
  }

  ghost predicate Inv(s: State) {
    && (forall c :: 0 <= c < |s.classes| ==> SpacingOk(s.classes[c]))
    && PagesOk(s.pages)
    && (forall p :: 0 <= p < |s.pages| ==> HeadersOk(s.pages[p], Pending(s, p)))
    && (forall c :: c in s.hints ==> OnPage(s, c, s.hints[c]))
    && (forall t :: PcOk(s, PcOf(s, t)))
    && (forall o :: o in s.live ==> ObjectOk(s.pages, o))
    && Distinct(s.live)
  }

  /** Space as the core file or the operating system provides it: nobody is allocating. */
  ghost predicate Init(s: State) {
    && (forall c :: 0 <= c < |s.classes| ==> SpacingOk(s.classes[c]))
    && PagesOk(s.pages) && (forall p :: 0 <= p < |s.pages| ==> HeadersOk(s.pages[p], {}))
    && s.hints == map[] && s.pcs == map[] && s.live == []
  }

  // ---- Proofs ----

  /** The page is claimed at most, and no head of a cell that is not a hole changes. */
  ghost predicate HeadsKept(p: Page, p': Page) {
    && (p.spacing != 0 ==> p'.spacing == p.spacing)
    && forall at: nat :: Boundary(p.spacing, at) && !WordAt(p, at).Hole? ==> WordAt(p', at) == WordAt(p, at)
  }

  /** Such a step does not disturb a thread or an object. */
  lemma ThreadKept(s: State, s': State, pc: Pc)
    requires s'.classes == s.classes && |s'.pages| == |s.pages|
    requires forall p :: 0 <= p < |s.pages| ==> HeadsKept(s.pages[p], s'.pages[p])
    requires forall c :: 0 <= c < |s.classes| ==> SpacingOk(s.classes[c])
    requires PcOk(s, pc)
    ensures PcOk(s', pc)
  {
  }

  /** What thread `t` has won and not stamped yet. */
  ghost function Mine(pc: Pc, p: nat): set<nat> {
    if (pc.Publish? || pc.Stamp?) && pc.page == p then {pc.at} else {}
  }

  lemma PendingStep(s: State, s': State, t: nat, pc: Pc, p: nat)
    requires s'.pcs == s.pcs[t := pc]
    ensures Pending(s, p) <= Pending(s', p) + Mine(PcOf(s, t), p) && Mine(pc, p) <= Pending(s', p)
  {
    forall at | at in Pending(s, p) ensures at in Pending(s', p) + Mine(PcOf(s, t), p) {
      var u :| u in s.pcs && (s.pcs[u].Publish? || s.pcs[u].Stamp?) && s.pcs[u].page == p && s.pcs[u].at == at;
      assert u != t ==> s'.pcs[u] == s.pcs[u];
    }
    assert t in s'.pcs;
  }

  /** The pages stay in order and no object is disturbed. */
  ghost predicate PagesKept(s: State, s': State) {
    && s'.classes == s.classes && |s'.pages| == |s.pages|
    && forall p :: 0 <= p < |s.pages| ==> HeadsKept(s.pages[p], s'.pages[p]) && PageOk(s'.pages[p])
  }

  /** A step of thread `t` that keeps the pages. */
  lemma StepKeeps(s: State, s': State, t: nat, pc: Pc)
    requires Inv(s) && PagesKept(s, s') && s'.pcs == s.pcs[t := pc] && PcOk(s', pc)
    requires forall c :: c in s'.hints ==> (c in s.hints && s'.hints[c] == s.hints[c]) || OnPage(s', c, s'.hints[c])
    requires forall p :: 0 <= p < |s.pages| ==> HeadersOk(s'.pages[p], Pending(s', p))
    requires (forall o :: o in s'.live ==> ObjectOk(s'.pages, o)) && Distinct(s'.live)
    ensures Inv(s')
  {
    forall u: nat ensures PcOk(s', PcOf(s', u)) {
      assert PcOk(s, PcOf(s, u));
      if u != t {
        ThreadKept(s, s', PcOf(s, u));
      }
    }
  }

  /** A step that changes neither the mask nor a head of any page. */
  lemma QuietHeaders(s: State, s': State, t: nat, pc: Pc)
    requires Inv(s) && PagesKept(s, s') && s'.pcs == s.pcs[t := pc]
    requires forall p :: 0 <= p < |s.pages| ==>
               s'.pages[p].gens == s.pages[p].gens && s'.pages[p].words == s.pages[p].words
    requires forall p :: 0 <= p < |s.pages| ==> Mine(PcOf(s, t), p) <= Mine(pc, p)
    ensures forall p :: 0 <= p < |s.pages| ==> HeadersOk(s'.pages[p], Pending(s', p))
    ensures forall o :: o in s.live ==> ObjectOk(s'.pages, o)
  {
    forall p | 0 <= p < |s.pages| ensures HeadersOk(s'.pages[p], Pending(s', p)) {
      PendingStep(s, s', t, pc, p);
      assert HeadersOk(s.pages[p], Pending(s, p)) && PageOk(s.pages[p]);
      hide HeadersOk, PageOk;
      SameHeaders(s.pages[p], s'.pages[p], Pending(s, p), Pending(s', p));
    }
    forall o | o in s.live ensures ObjectOk(s'.pages, o) { assert ObjectOk(s.pages, o); }
  }

  lemma SameHeaders(p: Page, p': Page, pending: set<nat>, pending': set<nat>)
    requires PageOk(p) && PageOk(p') && HeadersOk(p, pending) && HeadsKept(p, p') && pending <= pending'
    requires p'.gens == p.gens && p'.words == p.words
    ensures HeadersOk(p', pending')
  {
    forall at: nat | Boundary(p'.spacing, at) && !WordAt(p', at).Hole? ensures HeaderOk(p', at, pending') {
      assert WordAt(p', at) == WordAt(p, at);
      if p.spacing == 0 {
        BoundaryIsWord(p', at);
      } else {
        assert HeaderOk(p, at, pending);
      }
    }
  }

  lemma EnterKeeps(s: State, s': State, t: nat, c: nat)
    requires Inv(s) && Enter(s, s', t, c)
    ensures Inv(s') && PagesKept(s, s')
  {
    QuietHeaders(s, s', t, PcOf(s', t));
    StepKeeps(s, s', t, PcOf(s', t));
  }

  lemma SettleKeeps(s: State, s': State, t: nat, p: nat, hinted: bool)
    requires Inv(s) && Settle(s, s', t, p, hinted)
    ensures Inv(s') && PagesKept(s, s')
  {
    var n := s.classes[PcOf(s, t).c];
    assert PageOk(s.pages[p]);
    if s.pages[p].spacing == 0 { ClaimIsOk(s.pages[p], n); }
    assert PagesKept(s, s');
    QuietHeaders(s, s', t, PcOf(s', t));
    StepKeeps(s, s', t, PcOf(s', t));
  }

  lemma LookKeeps(s: State, s': State, t: nat)
    requires Inv(s) && (ReadFree(s, s', t) || Look(s, s', t) || Reread(s, s', t))
    ensures Inv(s') && PagesKept(s, s')
  {
    var pc := PcOf(s, t);
    assert PcOk(s, pc) && PageOk(s.pages[pc.page]);
    if Reread(s, s', t) {
      SumMultiple(pc.at, s.classes[pc.c], s.classes[pc.c]);
    }
    assert PcOk(s', PcOf(s', t));
    QuietHeaders(s, s', t, PcOf(s', t));
    StepKeeps(s, s', t, PcOf(s', t));
  }

  lemma WordUpdate(p: Page, at: nat, w: Word, b: nat)
    requires at % 8 == 0 && at / 8 < |p.words|
    ensures WordAt(p.(words := p.words[at / 8 := w]), b) == if b == at then w else WordAt(p, b)
  {
  }

  lemma BoundaryIsWord(p: Page, at: nat)
    requires Boundary(p.spacing, at) && SpacingOk(p.spacing)
    ensures at % 8 == 0 && at / 8 < CARD_BYTES / 8
  {
    var x, y := at / p.spacing, p.spacing / 16;
    assert at == x * p.spacing && p.spacing == y * 16;
    assert at == x * y * 16;
    assert at == (2 * x * y) * 8;
    MultipleMod(2 * x * y, 8);
  }

  /** Storing a word inside or at the head of a cell that is not, or no longer, a hole. */
  lemma StoreIsOk(p: Page, at: nat, x: nat, w: Word)
    requires PageOk(p) && Boundary(p.spacing, at) && at <= x < at + p.spacing && x % 8 == 0 && x / 8 < |p.words|
    requires !w.Hole? || x != at
    requires x != at ==> !WordAt(p, at).Hole?
    ensures var q := p.(words := p.words[x / 8 := w]);
            PageOk(q) && forall b: nat :: WordAt(q, b) == if b == x then w else WordAt(p, b)
  {
    var q := p.(words := p.words[x / 8 := w]);
    forall b: nat ensures WordAt(q, b) == if b == x then w else WordAt(p, b) { WordUpdate(p, x, w, b); }
    forall b: nat | Boundary(p.spacing, b) && WordAt(q, b).Hole?
      ensures WordAt(q, b).disp % p.spacing == 0 && BodyZero(q, b)
    {
      CellsApart(p.spacing, at, b, x);
      assert BodyZero(p, b);
    }
    forall y: nat | InTail(p.spacing, y) ensures WordAt(q, y) == Hole(0) {
      InsideIsNotTail(p.spacing, at, x);
    }
  }

  /** An offset in the cell at `at` is in no other cell. */
  lemma CellsApart(spacing: nat, at: nat, b: nat, x: nat)
    requires Boundary(spacing, at) && Boundary(spacing, b) && at <= x < at + spacing
    ensures b <= x < b + spacing ==> b == at
  {
    if b < at && at < b + spacing { NoMultipleBetween(b, at, spacing); }
    if at < b && b < at + spacing { NoMultipleBetween(at, b, spacing); }
  }

  lemma InsideIsNotTail(spacing: nat, at: nat, x: nat)
    requires Boundary(spacing, at) && at <= x < at + spacing
    ensures !InTail(spacing, x)
  {
    if x > at { NoMultipleBetween(at, x, spacing); }
  }

  lemma CasKeeps(s: State, s': State, t: nat)
    requires Inv(s) && CompareAndSwap(s, s', t)
    ensures Inv(s') && PagesKept(s, s')
  {
    var pc := PcOf(s, t);
    assert PcOk(s, pc);
    var page := s.pages[pc.page];
    assert PageOk(page);
    if WordAt(page, pc.at) == Hole(pc.seen) {
      var page' := s'.pages[pc.page];
      BoundaryIsWord(page, pc.at);
      StoreIsOk(page, pc.at, pc.at, Header(0, false));
      assert PagesKept(s, s');
      CasHeaders(s, s', t);
      CasObjects(s, s', t);
    } else {
      QuietHeaders(s, s', t, PcOf(s', t));
    }
    StepKeeps(s, s', t, PcOf(s', t));
  }

  /** The new object is pending until it is stamped. */
  lemma CasHeaders(s: State, s': State, t: nat)
    requires Inv(s) && CompareAndSwap(s, s', t) && PcOk(s, PcOf(s, t)) && PagesKept(s, s')
    requires var pc := PcOf(s, t);
             && WordAt(s.pages[pc.page], pc.at) == Hole(pc.seen)
             && forall b: nat :: WordAt(s'.pages[pc.page], b) ==
                 if b == pc.at then Header(0, false)
                 else WordAt(s.pages[pc.page], b)
    ensures forall p :: 0 <= p < |s.pages| ==> HeadersOk(s'.pages[p], Pending(s', p))
  {
    var pc := PcOf(s, t);
    forall p | 0 <= p < |s.pages| ensures HeadersOk(s'.pages[p], Pending(s', p)) {
      PendingStep(s, s', t, PcOf(s', t), p);
      var page, page' := s.pages[p], s'.pages[p];
      assert HeadersOk(page, Pending(s, p));
      forall at: nat | Boundary(page'.spacing, at) && !WordAt(page', at).Hole?
        ensures HeaderOk(page', at, Pending(s', p))
      {
        if !(p == pc.page && at == pc.at) { assert HeaderOk(page, at, Pending(s, p)); }
      }
    }
  }

  /** The cell that is won was a hole, so it belongs to no earlier object. */
  lemma CasObjects(s: State, s': State, t: nat)
    requires Inv(s) && CompareAndSwap(s, s', t) && PcOk(s, PcOf(s, t))
    requires var pc := PcOf(s, t);
             && WordAt(s.pages[pc.page], pc.at) == Hole(pc.seen)
             && forall b: nat :: WordAt(s'.pages[pc.page], b) ==
                 if b == pc.at then Header(0, false)
                 else WordAt(s.pages[pc.page], b)
    ensures (forall o :: o in s'.live ==> ObjectOk(s'.pages, o)) && Distinct(s'.live)
  {
    var pc := PcOf(s, t);
    forall o | o in s'.live ensures ObjectOk(s'.pages, o) {
      assert o in s.live ==> ObjectOk(s.pages, o);
    }
    forall i | 0 <= i < |s.live| ensures (s.live[i].page, s.live[i].at) != (pc.page, pc.at) {
      assert ObjectOk(s.pages, s.live[i]);
    }
  }

  lemma StoreKeeps(s: State, s': State, t: nat)
    requires Inv(s) && (StoreFree(s, s', t) || StoreFull(s, s', t))
    ensures Inv(s') && PagesKept(s, s')
  {
    var pc := PcOf(s, t);
    assert PcOk(s, pc);
    var page, page' := s.pages[pc.page], s'.pages[pc.page];
    assert PageOk(page);
    if StoreFree(s, s', t) {
      SumMultiple(pc.at, s.classes[pc.c], s.classes[pc.c]);
      SumMultiple(pc.at + s.classes[pc.c], pc.seen, s.classes[pc.c]);
    }
    IndexIsOk(page, page'.freeIndex);
    assert PagesKept(s, s');
    QuietHeaders(s, s', t, PcOf(s', t));
    StepKeeps(s, s', t, PcOf(s', t));
  }

  lemma IndexIsOk(p: Page, freeIndex: nat)
    requires PageOk(p) && p.spacing != 0 && Multiple(freeIndex, p.spacing)
    ensures PageOk(p.(freeIndex := freeIndex)) && HeadsKept(p, p.(freeIndex := freeIndex))
  {
    var q := p.(freeIndex := freeIndex);
    assert forall b: nat :: WordAt(q, b) == WordAt(p, b);
    forall at: nat | Boundary(q.spacing, at) && WordAt(q, at).Hole?
      ensures WordAt(q, at).disp % q.spacing == 0 && BodyZero(q, at)
    {
      assert BodyZero(p, at);
    }
  }

  lemma MaskIsOk(p: Page, gens: set<nat>)
    requires PageOk(p) && p.spacing != 0
    ensures PageOk(p.(gens := gens)) && HeadsKept(p, p.(gens := gens))
  {
    var q := p.(gens := gens);
    assert forall b: nat :: WordAt(q, b) == WordAt(p, b);
    forall at: nat | Boundary(q.spacing, at) && WordAt(q, at).Hole?
      ensures WordAt(q, at).disp % q.spacing == 0 && BodyZero(q, at)
    {
      assert BodyZero(p, at);
    }
  }

  lemma StampKeeps(s: State, s': State, t: nat)
    requires Inv(s) && StoreMask(s, s', t)
    ensures Inv(s') && PagesKept(s, s')
  {
    var pc := PcOf(s, t);
    assert PcOk(s, pc) && PageOk(s.pages[pc.page]);
    MaskIsOk(s.pages[pc.page], s'.pages[pc.page].gens);
    assert PagesKept(s, s');
    forall p | 0 <= p < |s.pages| ensures HeadersOk(s'.pages[p], Pending(s', p)) {
      PendingStep(s, s', t, Idle, p);
      var page, page' := s.pages[p], s'.pages[p];
      assert HeadersOk(page, Pending(s, p));
      forall at: nat | Boundary(page'.spacing, at) && !WordAt(page', at).Hole?
        ensures HeaderOk(page', at, Pending(s', p))
      {
        assert WordAt(page', at) == WordAt(page, at);
        assert HeaderOk(page, at, Pending(s, p));
      }
    }
    forall o | o in s.live ensures ObjectOk(s'.pages, o) { assert ObjectOk(s.pages, o); }
    StepKeeps(s, s', t, Idle);
  }

  lemma MutateKeeps(s: State, s': State, o: Object, at: nat, w: Word)
    requires Inv(s) && Mutate(s, s', o, at, w)
    ensures Inv(s') && PagesKept(s, s')
  {
    var page, page' := s.pages[o.page], s'.pages[o.page];
    assert ObjectOk(s.pages, o) && PageOk(page);
    StoreIsOk(page, o.at, at, w);
    forall b: nat | Boundary(page.spacing, b) ensures WordAt(page', b) == WordAt(page, b) {
      CellsApart(page.spacing, o.at, b, at);
    }
    assert PagesKept(s, s');
    MutateHeaders(s, s', o);
    forall u: nat ensures PcOk(s', PcOf(s', u)) {
      assert PcOk(s, PcOf(s, u));
      ThreadKept(s, s', PcOf(s, u));
    }
  }

  lemma MutateHeaders(s: State, s': State, o: Object)
    requires Inv(s) && PagesKept(s, s') && o.page < |s.pages| && s'.pcs == s.pcs && s'.live == s.live
    requires forall p :: 0 <= p < |s.pages| && p != o.page ==> s'.pages[p] == s.pages[p]
    requires var page, page' := s.pages[o.page], s'.pages[o.page];
             && page'.spacing == page.spacing && page'.gens == page.gens
             && forall b: nat :: Boundary(page.spacing, b) ==> WordAt(page', b) == WordAt(page, b)
    ensures forall p :: 0 <= p < |s.pages| ==> HeadersOk(s'.pages[p], Pending(s', p))
    ensures forall x :: x in s'.live ==> ObjectOk(s'.pages, x)
  {
    forall p | 0 <= p < |s.pages| ensures HeadersOk(s'.pages[p], Pending(s', p)) {
      assert HeadersOk(s.pages[p], Pending(s, p)) && Pending(s', p) == Pending(s, p);
      var page' := s'.pages[p];
      forall at: nat | Boundary(page'.spacing, at) && !WordAt(page', at).Hole?
        ensures HeaderOk(page', at, Pending(s', p))
      {
        assert HeaderOk(s.pages[p], at, Pending(s, p));
      }
    }
    forall x | x in s'.live ensures ObjectOk(s'.pages, x) { assert ObjectOk(s.pages, x); }
  }

  // ---- Collections ----

  lemma {:induction false} RemainingIs(live: seq<Object>, pages: seq<Page>)
    ensures forall o :: o in Remaining(live, pages) <==>
              o in live && o.page < |pages| && !WordAt(pages[o.page], o.at).Hole?
    ensures Distinct(live) ==> Distinct(Remaining(live, pages))
  {
    if live != [] {
      var init, last := live[..|live| - 1], live[|live| - 1];
      RemainingIs(init, pages);
      var rest := Remaining(init, pages);
      assert live == init + [last];
      forall i | 0 <= i < |rest| ensures Distinct(live) ==> (rest[i].page, rest[i].at) != (last.page, last.at) {
        assert rest[i] in rest && rest[i] in init;
        var j :| 0 <= j < |init| && init[j] == rest[i];
        assert live[j] == init[j] && live[|init|] == last;
      }
    }
  }

  /** A collection, page by page as the sweep does it, keeps the invariant. */
  lemma CollectKeeps(s: State, s': State, g: Gens)
    requires Inv(s) && Collect(s, s', g)
    ensures Inv(s')
  {
    forall p ensures Pending(s, p) == {} && Pending(s', p) == {} {
      assert forall t :: t in s.pcs ==> PcOf(s, t).Idle?;
    }
    forall p | 0 <= p < |s.pages| ensures PageOk(s'.pages[p]) && HeadersOk(s'.pages[p], Pending(s', p)) {
      assert HeadersOk(s.pages[p], Pending(s, p)) && PageOk(s.pages[p]);
      CollectedPageIsOk(g, s.pages[p], s'.pages[p]);
    }
    RemainingIs(s.live, s'.pages);
    forall o | o in s'.live ensures ObjectOk(s'.pages, o) {
      assert ObjectOk(s.pages, o) && HeadersOk(s.pages[o.page], Pending(s, o.page)) && PageOk(s.pages[o.page]);
      CollectedObjectStays(g, s.pages[o.page], s'.pages[o.page], o.at);
    }
    forall u: nat ensures PcOk(s', PcOf(s', u)) { assert PcOf(s', u) == PcOf(s, u); }
  }

  lemma NextKeeps(s: State, s': State)
    requires Inv(s) && Next(s, s')
    ensures Inv(s')
  {
    hide Inv, Enter, Settle, ReadFree, Look, CompareAndSwap, Reread, StoreFree, StoreMask, StoreFull, Mutate, Collect;
    if t :| ThreadStep(s, s', t) {
      if c :| Enter(s, s', t, c) {
        EnterKeeps(s, s', t, c);
      } else if p, hinted :| Settle(s, s', t, p, hinted) {
        SettleKeeps(s, s', t, p, hinted);
      } else if CompareAndSwap(s, s', t) {
        CasKeeps(s, s', t);
      } else if StoreMask(s, s', t) {
        StampKeeps(s, s', t);
      } else if StoreFree(s, s', t) || StoreFull(s, s', t) {
        StoreKeeps(s, s', t);
      } else {
        LookKeeps(s, s', t);
      }
    } else if o, at, w :| Mutate(s, s', o, at, w) {
      MutateKeeps(s, s', o, at, w);
    } else {
      var g :| Collect(s, s', g);
      CollectKeeps(s, s', g);
    }
  }

  ghost predicate IsRun(run: seq<State>) {
    && |run| > 0 && Init(run[0])
    && forall i :: 0 < i < |run| ==> Next(run[i - 1], run[i])
  }

  lemma {:induction false} RunKeeps(run: seq<State>, i: nat)
    requires IsRun(run) && i < |run|
    ensures Inv(run[i])
  {
    if i == 0 {
      forall t: nat ensures PcOk(run[0], PcOf(run[0], t)) { }
      assert forall p :: Pending(run[0], p) == {};
    } else {
      RunKeeps(run, i - 1);
      NextKeeps(run[i - 1], run[i]);
    }
  }

  // ---- The generation masks ----

  ghost predicate MasksExact(s: State) {
    forall p :: 0 <= p < |s.pages| ==> MaskExact(s.pages[p], {})
  }

  lemma MaskStays(p: Page, p': Page)
    requires PageOk(p) && MaskExact(p, {}) && HeadsKept(p, p') && p'.gens == p.gens
    ensures MaskExact(p', {})
  {
    forall x | x in p'.gens ensures SomeObject(p', x) {
      assert SomeObject(p, x);
      var at: nat :| Boundary(p.spacing, at) && WordAt(p, at).Header? && WordAt(p, at).gen == x;
      assert WordAt(p', at) == WordAt(p, at);
    }
  }

  lemma MasksStay(s: State, s': State)
    requires PagesOk(s.pages) && MasksExact(s) && PagesKept(s, s')
    requires forall p :: 0 <= p < |s.pages| ==> s'.pages[p].gens == s.pages[p].gens
    ensures MasksExact(s')
  {
    forall p | 0 <= p < |s.pages| ensures MaskExact(s'.pages[p], {}) {
      assert PageOk(s.pages[p]) && MaskExact(s.pages[p], {}) && HeadsKept(s.pages[p], s'.pages[p]);
      hide PageOk, MaskExact, HeadsKept;
      MaskStays(s.pages[p], s'.pages[p]);
    }
  }

  /** Generation 0 is noted for an object of generation 0 that is there. */
  lemma StampMasks(s: State, s': State, t: nat)
    requires Inv(s) && MasksExact(s) && StoreMask(s, s', t) && PagesKept(s, s')
    ensures MasksExact(s')
  {
    var pc := PcOf(s, t);
    assert PcOk(s, pc);
    forall p | 0 <= p < |s.pages| ensures MaskExact(s'.pages[p], {}) {
      var page, page' := s.pages[p], s'.pages[p];
      assert PageOk(page) && MaskExact(page, {}) && HeadsKept(page, page');
      if p == pc.page {
        MaskStays(page, page'.(gens := page.gens));
        forall x | x in page'.gens ensures SomeObject(page', x) {
          if x == 0 {
            assert WordAt(page', pc.at) == Header(0, false);
          } else {
            assert SomeObject(page'.(gens := page.gens), x);
          }
        }
      } else {
        MaskStays(page, page');
      }
    }
  }

  lemma SameGens(s: State, s': State, t: nat)
    requires ThreadStep(s, s', t) && !StoreMask(s, s', t)
    ensures |s'.pages| == |s.pages| && forall p :: 0 <= p < |s.pages| ==> s'.pages[p].gens == s.pages[p].gens
  {
  }

  lemma NextKeepsMasks(s: State, s': State)
    requires Inv(s) && MasksExact(s) && Next(s, s')
    ensures MasksExact(s')
  {
    hide Inv, Enter, Settle, ReadFree, Look, CompareAndSwap, Reread, StoreFree, StoreMask, StoreFull, Mutate, Collect;
    hide MasksExact, PagesKept;
    if t :| ThreadStep(s, s', t) {
      assert PagesKept(s, s') && PagesOk(s.pages) by { ThreadKeepsPages(s, s', t); }
      if StoreMask(s, s', t) {
        StampMasks(s, s', t);
      } else {
        SameGens(s, s', t);
        MasksStay(s, s');
      }
    } else if o, at, w :| Mutate(s, s', o, at, w) {
      MutateKeeps(s, s', o, at, w);
      MutateGens(s, s', o, at, w);
      MasksStay(s, s');
    } else {
      var g :| Collect(s, s', g);
      CollectMasks(s, s', g);
    }
  }

  lemma MutateGens(s: State, s': State, o: Object, at: nat, w: Word)
    requires Inv(s) && Mutate(s, s', o, at, w)
    ensures |s'.pages| == |s.pages| && PagesOk(s.pages)
    ensures forall p :: 0 <= p < |s.pages| ==> s'.pages[p].gens == s.pages[p].gens
  {
  }

  lemma ThreadKeepsPages(s: State, s': State, t: nat)
    requires Inv(s) && ThreadStep(s, s', t)
    ensures PagesKept(s, s') && PagesOk(s.pages)
  {
    assert PagesOk(s.pages);
    hide Inv, PagesOk, PagesKept;
    hide Enter, Settle, ReadFree, Look, CompareAndSwap, Reread, StoreFree, StoreMask, StoreFull;
    if c :| Enter(s, s', t, c) {
      EnterKeeps(s, s', t, c);
    } else if p, hinted :| Settle(s, s', t, p, hinted) {
      SettleKeeps(s, s', t, p, hinted);
    } else if CompareAndSwap(s, s', t) {
      CasKeeps(s, s', t);
    } else if StoreMask(s, s', t) {
      StampKeeps(s, s', t);
    } else if StoreFree(s, s', t) || StoreFull(s, s', t) {
      StoreKeeps(s, s', t);
    } else {
      LookKeeps(s, s', t);
    }
  }

  lemma CollectMasks(s: State, s': State, g: Gens)
    requires Inv(s) && MasksExact(s) && Collect(s, s', g)
    ensures MasksExact(s')
  {
    forall p | 0 <= p < |s.pages| ensures MaskExact(s'.pages[p], {}) {
      assert Pending(s, p) == {} by { assert forall t :: t in s.pcs ==> PcOf(s, t).Idle?; }
      assert HeadersOk(s.pages[p], Pending(s, p)) && PageOk(s.pages[p]) && MaskExact(s.pages[p], {});
      CollectedIsExact(g, s.pages[p], s'.pages[p]);
    }
  }

  /** In every run that begins with exact masks, the mask of every page has, but for objects that are
      being stamped, exactly the generations of its objects. */
  lemma {:induction false} MasksAreExact(run: seq<State>, i: nat, p: nat, x: nat)
    requires IsRun(run) && MasksExact(run[0]) && i < |run| && p < |run[i].pages|
    ensures MasksExact(run[i])
    ensures var page := run[i].pages[p];
            && (x in page.gens ==> SomeObject(page, x))
            && (forall at: nat ::
                  Boundary(page.spacing, at) && WordAt(page, at).Header? && at !in Pending(run[i], p) ==>
                    WordAt(page, at).gen in page.gens)
  {
    AllMasks(run, i);
    RunKeeps(run, i);
    var page := run[i].pages[p];
    assert HeadersOk(page, Pending(run[i], p)) && MaskExact(page, {});
    forall at: nat | Boundary(page.spacing, at) && WordAt(page, at).Header? && at !in Pending(run[i], p)
      ensures WordAt(page, at).gen in page.gens
    {
      assert HeaderOk(page, at, Pending(run[i], p));
    }
  }

  lemma {:induction false} AllMasks(run: seq<State>, i: nat)
    requires IsRun(run) && MasksExact(run[0]) && i < |run|
    ensures MasksExact(run[i])
  {
    hide MasksExact, Inv, Next, Init;
    if i > 0 {
      AllMasks(run, i - 1);
      RunKeeps(run, i - 1);
      NextKeepsMasks(run[i - 1], run[i]);
    }
  }

  // ---- A thread that is not disturbed ----

  /** The page after the hole at `at` was taken by one thread alone. */
  ghost function Taken(p: Page, n: nat, at: nat): Page
    requires at / 8 < |p.words| && WordAt(p, at).Hole?
  {
    p.(words := p.words[at / 8 := Header(0, false)], freeIndex := at + n + WordAt(p, at).disp, gens := p.gens + {0})
  }

  /** The offset of the cell `k` places behind the one at `at`. */
  function CellAt(at: nat, n: nat, k: nat): nat {
    at + k * n
  }

  lemma CellSteps(at: nat, n: nat, k: nat)
    ensures CellAt(at, n, 0) == at && CellAt(at + n, n, k) == CellAt(at, n, k + 1) >= at + n
  {
    Distribute(k, 1, n);
    assert 0 * n == 0;
  }

  /** A thread is about to look at the first of `k` objects that lie side by side, not before the free
      index. */
  ghost predicate Ahead(s: State, t: nat, k: nat) {
    var pc := PcOf(s, t);
    && pc.Probe? && pc.page < |s.pages| && pc.c < |s.classes| && s.classes[pc.c] > 0
    && s.pages[pc.page].freeIndex <= pc.at && CellAt(pc.at, s.classes[pc.c], k) <= CARD_BYTES
    && forall j: nat :: j < k ==> !WordAt(s.pages[pc.page], CellAt(pc.at, s.classes[pc.c], j)).Hole?
  }

  /** Behind them is a hole. */
  ghost predicate HoleBehind(s: State, t: nat, k: nat)
    requires Ahead(s, t, k)
  {
    var pc := PcOf(s, t);
    && CellAt(pc.at, s.classes[pc.c], k + 1) <= CARD_BYTES
    && WordAt(s.pages[pc.page], CellAt(pc.at, s.classes[pc.c], k)).Hole?
  }

  /** Behind them the page ends. */
  ghost predicate EndBehind(s: State, t: nat, k: nat)
    requires Ahead(s, t, k)
  {
    CellAt(PcOf(s, t).at, s.classes[PcOf(s, t).c], k + 1) > CARD_BYTES
  }

  /** The thread has taken the hole: the object is handed out, the free index is what the hole said, and
      generation 0 is noted. */
  ghost predicate TookHole(s: State, s': State, t: nat, k: nat)
    requires Ahead(s, t, k) && HoleBehind(s, t, k)
  {
    var pc := PcOf(s, t);
    var n := s.classes[pc.c];
    var hole := CellAt(pc.at, n, k);
    && hole / 8 < |s.pages[pc.page].words|
    && s' == s.(live := s.live + [Object(pc.page, hole, n)],
                pages := s.pages[pc.page := Taken(s.pages[pc.page], n, hole)], pcs := s'.pcs)
    && PcOf(s', t).Idle? && forall u :: u != t ==> PcOf(s', u) == PcOf(s, u)
  }

  /** The thread has marked the page full and searches another. */
  ghost predicate GaveUp(s: State, s': State, t: nat) {
    var pc := PcOf(s, t);
    && pc.Probe? && pc.page < |s.pages|
    && s' == s.(pages := s.pages[pc.page := s.pages[pc.page].(freeIndex := CARD_BYTES)], pcs := s'.pcs)
    && PcOf(s', t) == Search(pc.c) && forall u :: u != t ==> PcOf(s', u) == PcOf(s, u)
  }

  ghost predicate AloneRun(run: seq<State>, t: nat) {
    forall i :: 0 < i < |run| ==> ThreadStep(run[i - 1], run[i], t)
  }

  /** Undisturbed, a thread passes over the objects from the cell it looks at and takes the hole behind. */
  lemma {:induction false} AloneTakesHole(run: seq<State>, t: nat, k: nat)
    requires |run| == 2 * k + 5 && AloneRun(run, t) && Ahead(run[0], t, k) && HoleBehind(run[0], t, k)
    ensures TookHole(run[0], run[|run| - 1], t, k)
    decreases k
  {
    if k == 0 {
      TakesAtOnce(run[0], run[1], run[2], run[3], run[4], t);
    } else {
      PassesOne(run[0], run[1], run[2], t, k);
      hide *;
      RestIsAlone(run, t);
      AloneTakesHole(run[2..], t, k - 1);
      AfterPassing(run[0], run[2], run[|run| - 1], t, k);
    }
  }

  /** Where there is no hole up to the end of the page, it marks the page full and searches another. */
  lemma {:induction false} AloneGivesUp(run: seq<State>, t: nat, k: nat)
    requires |run| == 2 * k + 3 && AloneRun(run, t) && Ahead(run[0], t, k) && EndBehind(run[0], t, k)
    ensures GaveUp(run[0], run[|run| - 1], t)
    decreases k
  {
    if k == 0 {
      var pc := PcOf(run[0], t);
      CellSteps(pc.at, run[0].classes[pc.c], 0);
      hide CellAt;
      assert ThreadStep(run[0], run[1], t) && ThreadStep(run[1], run[2], t);
      assert PcOf(run[1], t) == MarkFull(pc.c, pc.page) && run[1].pages == run[0].pages;
    } else {
      PassesOne(run[0], run[1], run[2], t, k);
      hide *;
      RestIsAlone(run, t);
      AloneGivesUp(run[2..], t, k - 1);
      AfterPassing(run[0], run[2], run[|run| - 1], t, k);
    }
  }

  lemma RestIsAlone(run: seq<State>, t: nat)
    requires |run| > 2 && AloneRun(run, t)
    ensures AloneRun(run[2..], t) && run[2..][0] == run[2] && run[2..][|run| - 3] == run[|run| - 1]
  {
    hide ThreadStep;
    var rest := run[2..];
    forall i | 0 < i < |rest| ensures ThreadStep(rest[i - 1], rest[i], t) {
      assert rest[i - 1] == run[i + 1] && rest[i] == run[i + 2];
    }
  }

  /** The state differs only in that thread `t` looks at the next cell. */
  ghost predicate Passed(s: State, s': State, t: nat) {
    var pc := PcOf(s, t);
    && pc.Probe? && pc.c < |s.classes| && s' == s.(pcs := s'.pcs)
    && PcOf(s', t) == Probe(pc.c, pc.page, pc.at + s.classes[pc.c])
    && forall u :: u != t ==> PcOf(s', u) == PcOf(s, u)
  }

  lemma PassesOne(s0: State, s1: State, s2: State, t: nat, k: nat)
    requires ThreadStep(s0, s1, t) && ThreadStep(s1, s2, t) && k > 0 && Ahead(s0, t, k)
    ensures Passed(s0, s2, t) && Ahead(s2, t, k - 1)
    ensures HoleBehind(s0, t, k) ==> HoleBehind(s2, t, k - 1)
    ensures EndBehind(s0, t, k) ==> EndBehind(s2, t, k - 1)
  {
    FirstAhead(s0, t, k);
    hide Ahead, HoleBehind, EndBehind, ThreadStep, Passed;
    PassesTo(s0, s1, s2, t);
    AheadNext(s0, s2, t, k);
  }

  lemma FirstAhead(s: State, t: nat, k: nat)
    requires Ahead(s, t, k) && k > 0
    ensures var pc := PcOf(s, t);
            && pc.Probe? && pc.page < |s.pages| && pc.c < |s.classes|
            && s.pages[pc.page].freeIndex <= pc.at && pc.at + s.classes[pc.c] <= CARD_BYTES
            && !WordAt(s.pages[pc.page], pc.at).Hole?
  {
    hide CellAt;
    CellSteps(PcOf(s, t).at, s.classes[PcOf(s, t).c], k - 1);
  }

  lemma AheadNext(s: State, s2: State, t: nat, k: nat)
    requires k > 0 && Ahead(s, t, k) && Passed(s, s2, t)
    ensures Ahead(s2, t, k - 1)
    ensures HoleBehind(s, t, k) ==> HoleBehind(s2, t, k - 1)
    ensures EndBehind(s, t, k) ==> EndBehind(s2, t, k - 1)
  {
    hide CellAt;
    var at, n, next := PcOf(s, t).at, s.classes[PcOf(s, t).c], PcOf(s2, t).at;
    CellSteps(at, n, k - 1);
    CellSteps(at, n, k);
    forall j: nat | j < k - 1 ensures !WordAt(s.pages[PcOf(s, t).page], CellAt(next, n, j)).Hole? {
      CellSteps(at, n, j);
    }
  }

  lemma PassesTo(s0: State, s1: State, s2: State, t: nat)
    requires ThreadStep(s0, s1, t) && ThreadStep(s1, s2, t)
    requires var pc := PcOf(s0, t);
             && pc.Probe? && pc.page < |s0.pages| && pc.c < |s0.classes|
             && s0.pages[pc.page].freeIndex <= pc.at && pc.at + s0.classes[pc.c] <= CARD_BYTES
             && !WordAt(s0.pages[pc.page], pc.at).Hole?
    ensures Passed(s0, s2, t)
  {
    var pc := PcOf(s0, t);
    assert PcOf(s1, t) == Skip(pc.c, pc.page, pc.at) && s1.pages == s0.pages;
  }

  /** What holds from the next cell on holds from this one. */
  lemma AfterPassing(s: State, s2: State, s': State, t: nat, k: nat)
    requires k > 0 && Ahead(s, t, k) && Passed(s, s2, t) && Ahead(s2, t, k - 1)
    ensures HoleBehind(s, t, k) && HoleBehind(s2, t, k - 1) && TookHole(s2, s', t, k - 1) ==> TookHole(s, s', t, k)
    ensures GaveUp(s2, s', t) ==> GaveUp(s, s', t)
  {
    hide Taken, CellAt;
    CellSteps(PcOf(s, t).at, s.classes[PcOf(s, t).c], k - 1);
  }

  /** A searching thread may settle on any page of its spacing and claim any page without one. */
  lemma CanSettle(s: State, t: nat, p: nat)
    requires Inv(s) && PcOf(s, t).Search? && p < |s.pages|
    requires s.pages[p].spacing == 0 || s.pages[p].spacing == s.classes[PcOf(s, t).c]
    ensures exists s' :: ThreadStep(s, s', t) && PcOf(s', t) == Start(PcOf(s, t).c, p)
                         && s'.pages[p].spacing == s.classes[PcOf(s, t).c]
  {
    var c := PcOf(s, t).c;
    assert PcOk(s, PcOf(s, t));
    var s' := WithPc(WithPage(s, p, s.pages[p].(spacing := s.classes[c])), t, Start(c, p)).(hints := s.hints[c := p]);
    assert Settle(s, s', t, p, true) && ThreadStep(s, s', t);
  }

  lemma TakesAtOnce(s0: State, s1: State, s2: State, s3: State, s4: State, t: nat)
    requires ThreadStep(s0, s1, t) && ThreadStep(s1, s2, t) && ThreadStep(s2, s3, t) && ThreadStep(s3, s4, t)
    requires Ahead(s0, t, 0) && HoleBehind(s0, t, 0)
    ensures TookHole(s0, s4, t, 0)
  {
    var pc := PcOf(s0, t);
    CellSteps(pc.at, s0.classes[pc.c], 0);
    var d := WordAt(s0.pages[pc.page], pc.at).disp;
    hide ThreadStep, CellAt;
    SeesHole(s0, s1, t, d);
    WinsHole(s1, s2, t);
    Publishes(s2, s3, t);
    Stamps(s3, s4, t);
  }

  lemma SeesHole(s: State, s': State, t: nat, d: nat)
    requires ThreadStep(s, s', t) && PcOf(s, t).Probe? && PcOf(s, t).page < |s.pages| && PcOf(s, t).c < |s.classes|
    requires var pc := PcOf(s, t);
             pc.at + s.classes[pc.c] <= CARD_BYTES && WordAt(s.pages[pc.page], pc.at) == Hole(d)
    ensures s' == WithPc(s, t, Try(PcOf(s, t).c, PcOf(s, t).page, PcOf(s, t).at, d))
  {
  }

  lemma WinsHole(s: State, s': State, t: nat)
    requires ThreadStep(s, s', t) && PcOf(s, t).Try? && PcOf(s, t).page < |s.pages| && PcOf(s, t).c < |s.classes|
    requires var pc := PcOf(s, t); WordAt(s.pages[pc.page], pc.at) == Hole(pc.seen)
    ensures var pc := PcOf(s, t);
            var page := s.pages[pc.page];
            && pc.at / 8 < |page.words|
            && s' == WithPc(WithPage(s, pc.page, page.(words := page.words[pc.at / 8 := Header(0, false)])), t,
                            Publish(pc.c, pc.page, pc.at, pc.seen))
                       .(live := s.live + [Object(pc.page, pc.at, s.classes[pc.c])])
  {
  }

  lemma Publishes(s: State, s': State, t: nat)
    requires ThreadStep(s, s', t) && PcOf(s, t).Publish? && PcOf(s, t).page < |s.pages| && PcOf(s, t).c < |s.classes|
    ensures var pc := PcOf(s, t);
            s' == WithPc(WithPage(s, pc.page, s.pages[pc.page].(freeIndex := pc.at + s.classes[pc.c] + pc.seen)), t,
                         Stamp(pc.c, pc.page, pc.at))
  {
  }

  lemma Stamps(s: State, s': State, t: nat)
    requires ThreadStep(s, s', t) && PcOf(s, t).Stamp? && PcOf(s, t).page < |s.pages|
    ensures var pc := PcOf(s, t);
            s' == WithPc(WithPage(s, pc.page, s.pages[pc.page].(gens := s.pages[pc.page].gens + {0})), t, Idle)
  {
  }

  /** A thread can always go on, unless it searches and there is no page for it. */
  lemma CanGoOn(s: State, t: nat)
    requires Inv(s) && |s.classes| > 0 && !PcOf(s, t).Search?
    ensures exists s' :: ThreadStep(s, s', t)
  {
    var pc := PcOf(s, t);
    assert PcOk(s, pc);
    match pc
    case Idle => assert Enter(s, WithPc(s, t, if 0 in s.hints then Start(0, s.hints[0]) else Search(0)), t, 0);
      assert ThreadStep(s, WithPc(s, t, if 0 in s.hints then Start(0, s.hints[0]) else Search(0)), t);
    case Start(c, p) => assert ThreadStep(s, WithPc(s, t, Probe(c, p, s.pages[p].freeIndex)), t);
    case Probe(c, p, at) =>
      var next := if at + s.classes[c] > CARD_BYTES then MarkFull(c, p)
                  else match WordAt(s.pages[p], at)
                       case Hole(d) => Try(c, p, at, d)
                       case _ => Skip(c, p, at);
      assert Look(s, WithPc(s, t, next), t) && ThreadStep(s, WithPc(s, t, next), t);
    case Try(c, p, at, seen) =>
      var page := s.pages[p];
      var s' := if WordAt(page, at) == Hole(seen) then
                  WithPc(WithPage(s, p, page.(words := page.words[at / 8 := Header(0, false)])), t,
                         Publish(c, p, at, seen)).(live := s.live + [Object(p, at, s.classes[c])])
                else WithPc(s, t, Skip(c, p, at));
      assert CompareAndSwap(s, s', t) && ThreadStep(s, s', t);
    case Skip(c, p, at) =>
      var free, next := s.pages[p].freeIndex, at + s.classes[c];
      assert ThreadStep(s, WithPc(s, t, Probe(c, p, if free > next then free else next)), t);
    case Publish(c, p, at, seen) =>
      assert ThreadStep(s, WithPc(WithPage(s, p, s.pages[p].(freeIndex := at + s.classes[c] + seen)), t,
                                  Stamp(c, p, at)), t);
    case Stamp(c, p, at) =>
      assert ThreadStep(s, WithPc(WithPage(s, p, s.pages[p].(gens := s.pages[p].gens + {0})), t, Idle), t);
    case MarkFull(c, p) =>
      assert ThreadStep(s, WithPc(WithPage(s, p, s.pages[p].(freeIndex := CARD_BYTES)), t, Search(c)), t);
  }

  // ---- Objects do not overlap ----

  /** In every run, whatever the interleaving and however stale the free indices, no two objects
      that are live at the same time overlap, and every object starts at a cell boundary of a
      page of its own spacing and lies within the page. */
  lemma NoOverlap(run: seq<State>, k: nat, i: nat, j: nat)
    requires IsRun(run) && k < |run| && i < |run[k].live| && j < |run[k].live| && i != j
    ensures var o, q := run[k].live[i], run[k].live[j];
            o.page == q.page ==> o.at + o.spacing <= q.at || q.at + q.spacing <= o.at
    ensures var o := run[k].live[i];
            && o.page < |run[k].pages| && run[k].pages[o.page].spacing == o.spacing
            && o.spacing > 0 && o.at % o.spacing == 0 && o.at + o.spacing <= CARD_BYTES
  {
    RunKeeps(run, k);
    var o, q := run[k].live[i], run[k].live[j];
    assert ObjectOk(run[k].pages, o) && ObjectOk(run[k].pages, q);
    if o.page == q.page {
      if o.at < q.at < o.at + o.spacing { NoMultipleBetween(o.at, q.at, o.spacing); }
      if q.at < o.at < q.at + q.spacing { NoMultipleBetween(q.at, o.at, q.spacing); }
    }
  }
}
