/** A page of fixed-size immobile objects, `src/runtime/immobile-space.c`, as both its allocator
    and its sweep see it: words, of which every one at a multiple of the spacing heads a cell. */
module FixedObjPage {
  import opened Common
  import opened Arithmetic

  const SCRATCH_GENERATION: nat := 7

  /** A fixnum marks free space when it heads a cell, and is then the displacement in bytes from the
      end of the cell to the next hole; `Hole(0)` is a zero word. An object starts with a header that
      holds its generation and the visited flag. Inside an object any word may occur. */
  datatype Word = Hole(disp: nat) | Header(gen: nat, visited: bool) | Other(bits: int)

  /** `spacing` and `freeIndex` are in bytes; `spacing` is 0 for a page that no size class has
      claimed. `gens` are the generations with objects on the page. */
  datatype Page = Page(spacing: nat, freeIndex: nat, gens: set<nat>, words: seq<Word>)

  /** The word at a byte offset. */
  function WordAt(p: Page, at: nat): Word {
    if at / 8 < |p.words| && at % 8 == 0 then p.words[at / 8] else Other(0)
  }

  predicate SpacingOk(spacing: nat) {
    0 < spacing <= CARD_BYTES && spacing % 16 == 0
  }

  /** A cell boundary of the page. */
  predicate Boundary(spacing: nat, at: nat) {
    spacing > 0 && at % spacing == 0 && at + spacing <= CARD_BYTES
  }

  predicate Multiple(at: nat, spacing: nat)
    requires spacing > 0
  {
    at % spacing == 0 || at >= CARD_BYTES
  }

  /** The word after the header, to the end of the cell, are zero. */
  ghost predicate BodyZero(p: Page, at: nat) {
    forall x: nat :: at < x < at + p.spacing && x % 8 == 0 ==> WordAt(p, x) == Hole(0)
  }

  /** Every hole stores a multiple of the spacing and is zero otherwise. */
  ghost predicate HolesOk(p: Page) {
    forall at: nat :: Boundary(p.spacing, at) && WordAt(p, at).Hole? ==>
      WordAt(p, at).disp % p.spacing == 0 && BodyZero(p, at)
  }

  /** The offset lies behind the last cell of the page. */
  predicate InTail(spacing: nat, x: nat) {
    spacing > 0 && x < CARD_BYTES && x % 8 == 0 && x - x % spacing + spacing > CARD_BYTES
  }

  ghost predicate TailZero(p: Page) {
    forall x: nat :: InTail(p.spacing, x) ==> WordAt(p, x) == Hole(0)
  }

  ghost predicate Blank(p: Page) {
    forall i :: 0 <= i < |p.words| ==> p.words[i] == Hole(0)
  }

  /** An unclaimed page is all zero, so fit for any spacing. */
  ghost predicate PageOk(p: Page) {
    && |p.words| == CARD_BYTES / 8
    && (p.spacing == 0 ==> p.freeIndex == 0 && p.gens == {} && Blank(p))
    && (p.spacing != 0 ==> SpacingOk(p.spacing) && Multiple(p.freeIndex, p.spacing) && HolesOk(p) && TailZero(p))
  }

  ghost predicate PagesOk(pages: seq<Page>) {
    forall p :: 0 <= p < |pages| ==> PageOk(pages[p])
  }

  /** Claiming a blank page for a spacing. */
  lemma ClaimIsOk(p: Page, spacing: nat)
    requires PageOk(p) && p.spacing == 0 && SpacingOk(spacing)
    ensures PageOk(p.(spacing := spacing))
  {
    var q := p.(spacing := spacing);
    forall x: nat | x < CARD_BYTES && x % 8 == 0 ensures WordAt(q, x) == Hole(0) { }
    forall at: nat | Boundary(spacing, at) ensures BodyZero(q, at) { }
  }

  /** Every word of a page heads a cell, is inside one, or behind the last. */
  lemma WordCases(p: Page, x: nat)
    requires SpacingOk(p.spacing) && x < CARD_BYTES && x % 8 == 0
    ensures var at := CellOf(p.spacing, x);
            at <= x < at + p.spacing && (Boundary(p.spacing, at) || InTail(p.spacing, x))
  {
  }

  /** The offset at which the cell with offset `x` starts. */
  function CellOf(spacing: nat, x: nat): (at: nat)
    requires spacing > 0
    ensures at <= x < at + spacing && at % spacing == 0 && at == x - x % spacing
  {
    var q := x / spacing;
    assert x == q * spacing + x % spacing;
    MultipleMod(q, spacing);
    x - x % spacing
  }

  /** A page whose cells are all zero holes is blank. */
  lemma AllHolesIsBlank(p: Page)
    requires PageOk(p) && p.spacing != 0
    requires forall at: nat :: Boundary(p.spacing, at) ==> WordAt(p, at) == Hole(0)
    ensures Blank(p)
  {
    forall i | 0 <= i < |p.words| ensures p.words[i] == Hole(0) {
      var x := 8 * i;
      WordCases(p, x);
      assert p.words[i] == WordAt(p, x);
      var at := CellOf(p.spacing, x);
      if Boundary(p.spacing, at) && x != at {
        assert BodyZero(p, at);
      }
    }
  }

  // ---- What a collection does to a page ----

  /** The generations of a collection: `from` is collected, survivors were moved to `to` and flagged,
      and end up in `from + 1` if `raise`, else back in `from`. */
  datatype Gens = Gens(from: nat, to: nat, raise: bool)
  {
    predicate Ok() {
      from + 1 < SCRATCH_GENERATION && to == if raise then from + 1 else SCRATCH_GENERATION
    }

    function Target(): nat { if raise then from + 1 else from }
  }

  predicate Doomed(g: Gens, w: Word) {
    w.Header? && w.gen == g.from && !w.visited
  }

  predicate Kept(g: Gens, w: Word) {
    w.Header? && w.gen == g.to && w.visited
  }

  /** Is a cell with this head free after the sweep? */
  predicate Free(g: Gens, w: Word) {
    w.Hole? || Doomed(g, w)
  }

  /** The head of a surviving object after the sweep. */
  function After(g: Gens, w: Word): Word {
    if Kept(g, w) then Header(g.Target(), false) else w
  }

  /** COMPUTE_NEW_MASK */
  function NewMask(g: Gens, mask: set<nat>, anyKept: bool): set<nat> {
    var rest := mask - {g.from};
    if g.raise then rest + (if anyKept then {g.from + 1} else {})
    else (rest - {g.to}) + (if anyKept then {g.from} else {})
  }

  /** Outside collections: no object is flagged or in the scratch generation, and the mask covers the
      generations of all objects, except those at the offsets `pending`, which are being stamped. */
  ghost predicate HeadersOk(p: Page, pending: set<nat>) {
    forall at: nat :: Boundary(p.spacing, at) && !WordAt(p, at).Hole? ==> HeaderOk(p, at, pending)
  }

  ghost predicate HeaderOk(p: Page, at: nat, pending: set<nat>) {
    var w := WordAt(p, at);
    w.Header? && !w.visited && w.gen != SCRATCH_GENERATION && (w.gen in p.gens || at in pending)
  }

  /** Enlivening: some objects of the collected generation are moved to the other and flagged, which
      is noted in the mask; nothing else changes. */
  ghost predicate Enlivened(g: Gens, p: Page, q: Page) {
    && q.spacing == p.spacing && q.freeIndex == p.freeIndex && |q.words| == |p.words|
    && (forall x: nat :: WordAt(q, x) == WordAt(p, x) || HeadEnlivened(g, p, q, x))
    && q.gens == if exists x: nat :: HeadEnlivened(g, p, q, x) then p.gens + {g.to} else p.gens
  }

  ghost predicate HeadEnlivened(g: Gens, p: Page, q: Page, at: nat) {
    Boundary(p.spacing, at) && WordAt(p, at) == Header(g.from, false) && WordAt(q, at) == Header(g.to, true)
  }

  /** What the sweep makes of the cell at `at`. */
  ghost predicate CellSwept(g: Gens, p: Page, q: Page, spacing: nat, at: nat)
    requires spacing > 0
  {
    if WordAt(p, at).Hole? || WordAt(p, at) == Header(g.from, false) then
      && WordAt(q, at).Hole? && WordAt(q, at).disp % spacing == 0
      && forall x: nat :: at < x < at + spacing && x % 8 == 0 ==> WordAt(q, x) == Hole(0)
    else
      && WordAt(q, at) == (if WordAt(p, at) == Header(g.to, true)
                           then Header(if g.raise then g.from + 1 else g.from, false) else WordAt(p, at))
      && forall x: nat :: at < x < at + spacing ==> WordAt(q, x) == WordAt(p, x)
  }

  ghost predicate AnyKept(g: Gens, p: Page) {
    exists at: nat :: Boundary(p.spacing, at) && Kept(g, WordAt(p, at))
  }

  /** `q` is page `p` after sweep_fixedobj_pages: a page that has nothing in the two generations is
      skipped; otherwise dead objects become zero holes, survivors change generation, holes and free
      index are linked, the mask is recomputed, and a page with an empty mask is released. */
  ghost predicate PageSwept(g: Gens, p: Page, q: Page) {
    if p.gens !! {g.from, g.to} then q == p
    else
      && p.spacing > 0 && |q.words| == |p.words|
      && (forall at: nat :: Boundary(p.spacing, at) ==> CellSwept(g, p, q, p.spacing, at))
      && (forall x: nat :: InTail(p.spacing, x) ==> WordAt(q, x) == WordAt(p, x))
      && (q.freeIndex == p.freeIndex || Multiple(q.freeIndex, p.spacing))
      && ((forall at: nat :: Boundary(p.spacing, at) ==> WordAt(q, at).Hole?) ==>
            q.freeIndex == 0 && forall at: nat :: Boundary(p.spacing, at) ==> WordAt(q, at) == Hole(0))
      && q.gens == NewMask(g, p.gens, AnyKept(g, p))
      && q.spacing == if q.gens == {} then 0 else p.spacing
  }

  // ---- A collection keeps pages in order ----

  /** What the sweep finds: flagged objects are in the generation that survivors were moved to, and
      without raising that generation has only flagged ones. */
  ghost predicate SweepReady(g: Gens, p: Page) {
    forall at: nat :: Boundary(p.spacing, at) && !WordAt(p, at).Hole? ==> HeadReady(g, p.gens, WordAt(p, at))
  }

  ghost predicate HeadReady(g: Gens, gens: set<nat>, w: Word) {
    && w.Header? && w.gen in gens && (w.visited ==> w.gen == g.to)
    && (w.gen == SCRATCH_GENERATION ==> !g.raise && w.visited)
  }

  lemma EnlivenedIsReady(g: Gens, p: Page, q: Page)
    requires g.Ok() && PageOk(p) && HeadersOk(p, {}) && Enlivened(g, p, q)
    ensures PageOk(q) && SweepReady(g, q)
    ensures q.gens !! {g.from, g.to} ==> HeadersOk(q, {})
  {
    if p.spacing == 0 {
      forall i | 0 <= i < |q.words| ensures q.words[i] == Hole(0) {
        assert WordAt(q, 8 * i) == q.words[i] && WordAt(p, 8 * i) == p.words[i];
      }
      assert forall x: nat :: !HeadEnlivened(g, p, q, x);
    } else {
      EnlivenedHoles(g, p, q);
      forall at: nat | Boundary(q.spacing, at) && !WordAt(q, at).Hole? ensures HeadReady(g, q.gens, WordAt(q, at)) {
        assert !WordAt(p, at).Hole? && HeaderOk(p, at, {});
      }
      forall at: nat | Boundary(q.spacing, at) && !WordAt(q, at).Hole? && q.gens !! {g.from, g.to}
        ensures HeaderOk(q, at, {})
      {
        assert HeaderOk(p, at, {});
        assert !HeadEnlivened(g, p, q, at);
      }
    }
  }

  lemma EnlivenedHoles(g: Gens, p: Page, q: Page)
    requires PageOk(p) && p.spacing != 0 && Enlivened(g, p, q)
    ensures PageOk(q)
  {
    forall at: nat | Boundary(q.spacing, at) && WordAt(q, at).Hole?
      ensures WordAt(q, at).disp % q.spacing == 0 && BodyZero(q, at)
    {
      assert BodyZero(p, at);
      forall x: nat | at < x < at + q.spacing && x % 8 == 0 ensures WordAt(q, x) == Hole(0) {
        assert WordAt(p, x) == Hole(0);
      }
    }
    forall x: nat | InTail(q.spacing, x) ensures WordAt(q, x) == Hole(0) { assert WordAt(p, x) == Hole(0); }
  }

  /** The new mask covers every object left. */
  lemma MaskCovers(g: Gens, p: Page, w: Word)
    requires g.Ok() && HeadReady(g, p.gens, w) && !Free(g, w) && (Kept(g, w) ==> AnyKept(g, p))
    ensures After(g, w).gen in NewMask(g, p.gens, AnyKept(g, p))
    ensures !After(g, w).visited && After(g, w).Header?
    ensures After(g, w).gen != SCRATCH_GENERATION
  {
  }

  lemma SweptHeads(g: Gens, p: Page, q: Page, at: nat)
    requires g.Ok() && SweepReady(g, p) && PageSwept(g, p, q) && !(p.gens !! {g.from, g.to})
    requires Boundary(p.spacing, at) && !WordAt(q, at).Hole?
    ensures WordAt(q, at).Header? && !WordAt(q, at).visited && WordAt(q, at).gen in q.gens
    ensures WordAt(q, at).gen != SCRATCH_GENERATION
  {
    assert CellSwept(g, p, q, p.spacing, at);
    MaskCovers(g, p, WordAt(p, at));
  }

  lemma SweptHoles(g: Gens, p: Page, q: Page)
    requires PageOk(p) && PageSwept(g, p, q) && !(p.gens !! {g.from, g.to})
    ensures PageOk(q.(spacing := p.spacing))
  {
    var r := q.(spacing := p.spacing);
    assert forall x: nat :: WordAt(r, x) == WordAt(q, x);
    forall at: nat | Boundary(r.spacing, at) && WordAt(r, at).Hole?
      ensures WordAt(r, at).disp % r.spacing == 0 && BodyZero(r, at)
    {
      assert CellSwept(g, p, q, p.spacing, at);
    }
    forall x: nat | InTail(r.spacing, x) ensures WordAt(r, x) == Hole(0) { assert WordAt(p, x) == Hole(0); }
  }

  /** After the sweep of a page that was in order it is again: what the allocator relies on holds, and
      a released page is all zero, so that it can be claimed for any spacing. */
  lemma SweptPageIsOk(g: Gens, p: Page, q: Page)
    requires g.Ok() && PageOk(p) && SweepReady(g, p) && PageSwept(g, p, q) && !(p.gens !! {g.from, g.to})
    ensures PageOk(q) && HeadersOk(q, {})
  {
    SweptHoles(g, p, q);
    if q.gens == {} {
      forall at: nat | Boundary(p.spacing, at) ensures WordAt(q, at).Hole? {
        if !WordAt(q, at).Hole? { SweptHeads(g, p, q, at); }
      }
      AllHolesIsBlank(q.(spacing := p.spacing));
      assert forall at: nat :: !Boundary(q.spacing, at);
    } else {
      forall at: nat | Boundary(q.spacing, at) && !WordAt(q, at).Hole? ensures HeaderOk(q, at, {}) {
        SweptHeads(g, p, q, at);
      }
    }
  }

  /** Every generation in the mask, other than `except`, is that of an object on the page. */
  ghost predicate MaskExact(p: Page, except: set<nat>) {
    forall x :: x in p.gens && x !in except ==> SomeObject(p, x)
  }

  ghost predicate SomeObject(p: Page, gen: nat) {
    exists at: nat :: Boundary(p.spacing, at) && WordAt(p, at).Header? && WordAt(p, at).gen == gen
  }

  /** Enlivening leaves the mask exact, apart from the collected generation. */
  lemma EnlivenedIsExact(g: Gens, p: Page, q: Page)
    requires g.Ok() && MaskExact(p, {}) && Enlivened(g, p, q)
    ensures MaskExact(q, {g.from}) && (q.gens !! {g.from, g.to} ==> MaskExact(q, {}))
  {
    forall x | x in q.gens && x != g.from ensures SomeObject(q, x) {
      if x in p.gens {
        var at: nat :| Boundary(p.spacing, at) && WordAt(p, at).Header? && WordAt(p, at).gen == x;
        assert WordAt(q, at) == WordAt(p, at) || HeadEnlivened(g, p, q, at);
      } else {
        var at: nat :| HeadEnlivened(g, p, q, at);
        assert WordAt(q, at).gen == x;
      }
    }
  }

  /** The sweep leaves it exact: a generation is in the mask if and only if there is an object of it. So a
      page on which no object is left has an empty mask and is released. */
  lemma SweptIsExact(g: Gens, p: Page, q: Page)
    requires g.Ok() && PageOk(p) && SweepReady(g, p) && MaskExact(p, {g.from}) && PageSwept(g, p, q)
    requires !(p.gens !! {g.from, g.to})
    ensures MaskExact(q, {})
    ensures (forall at: nat :: Boundary(p.spacing, at) ==> WordAt(q, at).Hole?) <==> q.gens == {}
    ensures q.gens == {} <==> q.spacing == 0
  {
    forall x | x in q.gens
      ensures exists at: nat :: Boundary(p.spacing, at) && WordAt(q, at).Header? && WordAt(q, at).gen == x
    {
      GenerationLeft(g, p, q, x);
    }
    forall at: nat | Boundary(p.spacing, at) && !WordAt(q, at).Hole? ensures q.gens != {} { SweptHeads(g, p, q, at); }
    if x :| x in q.gens {
      var at: nat :| Boundary(p.spacing, at) && WordAt(q, at).Header? && WordAt(q, at).gen == x;
    }
  }

  lemma GenerationLeft(g: Gens, p: Page, q: Page, x: nat)
    requires g.Ok() && PageOk(p) && SweepReady(g, p) && MaskExact(p, {g.from}) && PageSwept(g, p, q)
    requires !(p.gens !! {g.from, g.to}) && x in q.gens
    ensures exists at: nat :: Boundary(p.spacing, at) && WordAt(q, at).Header? && WordAt(q, at).gen == x
  {
    if x == g.Target() && AnyKept(g, p) {
      var at: nat :| Boundary(p.spacing, at) && Kept(g, WordAt(p, at));
      assert CellSwept(g, p, q, p.spacing, at);
    } else {
      assert SomeObject(p, x);
      var at: nat :| Boundary(p.spacing, at) && WordAt(p, at).Header? && WordAt(p, at).gen == x;
      assert HeadReady(g, p.gens, WordAt(p, at)) && CellSwept(g, p, q, p.spacing, at);
    }
  }

  /** A collection: enliven some objects, then sweep. */
  ghost predicate Collected(g: Gens, p: Page, q: Page) {
    exists mid :: Enlivened(g, p, mid) && PageSwept(g, mid, q)
  }

  lemma CollectedPageIsOk(g: Gens, p: Page, q: Page)
    requires g.Ok() && PageOk(p) && HeadersOk(p, {}) && Collected(g, p, q)
    ensures PageOk(q) && HeadersOk(q, {})
  {
    var mid :| Enlivened(g, p, mid) && PageSwept(g, mid, q);
    EnlivenedIsReady(g, p, mid);
    if mid.gens !! {g.from, g.to} {
      assert q == mid;
    } else {
      SweptPageIsOk(g, mid, q);
    }
  }

  /** So a collection leaves the mask of every page exact. */
  lemma CollectedIsExact(g: Gens, p: Page, q: Page)
    requires g.Ok() && PageOk(p) && HeadersOk(p, {}) && MaskExact(p, {}) && Collected(g, p, q)
    ensures MaskExact(q, {})
  {
    var mid :| Enlivened(g, p, mid) && PageSwept(g, mid, q);
    EnlivenedIsReady(g, p, mid);
    EnlivenedIsExact(g, p, mid);
    if mid.gens !! {g.from, g.to} {
      assert q == mid;
    } else {
      SweptIsExact(g, mid, q);
    }
  }

  /** An object that is still there after a collection is where it was, and its words other than the
      header are unchanged. */
  lemma CollectedObjectStays(g: Gens, p: Page, q: Page, at: nat)
    requires g.Ok() && PageOk(p) && HeadersOk(p, {}) && Collected(g, p, q)
    requires Boundary(p.spacing, at) && WordAt(p, at).Header? && !WordAt(q, at).Hole?
    ensures q.spacing == p.spacing && WordAt(q, at).Header?
    ensures forall x: nat :: at < x < at + p.spacing ==> WordAt(q, x) == WordAt(p, x)
  {
    var mid :| Enlivened(g, p, mid) && PageSwept(g, mid, q);
    EnlivenedIsReady(g, p, mid);
    forall x: nat | at < x < at + p.spacing ensures WordAt(mid, x) == WordAt(p, x) {
      NoMultipleBetween(at, x, p.spacing);
    }
    if !(mid.gens !! {g.from, g.to}) {
      assert CellSwept(g, mid, q, p.spacing, at);
      SweptHeads(g, mid, q, at);
    }
  }
}
