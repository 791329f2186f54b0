/** The card table of dynamic space: its size (`src/runtime/coreparse.c`) and the index of a
    card (`src/runtime/gencgc-impl.h`), which is masked out of the address without
    subtracting the base of the heap. */
module Cards {
  import opened Arithmetic
  import opened HopBits

  datatype Result<T> = Ok(value: T) | Err(error: Error)

  datatype Error = SizeUnaligned | SpaceTooLarge

  /** The base-2 logarithms of the bytes in a card and of the cards in a page. */
  datatype Geometry = Geometry(cardShift: nat, pageShift: nat)

  function Quotient(a: nat, d: nat): nat
    requires d > 0
  {
    a / d
  }

  function CardBytes(g: Geometry): (n: nat)
    ensures n > 0
  {
    Pow2(g.cardShift)
  }

  function CardsPerPage(g: Geometry): (n: nat)
    ensures n > 0
  {
    Pow2(g.pageShift)
  }

  function PageBytes(g: Geometry): (n: nat)
    ensures n > 0
  {
    CardsPerPage(g) * CardBytes(g)
  }

  /** Shift the address and mask it. */
  function CardIndex(g: Geometry, nbits: nat, addr: nat): nat {
    And(Shr(addr, g.cardShift), Pow2(nbits) - 1)
  }

  // ---- The size of the table ----

  /** A table of this width has a card for every page. */
  predicate WideEnough(g: Geometry, pages: nat, nbits: nat) {
    Pow2(nbits) / CardsPerPage(g) >= pages
  }

  /** The width that the size of the space asks for: at least 13, and no wider than it must be. */
  ghost predicate IsNeeded(g: Geometry, pages: nat, nbits: nat) {
    && nbits >= 13 && WideEnough(g, pages, nbits)
    && forall k: nat :: 13 <= k < nbits ==> !WideEnough(g, pages, k)
  }

  /** The width of the table and whether compiled code must be patched. */
  datatype Width = Width(nbits: nat, patch: bool)

  lemma QuotientAtLeast(a: nat, d: nat, q: nat)
    requires d > 0
    ensures a / d >= q <==> a >= q * d
  {
    var x, r := a / d, a % d;
    assert a == x * d + r;
    MulAtLeast(x - q + 1, d);
    MulAtLeast(q - x, d);
    Distribute(x - q, 1, d);
    Distribute(x, q, d);
    Distribute(q, x, d);
  }

  /** The width that the core was saved with, unless the space needs a wider table; then code is
      patched. A space that needs more than 31 bits is refused. */
  method ComputeTableSize(g: Geometry, size: nat, saved: nat) returns (r: Result<Width>)
    ensures r == Err(SizeUnaligned) <==> size % PageBytes(g) != 0
    ensures r.Ok? ==> exists needed: nat ::
              IsNeeded(g, size / PageBytes(g), needed) && needed <= 31
              && r.value == Width(if needed > saved then needed else saved, needed > saved)
    ensures r.Ok? ==> WideEnough(g, size / PageBytes(g), r.value.nbits)
    ensures r == Err(SpaceTooLarge) ==> exists needed: nat :: IsNeeded(g, size / PageBytes(g), needed) && needed > 31
  {
    var pages := size / PageBytes(g);
    if size != pages * PageBytes(g) {
      return Err(SizeUnaligned);
    }
    MultipleMod(pages, PageBytes(g));
    var nbits, cards := 13, Pow2(13);
    while cards / CardsPerPage(g) < pages
      invariant nbits >= 13 && cards == Pow2(nbits)
      invariant forall k: nat :: 13 <= k < nbits ==> !WideEnough(g, pages, k)
      decreases pages * CardsPerPage(g) - cards
    {
      QuotientAtLeast(cards, CardsPerPage(g), pages);
      nbits, cards := nbits + 1, cards * 2;
    }
    assert IsNeeded(g, pages, nbits);
    if nbits > 31 {
      return Err(SpaceTooLarge);
    }
    r := Ok(Width(if nbits > saved then nbits else saved, nbits > saved));
    WiderIsEnough(g, pages, nbits, r.value.nbits);
  }

  lemma WiderIsEnough(g: Geometry, pages: nat, nbits: nat, wider: nat)
    requires WideEnough(g, pages, nbits) && nbits <= wider
    ensures WideEnough(g, pages, wider)
    ensures pages * CardsPerPage(g) <= Pow2(wider)
  {
    Pow2Grows(nbits, wider);
    QuotientAtLeast(Pow2(nbits), CardsPerPage(g), pages);
    QuotientAtLeast(Pow2(wider), CardsPerPage(g), pages);
  }

  // ---- The index of a card ----

  lemma IndexIsMod(g: Geometry, nbits: nat, addr: nat)
    ensures CardIndex(g, nbits, addr) == addr / CardBytes(g) % Pow2(nbits)
  {
    ShrIsDiv(addr, g.cardShift);
    AndMaskIsMod(Shr(addr, g.cardShift), nbits);
  }

  /** The heap starts on a page and has so many of them. */
  datatype Heap = Heap(base: nat, pages: nat)

  predicate Aligned(g: Geometry, h: Heap) {
    h.base % PageBytes(g) == 0
  }

  predicate InHeap(g: Geometry, h: Heap, addr: nat) {
    h.base <= addr < h.base + h.pages * PageBytes(g)
  }

  function PageOf(g: Geometry, h: Heap, addr: nat): nat
    requires InHeap(g, h, addr)
  {
    Quotient(addr - h.base, PageBytes(g))
  }

  lemma CloseResidues(x: nat, y: nat, n: nat)
    requires n > 0 && x % n == y % n && x <= y < x + n
    ensures x == y
  {
    var q := y / n - x / n;
    assert y - x == q * n;
    MulAtLeast(q, n);
  }

  lemma Window(m: nat, pages: nat, per: nat, card: nat, addr: nat)
    requires card > 0 && m * (per * card) <= addr < m * (per * card) + pages * (per * card)
    ensures m * per <= addr / card < m * per + pages * per
  {
    Assoc(m, per, card);
    Assoc(pages, per, card);
    QuotientAtLeast(addr, card, m * per);
    QuotientAtLeast(addr, card, m * per + pages * per);
    assert (m * per + pages * per) * card == (m * per) * card + (pages * per) * card;
  }

  /** The number of a card of the heap, counted from address 0, lies in a window as long as the
      heap has cards. */
  lemma CardInWindow(g: Geometry, h: Heap, addr: nat)
    requires Aligned(g, h) && InHeap(g, h, addr)
    ensures var first := h.base / PageBytes(g) * CardsPerPage(g);
            first <= addr / CardBytes(g) < first + h.pages * CardsPerPage(g)
  {
    assert h.base == h.base / PageBytes(g) * PageBytes(g);
    Window(h.base / PageBytes(g), h.pages, CardsPerPage(g), CardBytes(g), addr);
  }

  function FirstCard(g: Geometry, h: Heap): nat {
    CountOf(Quotient(h.base, PageBytes(g)), CardsPerPage(g), 0)
  }

  lemma CardInTable(g: Geometry, h: Heap, nbits: nat, addr: nat)
    requires Aligned(g, h) && InHeap(g, h, addr) && WideEnough(g, h.pages, nbits)
    ensures FirstCard(g, h) <= addr / CardBytes(g) < FirstCard(g, h) + Pow2(nbits)
  {
    CardInWindow(g, h, addr);
    WiderIsEnough(g, h.pages, nbits, nbits);
  }

  /** For every base, size and width that is accepted, two addresses of the heap have the same
      card index exactly if they are on the same card. */
  lemma CardsAreDistinct(g: Geometry, h: Heap, nbits: nat, a: nat, b: nat)
    requires Aligned(g, h) && InHeap(g, h, a) && InHeap(g, h, b) && WideEnough(g, h.pages, nbits)
    ensures CardIndex(g, nbits, a) == CardIndex(g, nbits, b) <==> a / CardBytes(g) == b / CardBytes(g)
  {
    IndexIsMod(g, nbits, a);
    IndexIsMod(g, nbits, b);
    CardInTable(g, h, nbits, a);
    CardInTable(g, h, nbits, b);
    hide *;
    EqualResidues(a / CardBytes(g), b / CardBytes(g), Pow2(nbits));
  }

  lemma EqualResidues(x: nat, y: nat, n: nat)
    requires n > 0 && x < y + n && y < x + n
    ensures x % n == y % n <==> x == y
  {
    if x % n == y % n {
      CloseResidues(if x < y then x else y, if x < y then y else x, n);
    }
  }

  lemma Pow2Splits(g: Geometry, nbits: nat)
    requires CardsPerPage(g) <= Pow2(nbits)
    ensures nbits >= g.pageShift && Pow2(nbits) == Pow2(nbits - g.pageShift) * CardsPerPage(g)
  {
    if nbits < g.pageShift {
      Pow2Grows(nbits + 1, g.pageShift);
    }
    Pow2Sum(nbits - g.pageShift, g.pageShift);
  }

  /** A run of `per` numbers that starts at a multiple of `per` does not wrap at a multiple of it. */
  lemma RunInTable(m: nat, per: nat, q: nat, n: nat, k: nat)
    requires k < per && q > 0 && n == q * per && n > 0
    ensures CountOf(m, per, 0) % n + per <= n
    ensures CountOf(m, per, k) % n == CountOf(m, per, 0) % n + k
  {
    var z, r := m / q, m % q;
    Blocks(m, q, per);
    LastBlock(q, r, per);
    var first := r * per;
    hide CountOf;
    ModUnique(CountOf(m, per, 0), n, z, first);
    CountFrom(m, per, k);
    ModUnique(CountOf(m, per, k), n, z, first + k);
  }

  lemma CountFrom(m: nat, per: nat, k: nat)
    ensures CountOf(m, per, k) == CountOf(m, per, 0) + k
  {
  }

  lemma Blocks(m: nat, q: nat, per: nat)
    requires q > 0
    ensures CountOf(m, per, 0) == m / q * (q * per) + m % q * per
  {
    assert m == m / q * q + m % q;
    Distribute(m / q * q, m % q, per);
    Assoc(m / q, q, per);
  }

  lemma LastBlock(q: nat, r: nat, per: nat)
    requires r < q && per > 0
    ensures r * per + per <= q * per
  {
    MulAtLeast(q - r, per);
    Distribute(q, r, per);
  }

  function PageStart(g: Geometry, h: Heap, page: nat): nat {
    h.base + page * PageBytes(g)
  }

  function CardStart(g: Geometry, h: Heap, page: nat, k: nat): nat {
    PageStart(g, h, page) + k * CardBytes(g)
  }

  /** The number of card `k` of a page, counted from address 0. */
  function CardNumber(g: Geometry, h: Heap, page: nat, k: nat): nat {
    CountOf(Quotient(h.base, PageBytes(g)) + page, CardsPerPage(g), k)
  }

  /** `k` cards after `m` pages of `per` cards each */
  function CountOf(m: nat, per: nat, k: nat): nat {
    m * per + k
  }

  lemma NumberOfCard(g: Geometry, h: Heap, page: nat, k: nat)
    requires Aligned(g, h)
    ensures CardStart(g, h, page, k) / CardBytes(g) == CardNumber(g, h, page, k)
  {
    assert h.base == h.base / PageBytes(g) * PageBytes(g);
    NumberOf(h.base / PageBytes(g), page, CardsPerPage(g), CardBytes(g), k);
  }

  lemma NumberOf(m: nat, page: nat, per: nat, card: nat, k: nat)
    requires card > 0
    ensures (m * (per * card) + page * (per * card) + k * card) / card == (m + page) * per + k
  {
    Assoc(m, per, card);
    Assoc(page, per, card);
    assert m * (per * card) + page * (per * card) + k * card == ((m + page) * per + k) * card;
    MultipleMod((m + page) * per + k, card);
  }

  lemma NumbersInTable(g: Geometry, h: Heap, nbits: nat, page: nat, k: nat)
    requires CardsPerPage(g) <= Pow2(nbits) && k < CardsPerPage(g)
    ensures var first := CardNumber(g, h, page, 0) % Pow2(nbits);
            first + CardsPerPage(g) <= Pow2(nbits) && CardNumber(g, h, page, k) % Pow2(nbits) == first + k
  {
    Pow2Splits(g, nbits);
    var m := Quotient(h.base, PageBytes(g)) + page;
    hide CountOf, CardsPerPage, PageBytes, Pow2, Quotient;
    RunInTable(m, CardsPerPage(g), Pow2(nbits - g.pageShift), Pow2(nbits), k);
  }

  /** The cards of a page follow each other in the table: the run never wraps. */
  lemma PageRun(g: Geometry, h: Heap, nbits: nat, page: nat, k: nat)
    requires Aligned(g, h) && page < h.pages && k < CardsPerPage(g) && WideEnough(g, h.pages, nbits)
    ensures var first := CardIndex(g, nbits, PageStart(g, h, page));
            first + CardsPerPage(g) <= Pow2(nbits) && CardIndex(g, nbits, CardStart(g, h, page, k)) == first + k
  {
    assert PageStart(g, h, page) == CardStart(g, h, page, 0);
    WiderIsEnough(g, h.pages, nbits, nbits);
    Times(h.pages, CardsPerPage(g));
    hide CardIndex, PageStart, CardStart, WideEnough, CardNumber, CardBytes;
    IndexIsMod(g, nbits, CardStart(g, h, page, 0));
    IndexIsMod(g, nbits, CardStart(g, h, page, k));
    NumberOfCard(g, h, page, 0);
    NumberOfCard(g, h, page, k);
    NumbersInTable(g, h, nbits, page, k);
  }

  lemma Times(pages: nat, per: nat)
    requires pages > 0
    ensures pages * per >= per
  {
    MulAtLeast(pages, if per > 0 then per else 1);
  }

  lemma PageOfCard(g: Geometry, h: Heap, addr: nat)
    requires Aligned(g, h) && InHeap(g, h, addr)
    ensures var m := h.base / PageBytes(g);
            addr / CardBytes(g) / CardsPerPage(g) == m + PageOf(g, h, addr)
  {
    var card, per, p := CardBytes(g), CardsPerPage(g), PageOf(g, h, addr);
    var m, r := h.base / PageBytes(g) + p, (addr - h.base) % PageBytes(g);
    assert addr == m * (per * card) + r;
    Window(m, 1, per, card, addr);
    ModUnique(addr / card, per, m, addr / card - m * per);
  }

  // ---- Marking the cards of a page ----

  class CardTable {
    const g: Geometry
    const nbits: nat
    const mark: array<nat>

    predicate Valid()
      reads this
    {
      mark.Length == Pow2(nbits)
    }

    constructor (g: Geometry, nbits: nat)
      ensures Valid() && this.g == g && this.nbits == nbits && fresh(mark)
    {
      this.g, this.nbits := g, nbits;
      mark := new nat[Pow2(nbits)](_ => 0);
    }

    /** assign_page_card_marks: exactly the cards of the page get the value. */
    method AssignPage(h: Heap, page: nat, val: nat)
      requires Valid() && Aligned(g, h) && page < h.pages && WideEnough(g, h.pages, nbits)
      modifies mark
      ensures forall addr :: InHeap(g, h, addr) ==>
                var i := CardIndex(g, nbits, addr);
                0 <= i < mark.Length && mark[i] == if PageOf(g, h, addr) == page then val else old(mark[i])
    {
      var first := CardIndex(g, nbits, PageStart(g, h, page));
      PageRun(g, h, nbits, page, 0);
      for k := 0 to CardsPerPage(g)
        invariant forall i :: 0 <= i < mark.Length ==> mark[i] == if first <= i < first + k then val else old(mark[i])
      {
        mark[first + k] := val;
      }
      forall addr | InHeap(g, h, addr)
        ensures var i := CardIndex(g, nbits, addr);
                0 <= i < mark.Length && (first <= i < first + CardsPerPage(g) <==> PageOf(g, h, addr) == page)
      {
        IndexOnPage(g, h, nbits, page, addr);
      }
    }
  }

  /** The index of an address lies in the run of a page exactly if the address is on that page. */
  lemma IndexOnPage(g: Geometry, h: Heap, nbits: nat, page: nat, addr: nat)
    requires Aligned(g, h) && InHeap(g, h, addr) && page < h.pages && WideEnough(g, h.pages, nbits)
    ensures var first, i := CardIndex(g, nbits, PageStart(g, h, page)), CardIndex(g, nbits, addr);
            && i < Pow2(nbits)
            && (first <= i < first + CardsPerPage(g) <==> PageOf(g, h, addr) == page)
  {
    var first, i, p := CardIndex(g, nbits, PageStart(g, h, page)), CardIndex(g, nbits, addr), PageOf(g, h, addr);
    PageInHeap(g, h, addr);
    var r := addr / CardBytes(g) % CardsPerPage(g);
    PageOfCard(g, h, addr);
    CardAt(g, h, nbits, addr);
    PageRun(g, h, nbits, p, r);
    if first <= i < first + CardsPerPage(g) {
      SameRun(g, h, nbits, page, addr, i - first);
    }
  }

  lemma PageInHeap(g: Geometry, h: Heap, addr: nat)
    requires InHeap(g, h, addr)
    ensures PageOf(g, h, addr) < h.pages
  {
    var d := addr - h.base;
    QuotientAtLeast(d, PageBytes(g), h.pages);
  }

  /** An address with the index of card `k` of a page is on that page. */
  lemma SameRun(g: Geometry, h: Heap, nbits: nat, page: nat, addr: nat, k: nat)
    requires Aligned(g, h) && InHeap(g, h, addr) && page < h.pages && WideEnough(g, h.pages, nbits)
    requires k < CardsPerPage(g)
    requires CardIndex(g, nbits, addr) == CardIndex(g, nbits, PageStart(g, h, page)) + k
    ensures PageOf(g, h, addr) == page
  {
    var a := CardStart(g, h, page, k);
    PageRun(g, h, nbits, page, k);
    OnPage(g, h, page, k);
    hide CardIndex, CardStart, PageStart, WideEnough;
    CardsAreDistinct(g, h, nbits, a, addr);
    PageOfCard(g, h, a);
    PageOfCard(g, h, addr);
  }

  /** An address is on one of the cards of its page. */
  lemma CardAt(g: Geometry, h: Heap, nbits: nat, addr: nat)
    requires Aligned(g, h) && InHeap(g, h, addr)
    ensures var r := addr / CardBytes(g) % CardsPerPage(g);
            CardIndex(g, nbits, addr) == CardIndex(g, nbits, CardStart(g, h, PageOf(g, h, addr), r))
  {
    hide CardIndex, CardStart, CardNumber, Aligned, InHeap, PageOf, CardBytes, CardsPerPage, Pow2;
    var r, p := addr / CardBytes(g) % CardsPerPage(g), PageOf(g, h, addr);
    NumberOnPage(g, h, addr);
    NumberOfCard(g, h, p, r);
    IndexIsMod(g, nbits, addr);
    IndexIsMod(g, nbits, CardStart(g, h, p, r));
  }

  lemma NumberOnPage(g: Geometry, h: Heap, addr: nat)
    requires Aligned(g, h) && InHeap(g, h, addr)
    ensures addr / CardBytes(g) == CardNumber(g, h, PageOf(g, h, addr), addr / CardBytes(g) % CardsPerPage(g))
  {
    hide Aligned, InHeap, PageOf, CardBytes, CardsPerPage, PageBytes, Pow2;
    PageOfCard(g, h, addr);
    Remainder(addr / CardBytes(g), CardsPerPage(g));
  }

  lemma Remainder(c: nat, per: nat)
    requires per > 0
    ensures c == CountOf(c / per, per, c % per)
  {
  }

  lemma OnPage(g: Geometry, h: Heap, page: nat, k: nat)
    requires page < h.pages && k < CardsPerPage(g)
    ensures InHeap(g, h, CardStart(g, h, page, k)) && PageOf(g, h, CardStart(g, h, page, k)) == page
  {
    hide Pow2;
    var card, per, n := CardBytes(g), CardsPerPage(g), PageBytes(g);
    MulAtLeast(per - k, card);
    Distribute(per, k, card);
    ModUnique(page * n + k * card, n, page, k * card);
    MulAtLeast(h.pages - page, n);
    Distribute(h.pages, page, n);
  }
}
