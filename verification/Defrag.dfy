/** Where defragmentation puts fixed-size immobile objects, `src/runtime/immobile-space.c`:
    layouts by size class, each class on pages of its own, then symbols by kind. */
module Defrag {
  import opened Common
  import opened Arithmetic

  const WORDS_PER_PAGE: nat := 512
  const SIZE_CLASSES: nat := 21

  /** The object does not cross a page boundary. */
  predicate OnOnePage(r: Range) {
    r.lo < r.hi && r.lo / CARD_BYTES == (r.hi - 1) / CARD_BYTES
  }

  // ---- Arithmetic ----

  function Ceil(n: nat, per: nat): nat
    requires per > 0
  {
    (n + per - 1) / per
  }

  /** The number of pages that were begun grows exactly when the last one is full. */
  lemma CeilStep(n: nat, per: nat)
    requires per > 0
    ensures Ceil(n + 1, per) == n / per + 1
    ensures Ceil(n, per) == n / per + if n % per == 0 then 0 else 1
    ensures Ceil(0, per) == 0
  {
    var q, r := n / per, n % per;
    assert n == q * per + r;
    ModUnique(n + per, per, q + 1, r);
    if r == 0 {
      ModUnique(n + per - 1, per, q, per - 1);
    } else {
      ModUnique(n + per - 1, per, q + 1, r - 1);
    }
    ModUnique(per - 1, per, 0, per - 1);
  }

  lemma CeilMono(m: nat, n: nat, per: nat)
    requires per > 0 && m <= n
    ensures Ceil(m, per) <= Ceil(n, per)
  {
    DivMono(m + per - 1, n + per - 1, per);
  }

  lemma NextIndex(k: nat, per: nat)
    requires per > 0
    ensures if k % per + 1 < per then (k + 1) / per == k / per && (k + 1) % per == k % per + 1
            else (k + 1) / per == k / per + 1 && (k + 1) % per == 0
  {
    var q, r := k / per, k % per;
    assert k == q * per + r;
    if r + 1 < per {
      ModUnique(k + 1, per, q, r + 1);
    } else {
      ModUnique(k + 1, per, q + 1, 0);
    }
  }

  function EvenWords(words: nat): nat {
    (words + 1) / 2 * 2
  }

  /** calc_n_fixedobj_pages; nothing where the code would divide by zero. */
  function PagesFor(n: nat, words: nat): Option<nat> {
    if EvenWords(words) == 0 then None
    else
      var perPage := WORDS_PER_PAGE / EvenWords(words);
      if perPage == 0 then None else Some((n + perPage - 1) / perPage)
  }

  /** The division is by zero exactly for a kind of symbol of which there is none, so that its size
      is still 0, and for objects larger than a page. */
  lemma PagesForIsDefinedIff(n: nat, words: nat)
    ensures PagesFor(n, words).Some? <==> 0 < words <= WORDS_PER_PAGE
  {
    if words > 0 {
      var e := EvenWords(words);
      assert e == words || e == words + 1;
      if e <= WORDS_PER_PAGE {
        DivMono(e, WORDS_PER_PAGE, e);
        ModUnique(e, e, 1, 0);
      } else {
        ModUnique(WORDS_PER_PAGE, e, 0, WORDS_PER_PAGE);
      }
    }
  }

  /** The fewest pages that hold `n` objects. */
  lemma PagesForIsLeast(n: nat, words: nat, pages: nat)
    requires 0 < words <= WORDS_PER_PAGE && words % 2 == 0
    ensures PagesFor(n, words).Some? && WORDS_PER_PAGE / words > 0
    ensures n <= pages * (WORDS_PER_PAGE / words) <==> PagesFor(n, words).value <= pages
  {
    PagesForIsDefinedIff(n, words);
    assert EvenWords(words) == words;
    var per := WORDS_PER_PAGE / words;
    var c := PagesFor(n, words).value;
    assert c == (n + per - 1) / per;
    CeilingIsLeast(n, per, c, pages);
  }

  lemma CeilingIsLeast(n: nat, per: nat, c: nat, pages: nat)
    requires per > 0 && c == (n + per - 1) / per
    ensures n <= pages * per <==> c <= pages
  {
    var r := (n + per - 1) % per;
    assert n + per - 1 == c * per + r;
    MulAtLeast(c - pages, per);
    MulAtLeast(pages - c + 1, per);
    assert (c - pages) * per == c * per - pages * per;
    assert (pages - c + 1) * per == pages * per - c * per + per;
  }

  // ---- Symbols: place_fixedobj ----

  /** Where an object goes, given the pointer of its kind: on the page if there is room. */
  function PlaceAt(at: nat, size: nat): nat {
    var pageEnd := at / CARD_BYTES * CARD_BYTES + CARD_BYTES;
    if pageEnd - at < size then pageEnd else at
  }

  /** The pointer of a kind after `k` objects. */
  function Pointer(start: nat, size: nat, k: nat): nat {
    if k == 0 then start else PlaceAt(Pointer(start, size, k - 1), size) + size
  }

  function PerPage(size: nat): nat
    requires size > 0
  {
    CARD_BYTES / size
  }

  /** Place `k` of a grid of pages with as many objects as fit on each. */
  function Grid(start: nat, size: nat, k: nat): nat
    requires 0 < size && PerPage(size) > 0
  {
    start + k / PerPage(size) * CARD_BYTES + k % PerPage(size) * size
  }

  predicate Fits(size: nat) {
    0 < size <= CARD_BYTES
  }

  lemma PerPagePositive(size: nat)
    requires Fits(size)
    ensures PerPage(size) > 0 && PerPage(size) * size <= CARD_BYTES < PerPage(size) * size + size
  {
    var per := PerPage(size);
    assert CARD_BYTES == per * size + CARD_BYTES % size;
    MulAtLeast(per, size);
  }

  lemma OnPage(start: nat, q: nat, d: nat)
    requires start % CARD_BYTES == 0 && d < CARD_BYTES
    ensures (start + q * CARD_BYTES + d) / CARD_BYTES * CARD_BYTES == start + q * CARD_BYTES
  {
    var s := start / CARD_BYTES;
    ModUnique(start + q * CARD_BYTES + d, CARD_BYTES, s + q, d);
  }

  lemma TimesStep(r: nat, per: nat, size: nat)
    requires r < per
    ensures r * size + size == (r + 1) * size <= per * size
  {
    if size > 0 {
      MulAtLeast(per - r, size);
      assert (per - r) * size == per * size - r * size;
    }
    assert (r + 1) * size == r * size + size;
  }

  /** Bumping the pointer and skipping to the next page where an object does not fit puts the
      objects of a kind exactly on the grid. */
  lemma {:induction false} PlacesAreGrid(start: nat, size: nat, k: nat)
    requires start % CARD_BYTES == 0 && Fits(size)
    ensures PerPage(size) > 0 && PlaceAt(Pointer(start, size, k), size) == Grid(start, size, k)
  {
    PerPagePositive(size);
    if k == 0 {
      OnPage(start, 0, 0);
    } else {
      PlacesAreGrid(start, size, k - 1);
      assert Pointer(start, size, k) == Grid(start, size, k - 1) + size;
      hide PlaceAt, Pointer, Grid;
      NextOnGrid(start, size, k - 1);
    }
  }

  lemma NextOnGrid(start: nat, size: nat, k: nat)
    requires start % CARD_BYTES == 0 && Fits(size) && PerPage(size) > 0
    ensures PlaceAt(Grid(start, size, k) + size, size) == Grid(start, size, k + 1)
  {
    PerPagePositive(size);
    hide PerPage, PlaceAt;
    NextIndex(k, PerPage(size));
    NextPlace(start, size, PerPage(size), k / PerPage(size), k % PerPage(size));
  }

  lemma NextPlace(start: nat, size: nat, per: nat, q: nat, r: nat)
    requires start % CARD_BYTES == 0 && Fits(size) && r < per && per * size <= CARD_BYTES < per * size + size
    ensures PlaceAt(start + q * CARD_BYTES + r * size + size, size) ==
            if r + 1 < per then start + q * CARD_BYTES + (r + 1) * size else start + (q + 1) * CARD_BYTES
  {
    TimesStep(r, per, size);
    var d := (r + 1) * size;
    if r + 1 < per {
      TimesStep(r + 1, per, size);
      OnPage(start, q, d);
    } else if d < CARD_BYTES {
      OnPage(start, q, d);
    } else {
      OnPage(start, q + 1, 0);
    }
  }

  function GridRange(start: nat, size: nat, k: nat): Range
    requires 0 < size && PerPage(size) > 0
  {
    Range(Grid(start, size, k), Grid(start, size, k) + size)
  }

  /** Objects on the grid stay on their page and below the page after theirs. */
  lemma GridOnPage(start: nat, size: nat, k: nat)
    requires start % CARD_BYTES == 0 && Fits(size)
    ensures PerPage(size) > 0 && OnOnePage(GridRange(start, size, k))
    ensures start + k / PerPage(size) * CARD_BYTES <= Grid(start, size, k)
    ensures Grid(start, size, k) <= start + (k / PerPage(size) + 1) * CARD_BYTES - size
  {
    PerPagePositive(size);
    var per := PerPage(size);
    var q, r := k / per, k % per;
    TimesStep(r, per, size);
    ModUnique(start + q * CARD_BYTES + r * size, CARD_BYTES, start / CARD_BYTES + q, r * size);
    ModUnique(start + q * CARD_BYTES + r * size + size - 1, CARD_BYTES, start / CARD_BYTES + q, r * size + size - 1);
  }

  /** Different objects of a kind do not overlap. */
  lemma GridApart(start: nat, size: nat, j: nat, k: nat)
    requires start % CARD_BYTES == 0 && Fits(size) && j < k
    ensures PerPage(size) > 0 && Grid(start, size, j) + size <= Grid(start, size, k)
  {
    hide Grid, PerPage, OnOnePage;
    GridOnPage(start, size, j);
    GridOnPage(start, size, k);
    DivMono(j, k, PerPage(size));
    if j / PerPage(size) == k / PerPage(size) {
      GridSamePage(start, size, j, k);
    } else {
      PagesBelow(start, j / PerPage(size), k / PerPage(size));
    }
  }

  lemma GridSamePage(start: nat, size: nat, j: nat, k: nat)
    requires 0 < size && PerPage(size) > 0 && j < k && j / PerPage(size) == k / PerPage(size)
    ensures Grid(start, size, j) + size <= Grid(start, size, k)
  {
    var per := PerPage(size);
    assert j == j / per * per + j % per && k == k / per * per + k % per;
    TimesStep(j % per, k % per, size);
  }

  /** With the pages that were computed for `n` objects of this size, the first `n` places are
      below the end of the area. */
  lemma GridInArea(start: nat, size: nat, n: nat, pages: nat, k: nat)
    requires start % CARD_BYTES == 0 && Fits(size) && size % 16 == 0 && k < n && PagesFor(n, size / 8) == Some(pages)
    ensures PerPage(size) > 0
    ensures start <= Grid(start, size, k) && Grid(start, size, k) + size <= start + pages * CARD_BYTES
  {
    hide PerPage, PagesFor, Grid, Ceil, OnOnePage;
    PagesForBytes(n, size);
    GridOnPage(start, size, k);
    BelowCeil(k, n, PerPage(size));
    PagesBelow(start, k / PerPage(size), pages);
  }

  lemma PagesForBytes(n: nat, size: nat)
    requires Fits(size) && size % 16 == 0
    ensures PerPage(size) > 0 && PagesFor(n, size / 8) == Some(Ceil(n, PerPage(size)))
  {
    var words := size / 8;
    assert words * 8 == size;
    PagesForCeil(n, words);
  }

  lemma BelowCeil(k: nat, n: nat, per: nat)
    requires per > 0 && k < n
    ensures k / per < Ceil(n, per)
  {
    CeilStep(k, per);
    CeilMono(k + 1, n, per);
  }

  lemma PagesBelow(start: nat, q: nat, pages: nat)
    requires q < pages
    ensures start + q * CARD_BYTES + CARD_BYTES == start + (q + 1) * CARD_BYTES <= start + pages * CARD_BYTES
  {
  }

  lemma PagesForCeil(n: nat, words: nat)
    requires 0 < words <= WORDS_PER_PAGE && words % 2 == 0
    ensures PerPage(words * 8) > 0 && PagesFor(n, words) == Some(Ceil(n, PerPage(words * 8)))
  {
    PerPagePositive(words * 8);
    PagesForIsDefinedIff(n, words);
    assert EvenWords(words) == words;
    SamePerPage(words);
  }

  lemma SamePerPage(words: nat)
    requires 0 < words
    ensures WORDS_PER_PAGE / words == PerPage(words * 8)
  {
    var q, r := WORDS_PER_PAGE / words, WORDS_PER_PAGE % words;
    assert WORDS_PER_PAGE == q * words + r;
    assert CARD_BYTES == q * (words * 8) + r * 8;
    ModUnique(CARD_BYTES, words * 8, q, r * 8);
  }

  /** The number of symbols of a kind. */
  function Count(kinds: seq<nat>, kind: nat): nat {
    if kinds == [] then 0 else Count(kinds[..|kinds| - 1], kind) + if kinds[|kinds| - 1] == kind then 1 else 0
  }

  /** The areas of the symbol kinds follow each other; `sizes` are in bytes. */
  ghost predicate AreasOk(starts: seq<nat>, sizes: seq<nat>, kinds: seq<nat>) {
    && |starts| == |sizes| + 1 && (forall k :: 0 <= k < |kinds| ==> kinds[k] < |sizes|)
    && (forall i :: 0 <= i < |sizes| ==> Fits(sizes[i]) && sizes[i] % 16 == 0)
    && (forall i :: 0 <= i < |starts| ==> starts[i] % CARD_BYTES == 0)
    && forall i :: 0 <= i < |sizes| ==>
         && PagesFor(Count(kinds, i), sizes[i] / 8).Some?
         && starts[i + 1] == starts[i] + PagesFor(Count(kinds, i), sizes[i] / 8).value * CARD_BYTES
  }

  const SYMBOL_KINDS: nat := 4

  /** A symbol as it is found on the pages: its kind, and its size in words. */
  datatype Symbol = Symbol(kind: nat, words: nat)

  predicate SymbolOk(y: Symbol) {
    y.kind < SYMBOL_KINDS && y.words > 0 && y.words % 2 == 0
  }

  function Kinds(symbols: seq<Symbol>): (ks: seq<nat>)
    ensures |ks| == |symbols|
  {
    seq(|symbols|, i requires 0 <= i < |symbols| => symbols[i].kind)
  }

  predicate Occurs(symbols: seq<Symbol>, kind: nat) {
    exists i :: 0 <= i < |symbols| && symbols[i].kind == kind
  }

  /** The size of the first symbol of a kind, 0 if there is none. */
  function SizeOfKind(symbols: seq<Symbol>, kind: nat): nat {
    if symbols == [] then 0
    else
      var earlier, last := SizeOfKind(symbols[..|symbols| - 1], kind), symbols[|symbols| - 1];
      if earlier == 0 && last.kind == kind then last.words else earlier
  }

  /** All symbols have the size of the first of their kind. */
  ghost predicate Uniform(symbols: seq<Symbol>) {
    forall i, j :: 0 <= i < j < |symbols| && symbols[i].kind == symbols[j].kind ==> symbols[i].words == symbols[j].words
  }

  lemma {:induction false} SizeOfKindIs(symbols: seq<Symbol>, kind: nat)
    requires forall i :: 0 <= i < |symbols| ==> SymbolOk(symbols[i])
    ensures SizeOfKind(symbols, kind) > 0 <==> Occurs(symbols, kind)
    ensures SizeOfKind(symbols, kind) > 0 ==>
              exists i :: 0 <= i < |symbols| && symbols[i] == Symbol(kind, SizeOfKind(symbols, kind))
    ensures SizeOfKind(symbols, kind) % 2 == 0
  {
    if symbols != [] {
      var init, last := symbols[..|symbols| - 1], symbols[|symbols| - 1];
      SizeOfKindIs(init, kind);
      if i :| 0 <= i < |init| && init[i] == Symbol(kind, SizeOfKind(init, kind)) {
        assert symbols[i] == init[i];
      }
      assert symbols[|symbols| - 1] == last && SymbolOk(last);
    }
  }

  lemma UniformStep(symbols: seq<Symbol>, n: nat)
    requires n < |symbols| && (forall i :: 0 <= i < |symbols| ==> SymbolOk(symbols[i])) && Uniform(symbols[..n])
    ensures var y := symbols[n];
            var size := SizeOfKind(symbols[..n], y.kind);
            Uniform(symbols[..n + 1]) <==> size == 0 || size == y.words
  {
    var y := symbols[n];
    var size := SizeOfKind(symbols[..n], y.kind);
    SizeOfKindIs(symbols[..n], y.kind);
    if size != 0 {
      var i :| 0 <= i < n && symbols[..n][i] == Symbol(y.kind, size);
      assert symbols[..n + 1][i] == symbols[i] && symbols[..n + 1][n] == y;
      forall j | 0 <= j < n && symbols[j].kind == y.kind && Uniform(symbols[..n]) ensures symbols[j].words == size {
        assert symbols[..n][j] == symbols[j];
      }
    } else {
      forall j | 0 <= j < n ensures symbols[j].kind != y.kind { assert symbols[..n][j] == symbols[j]; }
    }
    assert forall j :: 0 <= j < n ==> symbols[..n + 1][j] == symbols[..n][j] == symbols[j];
  }

  /** The first walk over the pages: counts and sizes by kind. The assertion that all symbols of a
      kind have one size fails exactly if they do not. */
  method SymbolHistogram(symbols: seq<Symbol>) returns (ok: bool, sizes: seq<nat>, counts: seq<nat>)
    requires forall i :: 0 <= i < |symbols| ==> SymbolOk(symbols[i])
    ensures ok <==> Uniform(symbols)
    ensures ok ==> |sizes| == |counts| == SYMBOL_KINDS
    ensures ok ==> forall k :: 0 <= k < SYMBOL_KINDS ==>
              sizes[k] == SizeOfKind(symbols, k) && counts[k] == Count(Kinds(symbols), k)
  {
    sizes, counts := seq(SYMBOL_KINDS, _ => 0), seq(SYMBOL_KINDS, _ => 0);
    for n := 0 to |symbols|
      invariant |sizes| == |counts| == SYMBOL_KINDS && Uniform(symbols[..n])
      invariant forall k :: 0 <= k < SYMBOL_KINDS ==>
                  sizes[k] == SizeOfKind(symbols[..n], k) && counts[k] == Count(Kinds(symbols[..n]), k)
    {
      var y := symbols[n];
      assert SymbolOk(y);
      UniformStep(symbols, n);
      HistogramNext(symbols, n);
      hide SizeOfKind, Count, Uniform;
      counts := counts[y.kind := counts[y.kind] + 1];
      if sizes[y.kind] == 0 {
        sizes := sizes[y.kind := y.words];
      }
      if sizes[y.kind] != y.words {
        NotUniform(symbols, n + 1);
        return false, sizes, counts;
      }
    }
    assert symbols[..|symbols|] == symbols;
    ok := true;
  }

  lemma HistogramNext(symbols: seq<Symbol>, n: nat)
    requires n < |symbols|
    ensures forall k: nat :: SizeOfKind(symbols[..n + 1], k) ==
              if SizeOfKind(symbols[..n], k) == 0 && symbols[n].kind == k then symbols[n].words
              else SizeOfKind(symbols[..n], k)
    ensures forall k: nat :: Count(Kinds(symbols[..n + 1]), k) ==
              Count(Kinds(symbols[..n]), k) + if symbols[n].kind == k then 1 else 0
  {
    assert symbols[..n + 1][..n] == symbols[..n];
    var ks := Kinds(symbols[..n + 1]);
    assert ks[..n] == Kinds(symbols[..n]) && ks[n] == symbols[n].kind;
  }

  lemma NotUniform(symbols: seq<Symbol>, n: nat)
    requires n <= |symbols| && !Uniform(symbols[..n])
    ensures !Uniform(symbols)
  {
    var i, j :| 0 <= i < j < n && symbols[..n][i].kind == symbols[..n][j].kind &&
        symbols[..n][i].words != symbols[..n][j].words;
    assert symbols[i] == symbols[..n][i] && symbols[j] == symbols[..n][j];
  }

  /** The pages are counted after the walk: nothing if the computation ends in an assertion failure or
      a division by zero. It does so exactly if two symbols of a kind differ in size, some kind does
      not occur at all, or some kind is larger than a page. */
  method SymbolAreas(first: nat, symbols: seq<Symbol>) returns (areas: Option<seq<nat>>, sizes: seq<nat>)
    requires first % CARD_BYTES == 0 && forall i :: 0 <= i < |symbols| ==> SymbolOk(symbols[i])
    ensures areas.Some? <==> Uniform(symbols) && forall k: nat :: k < SYMBOL_KINDS ==>
              Occurs(symbols, k) && SizeOfKind(symbols, k) <= WORDS_PER_PAGE
    ensures areas.Some? ==>
              && |sizes| == SYMBOL_KINDS
              && (forall k :: 0 <= k < SYMBOL_KINDS ==> sizes[k] == 8 * SizeOfKind(symbols, k))
              && AreasOk(areas.value, sizes, Kinds(symbols)) && areas.value[0] == first
  {
    var ok, words, counts := SymbolHistogram(symbols);
    if !ok { return None, []; }
    forall k: nat | k < SYMBOL_KINDS
      ensures words[k] == SizeOfKind(symbols, k) && words[k] % 2 == 0 && (words[k] > 0 <==> Occurs(symbols, k))
    {
      SizeOfKindIs(symbols, k);
    }
    hide SizeOfKind, Occurs, Uniform, PagesFor, Count;
    sizes := seq(SYMBOL_KINDS, k requires 0 <= k < SYMBOL_KINDS => 8 * words[k]);
    areas := LayOutAreas(first, sizes, counts, Kinds(symbols));
  }

  /** The loop over the kinds in defrag_immobile_space. It divides by zero exactly if some kind has size
      0 or is larger than a page. */
  method LayOutAreas(first: nat, sizes: seq<nat>, counts: seq<nat>,
                     ghost kinds: seq<nat>) returns (areas: Option<seq<nat>>)
    requires first % CARD_BYTES == 0 && |counts| == |sizes|
    requires forall k :: 0 <= k < |kinds| ==> kinds[k] < |sizes|
    requires forall i :: 0 <= i < |sizes| ==> sizes[i] % 16 == 0 && counts[i] == Count(kinds, i)
    ensures areas.Some? <==> forall i :: 0 <= i < |sizes| ==> Fits(sizes[i])
    ensures areas.Some? ==> AreasOk(areas.value, sizes, kinds) && areas.value[0] == first
  {
    hide PagesFor, Fits, Count;
    var starts: seq<nat> := [first];
    for i := 0 to |sizes|
      invariant |starts| == i + 1 && starts[0] == first
      invariant forall k :: 0 <= k < |starts| ==> starts[k] % CARD_BYTES == 0
      invariant forall k :: 0 <= k < i ==> Fits(sizes[k])
      invariant forall k :: 0 <= k < i ==>
                  && PagesFor(Count(kinds, k), sizes[k] / 8).Some?
                  && starts[k + 1] == starts[k] + PagesFor(Count(kinds, k), sizes[k] / 8).value * CARD_BYTES
    {
      AreaStep(starts[i], Count(kinds, i), sizes[i]);
      var pages := PagesFor(counts[i], sizes[i] / 8);
      if pages.None? { return None; }
      starts := starts + [starts[i] + pages.value * CARD_BYTES];
    }
    areas := Some(starts);
  }

  /** A heap with symbols of one kind only: for the others the page computation divides by zero. */
  lemma MissingKindDividesByZero()
    ensures var symbols := [Symbol(0, 6)];
            && SymbolOk(symbols[0]) && Uniform(symbols)
            && SizeOfKind(symbols, 1) == 0 && PagesFor(Count(Kinds(symbols), 1), SizeOfKind(symbols, 1)) == None
  {
    var symbols := [Symbol(0, 6)];
    assert symbols[..0] == [];
  }

  lemma AreaStep(start: nat, n: nat, size: nat)
    requires start % CARD_BYTES == 0 && size % 16 == 0
    ensures var pages := PagesFor(n, size / 8);
            (pages.Some? <==> Fits(size)) && (pages.Some? ==> (start + pages.value * CARD_BYTES) % CARD_BYTES == 0)
  {
    var pages := PagesFor(n, size / 8);
    PagesForIsDefinedIff(n, size / 8);
    if pages.Some? {
      MultipleMod(pages.value, CARD_BYTES);
      SumMultiple(start, pages.value * CARD_BYTES, CARD_BYTES);
    }
  }

  /** Place the symbols in the order in which the pages are scanned, which mixes the kinds. */
  method PlaceSymbols(kinds: seq<nat>, pointers: array<nat>, sizes: seq<nat>) returns (places: seq<nat>)
    requires |sizes| <= pointers.Length && forall k :: 0 <= k < |kinds| ==> kinds[k] < |sizes|
    modifies pointers
    ensures |places| == |kinds|
    ensures forall j :: 0 <= j < |kinds| ==> places[j] == SymbolPlace(old(pointers[..]), sizes, kinds, j)
  {
    places := [];
    ghost var starts := pointers[..];
    for j := 0 to |kinds|
      invariant |places| == j
      invariant forall i :: 0 <= i < |sizes| ==> pointers[i] == PointerAt(starts, sizes, kinds, j, i)
      invariant forall k :: 0 <= k < j ==> places[k] == SymbolPlace(starts, sizes, kinds, k)
    {
      var kind := kinds[j];
      var to := PlaceAt(pointers[kind], sizes[kind]);
      assert to == SymbolPlace(starts, sizes, kinds, j);
      forall i | 0 <= i < |sizes| ensures PointerAt(starts, sizes, kinds, j + 1, i) ==
          if i == kind then to + sizes[i] else PointerAt(starts, sizes, kinds, j, i)
      {
        PointerStep(starts, sizes, kinds, j, i);
      }
      hide PointerAt, PlaceAt, SymbolPlace;
      pointers[kind] := to + sizes[kind];
      places := places + [to];
    }
  }

  function SymbolPlace(starts: seq<nat>, sizes: seq<nat>, kinds: seq<nat>, j: nat): nat
    requires j < |kinds| && kinds[j] < |sizes| <= |starts|
  {
    PlaceAt(PointerAt(starts, sizes, kinds, j, kinds[j]), sizes[kinds[j]])
  }

  /** The pointer of a kind when `j` symbols have been placed. */
  function PointerAt(starts: seq<nat>, sizes: seq<nat>, kinds: seq<nat>, j: nat, kind: nat): nat
    requires kind < |sizes| <= |starts| && j <= |kinds|
  {
    Pointer(starts[kind], sizes[kind], Count(kinds[..j], kind))
  }

  lemma PointerStep(starts: seq<nat>, sizes: seq<nat>, kinds: seq<nat>, j: nat, kind: nat)
    requires kind < |sizes| <= |starts| && j < |kinds|
    ensures var was := PointerAt(starts, sizes, kinds, j, kind);
            PointerAt(starts, sizes, kinds, j + 1, kind) ==
              if kinds[j] == kind then PlaceAt(was, sizes[kind]) + sizes[kind] else was
  {
    assert kinds[..j + 1][..j] == kinds[..j];
  }

  lemma {:induction false} CountPrefix(kinds: seq<nat>, j: nat, k: nat, kind: nat)
    requires j <= k <= |kinds|
    ensures Count(kinds[..j], kind) <= Count(kinds[..k], kind)
    ensures j < k && kinds[j] == kind ==> Count(kinds[..j], kind) < Count(kinds[..k], kind)
  {
    if j < k {
      CountPrefix(kinds, j, k - 1, kind);
      assert kinds[..k][..k - 1] == kinds[..k - 1];
    }
  }

  lemma {:induction false} StartsGrow(starts: seq<nat>, sizes: seq<nat>, kinds: seq<nat>, i: nat, j: nat)
    requires AreasOk(starts, sizes, kinds) && i <= j < |starts|
    ensures starts[i] <= starts[j]
  {
    if i < j { StartsGrow(starts, sizes, kinds, i, j - 1); }
  }

  function SymbolRange(starts: seq<nat>, sizes: seq<nat>, kinds: seq<nat>, j: nat): Range
    requires j < |kinds| && kinds[j] < |sizes| <= |starts|
  {
    var at := SymbolPlace(starts, sizes, kinds, j);
    Range(at, at + sizes[kinds[j]])
  }

  /** The symbol is on the grid of its kind. */
  lemma SymbolOnGrid(starts: seq<nat>, sizes: seq<nat>, kinds: seq<nat>, j: nat)
    requires AreasOk(starts, sizes, kinds) && j < |kinds|
    ensures var kind := kinds[j];
            && PerPage(sizes[kind]) > 0
            && SymbolRange(starts, sizes, kinds, j) == GridRange(starts[kind], sizes[kind], Count(kinds[..j], kind))
  {
    var kind := kinds[j];
    PlacesAreGrid(starts[kind], sizes[kind], Count(kinds[..j], kind));
  }

  /** Each symbol is on one page, in the area of its kind. */
  lemma SymbolInArea(starts: seq<nat>, sizes: seq<nat>, kinds: seq<nat>, j: nat)
    requires AreasOk(starts, sizes, kinds) && j < |kinds|
    ensures var r, kind := SymbolRange(starts, sizes, kinds, j), kinds[j];
            OnOnePage(r) && starts[kind] <= r.lo && r.hi <= starts[kind + 1] <= starts[|sizes|] && starts[0] <= r.lo
  {
    var kind := kinds[j];
    var n, earlier := Count(kinds, kind), Count(kinds[..j], kind);
    CountPrefix(kinds, j, |kinds|, kind);
    assert kinds[..|kinds|] == kinds;
    SymbolOnGrid(starts, sizes, kinds, j);
    GridOnPage(starts[kind], sizes[kind], earlier);
    GridInArea(starts[kind], sizes[kind], n, PagesFor(n, sizes[kind] / 8).value, earlier);
    StartsGrow(starts, sizes, kinds, 0, kind);
    StartsGrow(starts, sizes, kinds, kind + 1, |sizes|);
  }

  /** No two symbols overlap. */
  lemma SymbolsAreApart(starts: seq<nat>, sizes: seq<nat>, kinds: seq<nat>, j: nat, k: nat)
    requires AreasOk(starts, sizes, kinds) && j < k < |kinds|
    ensures Apart(SymbolRange(starts, sizes, kinds, j), SymbolRange(starts, sizes, kinds, k))
  {
    SymbolInArea(starts, sizes, kinds, j);
    SymbolInArea(starts, sizes, kinds, k);
    var a, b := kinds[j], kinds[k];
    if a == b {
      CountPrefix(kinds, j, k, a);
      SymbolOnGrid(starts, sizes, kinds, j);
      SymbolOnGrid(starts, sizes, kinds, k);
      GridApart(starts[a], sizes[a], Count(kinds[..j], a), Count(kinds[..k], a));
    } else if a < b {
      StartsGrow(starts, sizes, kinds, a + 1, b);
    } else {
      StartsGrow(starts, sizes, kinds, b + 1, a);
    }
  }

  // ---- Layouts: place_layout ----

  function ClassWords(i: nat): nat { 8 + 2 * i }

  function ClassBytes(i: nat): nat { ClassWords(i) * 8 }

  /** nwords_to_layout_size_class; nothing if the layout is too large. */
  function ClassOf(nwords: nat): Option<nat> {
    var index := if nwords <= 8 then 0 else (nwords - 8) / 2;
    if index >= SIZE_CLASSES then None else Some(index)
  }

  /** A layout has as many words as its class exactly if it has at least 8. */
  lemma ClassIsExactIff(nwords: nat)
    requires nwords % 2 == 0 && ClassOf(nwords).Some?
    ensures ClassWords(ClassOf(nwords).value) == nwords <==> nwords >= 8
  {
  }

  /** How many layouts are put on a page that is opened for one of `nwords`. */
  function RunOf(nwords: nat): nat
    requires nwords > 0
  {
    WORDS_PER_PAGE / nwords
  }

  lemma RunFits(nwords: nat)
    requires 0 < nwords <= WORDS_PER_PAGE
    ensures RunOf(nwords) > 0 && RunOf(nwords) * nwords <= WORDS_PER_PAGE < (RunOf(nwords) + 1) * nwords
  {
    assert WORDS_PER_PAGE == RunOf(nwords) * nwords + WORDS_PER_PAGE % nwords;
    assert (RunOf(nwords) + 1) * nwords == RunOf(nwords) * nwords + nwords;
    MulAtLeast(RunOf(nwords), nwords);
  }

  /** The run is counted in words of the layout, but the pointer is bumped by the words of the
      class: the last layout of a run ends on its page exactly if layouts have at least 8 words. */
  lemma RunStaysOnPageIff(nwords: nat)
    requires nwords > 0 && nwords % 2 == 0 && ClassOf(nwords).Some?
    ensures (RunOf(nwords) - 1) * ClassBytes(ClassOf(nwords).value) + nwords * 8 <= CARD_BYTES <==> nwords >= 8
  {
    RunFits(nwords);
    if nwords >= 8 {
      ClassIsExactIff(nwords);
      assert (RunOf(nwords) - 1) * (nwords * 8) + nwords * 8 == RunOf(nwords) * nwords * 8;
    } else {
      assert nwords == 2 || nwords == 4 || nwords == 6;
    }
  }

  /** Layouts of 6 words: 85 are put on a page at a spacing of 64 bytes, so the last ends behind it. */
  lemma SixWordsOverflow()
    ensures ClassOf(6) == Some(0) && RunOf(6) == 85 && (RunOf(6) - 1) * ClassBytes(0) + 6 * 8 == 5424 > CARD_BYTES
  {
  }

  /** `ptr` and `count` are the size classes, `alloc` is the next free page. `tally` counts the
      layouts of each class so far and `placed` records where they went. */
  datatype Layouts = Layouts(base: nat, alloc: nat, ptr: seq<nat>, count: seq<nat>, tally: seq<nat>, placed: seq<Range>)

  /** Begin a page for class `c`, if it has none with room. */
  function Open(s: Layouts, c: nat, nwords: nat): Layouts
    requires c < |s.ptr| == |s.count| && nwords > 0
  {
    if s.count[c] == 0 then
      s.(ptr := s.ptr[c := s.alloc], count := s.count[c := RunOf(nwords)], alloc := s.alloc + CARD_BYTES)
    else s
  }

  /** Put a layout at the pointer of its class. */
  function Put(s: Layouts, c: nat, nwords: nat): Layouts
    requires c < |s.ptr| == |s.count| == |s.tally| && s.count[c] > 0
  {
    s.(ptr := s.ptr[c := s.ptr[c] + ClassBytes(c)], count := s.count[c := s.count[c] - 1],
       tally := s.tally[c := s.tally[c] + 1], placed := s.placed + [Range(s.ptr[c], s.ptr[c] + nwords * 8)])
  }

  function PerClass(i: nat): (n: nat)
    requires i < SIZE_CLASSES
    ensures n > 0
  {
    RunFits(ClassWords(i));
    RunOf(ClassWords(i))
  }

  function PageOf(a: nat): nat { a / CARD_BYTES }

  ghost predicate Sized(s: Layouts) {
    && |s.ptr| == |s.count| == |s.tally| == SIZE_CLASSES && s.base % CARD_BYTES == 0
    && s.alloc % CARD_BYTES == 0 && s.base <= s.alloc
  }

  /** An open class has room on its page for as many layouts as it counts. */
  ghost predicate OpenOk(s: Layouts, i: nat)
    requires i < |s.ptr| == |s.count|
  {
    s.count[i] > 0 ==>
      && s.base <= s.ptr[i] && PageOf(s.ptr[i]) * CARD_BYTES + CARD_BYTES <= s.alloc
      && s.ptr[i] + s.count[i] * ClassBytes(i) <= PageOf(s.ptr[i]) * CARD_BYTES + CARD_BYTES
  }

  /** A placed layout is on one page, below the pointer of the class that has the page open. */
  ghost predicate PlacedOk(s: Layouts, r: Range) {
    && OnOnePage(r) && s.base <= r.lo && r.hi <= s.alloc
    && forall i :: 0 <= i < |s.ptr| && i < |s.count| && s.count[i] > 0 && PageOf(s.ptr[i]) == PageOf(r.lo) ==>
        r.hi <= s.ptr[i]
  }

  ghost predicate PagesApart(s: Layouts) {
    forall i, j :: 0 <= i < j < |s.ptr| && j < |s.count| && s.count[i] > 0 && s.count[j] > 0 ==>
        PageOf(s.ptr[i]) != PageOf(s.ptr[j])
  }

  ghost predicate PlacedApart(s: Layouts) {
    forall j, k :: 0 <= j < k < |s.placed| ==> Apart(s.placed[j], s.placed[k])
  }

  function TotalPages(tally: seq<nat>): nat
    requires |tally| <= SIZE_CLASSES
  {
    if tally == [] then 0
    else TotalPages(tally[..|tally| - 1]) + Ceil(tally[|tally| - 1], PerClass(|tally| - 1))
  }

  /** What is left of the pages of a class is the room that it counts. */
  ghost predicate TallyOk(tally: nat, count: nat, per: nat)
    requires per > 0
  {
    tally + count == Ceil(tally, per) * per && count < per
  }

  ghost predicate TalliesOk(s: Layouts) {
    && |s.tally| == |s.count| == SIZE_CLASSES
    && s.alloc == s.base + TotalPages(s.tally) * CARD_BYTES
    && forall i :: 0 <= i < SIZE_CLASSES ==> TallyOk(s.tally[i], s.count[i], PerClass(i))
  }

  ghost predicate Geometry(s: Layouts) {
    && Sized(s) && PagesApart(s) && PlacedApart(s)
    && (forall i :: 0 <= i < SIZE_CLASSES ==> OpenOk(s, i))
    && forall k :: 0 <= k < |s.placed| ==> PlacedOk(s, s.placed[k])
  }

  ghost predicate Inv(s: Layouts) {
    Geometry(s) && TalliesOk(s)
  }

  lemma PageFacts(alloc: nat)
    requires alloc % CARD_BYTES == 0
    ensures PageOf(alloc) * CARD_BYTES == alloc && (alloc + CARD_BYTES) % CARD_BYTES == 0
    ensures forall a: nat :: a < alloc ==> PageOf(a) < PageOf(alloc)
  {
  }

  lemma OpenKeepsGeometry(s: Layouts, c: nat)
    requires Geometry(s) && c < SIZE_CLASSES
    ensures Geometry(Open(s, c, ClassWords(c))) && Open(s, c, ClassWords(c)).count[c] > 0
  {
    var r := Open(s, c, ClassWords(c));
    RunFits(ClassWords(c));
    if s.count[c] == 0 {
      PageFacts(s.alloc);
      RunInBytes(c);
      hide PageOf, ClassBytes, RunOf;
      forall i | 0 <= i < SIZE_CLASSES ensures OpenOk(r, i) { assert OpenOk(s, i); }
      forall i | 0 <= i < SIZE_CLASSES && i != c && s.count[i] > 0 ensures PageOf(s.ptr[i]) < PageOf(s.alloc) {
        assert OpenOk(s, i);
      }
      forall k | 0 <= k < |s.placed| ensures PlacedOk(r, s.placed[k]) { assert PlacedOk(s, s.placed[k]); }
    }
  }

  lemma RunInBytes(c: nat)
    requires c < SIZE_CLASSES
    ensures RunOf(ClassWords(c)) * ClassBytes(c) <= CARD_BYTES
  {
    RunFits(ClassWords(c));
    var n, w := RunOf(ClassWords(c)), ClassWords(c);
    assert n * (w * 8) == n * w * 8;
  }

  /** An address before the end of its page, and the page of what is below it. */
  lemma WithinPage(a: nat, n: nat, rest: nat)
    requires n > 0 && a + n + rest <= PageOf(a) * CARD_BYTES + CARD_BYTES
    ensures OnOnePage(Range(a, a + n))
    ensures a + n < PageOf(a) * CARD_BYTES + CARD_BYTES ==> PageOf(a + n) == PageOf(a)
  {
    var p := PageOf(a);
    assert a == p * CARD_BYTES + a % CARD_BYTES;
    ModUnique(a + n - 1, CARD_BYTES, p, a + n - 1 - p * CARD_BYTES);
    if a + n < p * CARD_BYTES + CARD_BYTES {
      ModUnique(a + n, CARD_BYTES, p, a + n - p * CARD_BYTES);
    }
  }

  lemma PutKeepsGeometry(s: Layouts, c: nat)
    requires Geometry(s) && c < SIZE_CLASSES && s.count[c] > 0
    ensures Geometry(Put(s, c, ClassWords(c)))
  {
    var r, n, at := Put(s, c, ClassWords(c)), ClassBytes(c), s.ptr[c];
    PointerAfter(s, c);
    hide PageOf, ClassBytes, OpenOk;
    forall i | 0 <= i < SIZE_CLASSES && i != c ensures OpenOk(r, i) { SameOpen(s, r, i); }
    forall k | 0 <= k < |s.placed| ensures PlacedOk(r, s.placed[k]) { assert PlacedOk(s, s.placed[k]); }
  }

  lemma SameOpen(s: Layouts, r: Layouts, i: nat)
    requires i < |s.ptr| == |s.count| == |r.ptr| == |r.count| && OpenOk(s, i)
    requires r.ptr[i] == s.ptr[i] && r.count[i] == s.count[i] && r.base == s.base && r.alloc == s.alloc
    ensures OpenOk(r, i)
  {
  }

  /** The pointer of the class moves to the end of the new layout, and stays on the page as long as
      there is room. */
  lemma PointerAfter(s: Layouts, c: nat)
    requires Geometry(s) && c < SIZE_CLASSES && s.count[c] > 0
    ensures var r, at, end := Put(s, c, ClassWords(c)), s.ptr[c], s.ptr[c] + ClassBytes(c);
            && OpenOk(r, c) && OnOnePage(Range(at, end)) && s.base <= at && end <= s.alloc
            && (r.count[c] > 0 ==> PageOf(end) == PageOf(at))
  {
    var n, at, left := ClassBytes(c), s.ptr[c], s.count[c] - 1;
    assert OpenOk(s, c);
    assert s.count[c] * n == n + left * n;
    WithinPage(at, n, left * n);
    if left > 0 { MulAtLeast(left, n); }
  }

  lemma TallyStep(tally: nat, count: nat, per: nat)
    requires per > 0 && TallyOk(tally, count, per)
    ensures var room := if count == 0 then per else count;
            TallyOk(tally + 1, room - 1, per) && Ceil(tally + 1, per) == Ceil(tally, per) + if count == 0 then 1 else 0
  {
    var c := Ceil(tally, per);
    CeilStep(tally, per);
    assert tally == c * per - count;
    assert tally == tally / per * per + tally % per;
    if count == 0 {
      ModUnique(tally, per, c, 0);
    } else {
      assert (c - 1) * per == c * per - per;
      ModUnique(tally, per, c - 1, per - count);
    }
    assert (c + 1) * per == c * per + per;
  }

  lemma {:induction false} TotalStep(tally: seq<nat>, c: nat, n: nat)
    requires c < |tally| <= SIZE_CLASSES
    ensures TotalPages(tally[c := n]) == TotalPages(tally) - Ceil(tally[c], PerClass(c)) + Ceil(n, PerClass(c))
  {
    var last := |tally| - 1;
    if c == last {
      assert tally[c := n][..last] == tally[..last];
    } else {
      assert tally[c := n][..last] == tally[..last][c := n];
      TotalStep(tally[..last], c, n);
    }
  }

  /** The state after one more layout of class `c`. */
  function Placed(s: Layouts, c: nat, nwords: nat): Layouts
    requires c < |s.ptr| == |s.count| == |s.tally| && 0 < nwords <= WORDS_PER_PAGE
  {
    RunFits(nwords);
    Put(Open(s, c, nwords), c, nwords)
  }

  lemma PlacedKeepsTallies(s: Layouts, c: nat)
    requires Sized(s) && TalliesOk(s) && c < SIZE_CLASSES
    ensures TalliesOk(Placed(s, c, ClassWords(c)))
  {
    var r := Placed(s, c, ClassWords(c));
    TallyStep(s.tally[c], s.count[c], PerClass(c));
    TotalStep(s.tally, c, s.tally[c] + 1);
    hide Ceil, PerClass, TotalPages, TallyOk;
    assert r.tally == s.tally[c := s.tally[c] + 1];
    PerClassIsRun(c);
    assert r.count[c] == (if s.count[c] == 0 then PerClass(c) else s.count[c]) - 1;
  }

  lemma PerClassIsRun(c: nat)
    requires c < SIZE_CLASSES
    ensures PerClass(c) == RunOf(ClassWords(c))
  {
  }

  /** Placing a layout of at least 8 words keeps all of it. */
  lemma PlacedKeepsInv(s: Layouts, c: nat)
    requires Inv(s) && c < SIZE_CLASSES
    ensures Inv(Placed(s, c, ClassWords(c)))
  {
    PlacedKeepsTallies(s, c);
    OpenKeepsGeometry(s, c);
    PutKeepsGeometry(Open(s, c, ClassWords(c)), c);
  }

  lemma {:induction false} TotalMono(tally: seq<nat>, histogram: seq<nat>)
    requires |tally| == |histogram| <= SIZE_CLASSES && forall i :: 0 <= i < |tally| ==> tally[i] <= histogram[i]
    ensures TotalPages(tally) <= TotalPages(histogram)
  {
    if tally != [] {
      var last := |tally| - 1;
      TotalMono(tally[..last], histogram[..last]);
      CeilMono(tally[last], histogram[last], PerClass(last));
    }
  }

  /** The number of layouts of a class among the first `k`. */
  function ClassCount(sizes: seq<nat>, k: nat, c: int): nat
    requires k <= |sizes|
  {
    if k == 0 then 0
    else
      var last := ClassOf(sizes[k - 1]);
      ClassCount(sizes, k - 1, c) + if last.Some? && last.value == c then 1 else 0
  }

  /** How many layouts of each class there are among the first `k`. */
  function Histogram(sizes: seq<nat>, k: nat): (h: seq<nat>)
    requires k <= |sizes|
    ensures |h| == SIZE_CLASSES
  {
    seq(SIZE_CLASSES, c => ClassCount(sizes, k, c))
  }

  lemma HistogramStep(sizes: seq<nat>, k: nat, c: nat)
    requires k < |sizes| && ClassOf(sizes[k]) == Some(c)
    ensures c < SIZE_CLASSES && Histogram(sizes, k + 1) == Histogram(sizes, k)[c := Histogram(sizes, k)[c] + 1]
  {
  }

  predicate Placeable(sizes: seq<nat>) {
    forall k :: 0 <= k < |sizes| ==> sizes[k] >= 8 && sizes[k] % 2 == 0 && ClassOf(sizes[k]).Some?
  }

  /** The pages needed for a histogram: the first loop of the space computation. */
  method LayoutPages(histogram: seq<nat>) returns (pages: nat)
    requires |histogram| == SIZE_CLASSES
    ensures pages == TotalPages(histogram)
  {
    pages := 0;
    for i := 0 to SIZE_CLASSES
      invariant pages == TotalPages(histogram[..i])
    {
      PagesForIsDefinedIff(histogram[i], ClassWords(i));
      assert EvenWords(ClassWords(i)) == ClassWords(i);
      pages := pages + PagesFor(histogram[i], ClassWords(i)).value;
      assert histogram[..i + 1][..i] == histogram[..i];
    }
    assert histogram[..SIZE_CLASSES] == histogram;
  }

  lemma EmptyIsOk(base: nat)
    requires base % CARD_BYTES == 0
    ensures var zeros := seq(SIZE_CLASSES, _ => 0); Inv(Layouts(base, base, zeros, zeros, zeros, []))
  {
    NoPages(seq(SIZE_CLASSES, _ => 0));
    forall i | 0 <= i < SIZE_CLASSES ensures TallyOk(0, 0, PerClass(i)) { CeilStep(0, PerClass(i)); }
  }

  class SizeClasses {
    const base: nat
    const ptr: array<nat>
    const count: array<nat>
    var alloc: nat
    ghost var tally: seq<nat>
    ghost var placed: seq<Range>

    ghost function Current(): Layouts
      reads this, ptr, count
    {
      Layouts(base, alloc, ptr[..], count[..], tally, placed)
    }

    ghost predicate Shaped()
      reads this
    {
      ptr != count && ptr.Length == count.Length == |tally| == SIZE_CLASSES
    }

    constructor (base: nat)
      requires base % CARD_BYTES == 0
      ensures Shaped() && Inv(Current()) && fresh(ptr) && fresh(count) && this.base == base
      ensures placed == [] && tally == seq(SIZE_CLASSES, _ => 0)
    {
      this.base, alloc := base, base;
      ptr := new nat[SIZE_CLASSES](_ => 0);
      count := new nat[SIZE_CLASSES](_ => 0);
      tally := seq(SIZE_CLASSES, _ => 0);
      placed := [];
      new;
      assert Current() == Layouts(base, base, seq(SIZE_CLASSES, _ => 0), seq(SIZE_CLASSES, _ => 0),
               seq(SIZE_CLASSES, _ => 0), []);
      hide Inv;
      EmptyIsOk(base);
    }

    /** The first `k` layouts have been placed. */
    ghost predicate Ready(sizes: seq<nat>, k: nat)
      requires k <= |sizes|
      reads this, ptr, count
    {
      Shaped() && Inv(Current()) && tally == Histogram(sizes, k)
    }

    method PlaceNext(sizes: seq<nat>, k: nat) returns (at: nat)
      requires Placeable(sizes) && k < |sizes| && Ready(sizes, k)
      modifies this`alloc, this`tally, this`placed, ptr, count
      ensures Ready(sizes, k + 1) && placed == old(placed) + [Range(at, at + sizes[k] * 8)]
    {
      var c := ClassOf(sizes[k]).value;
      NextLayout(Current(), sizes, k, c);
      hide Inv, TotalPages, Histogram, ClassOf, Placed;
      assert alloc <= base + TotalPages(Histogram(sizes, |sizes|)) * CARD_BYTES;
      at := Place(c, sizes[k]);
    }

    /** place_layout for a layout of `nwords`, whose class is `c`. */
    method Place(c: nat, nwords: nat) returns (at: nat)
      requires Shaped() && 0 < nwords <= WORDS_PER_PAGE && ClassOf(nwords) == Some(c)
      modifies this`alloc, this`tally, this`placed, ptr, count
      ensures Shaped() && Current() == Placed(old(Current()), c, nwords)
      ensures placed == old(placed) + [Range(at, at + nwords * 8)]
    {
      RunFits(nwords);
      if count[c] == 0 {
        ptr[c] := alloc;
        count[c] := WORDS_PER_PAGE / nwords;
        alloc := alloc + CARD_BYTES;
      }
      count[c] := count[c] - 1;
      at := ptr[c];
      ptr[c] := ptr[c] + ClassWords(c) * 8;
      tally := tally[c := tally[c] + 1];
      placed := placed + [Range(at, at + nwords * 8)];
    }
  }

  lemma {:induction false} NoPages(tally: seq<nat>)
    requires |tally| <= SIZE_CLASSES && forall i :: 0 <= i < |tally| ==> tally[i] == 0
    ensures TotalPages(tally) == 0
  {
    if tally != [] {
      NoPages(tally[..|tally| - 1]);
      CeilStep(0, PerClass(|tally| - 1));
    }
  }

  /** Place all layouts, in any order of sizes. No two overlap, none crosses a page, and together
      they use exactly the pages that were computed from the numbers of each class. */
  method PlaceLayouts(base: nat, sizes: seq<nat>) returns (places: seq<Range>, end: nat)
    requires base % CARD_BYTES == 0 && Placeable(sizes)
    ensures |places| == |sizes| && forall k :: 0 <= k < |sizes| ==> places[k].hi == places[k].lo + sizes[k] * 8
    ensures forall k :: 0 <= k < |places| ==> base <= places[k].lo && places[k].hi <= end && OnOnePage(places[k])
    ensures forall j, k :: 0 <= j < k < |places| ==> Apart(places[j], places[k])
    ensures end == base + TotalPages(Histogram(sizes, |sizes|)) * CARD_BYTES
  {
    hide Inv, TotalPages, Histogram, ClassOf, OnOnePage, Apart, Placeable;
    var classes := new SizeClasses(base);
    HistogramZero(sizes);
    places := [];
    for k := 0 to |sizes|
      invariant |places| == k && places == classes.placed
      invariant classes.Ready(sizes, k) && classes.base == base
      invariant fresh(classes) && fresh(classes.ptr) && fresh(classes.count)
      invariant forall j :: 0 <= j < k ==> places[j].hi == places[j].lo + sizes[j] * 8
    {
      var at := classes.PlaceNext(sizes, k);
      places := places + [Range(at, at + sizes[k] * 8)];
    }
    end := classes.alloc;
    InvMeans(classes.Current());
  }

  lemma HistogramZero(sizes: seq<nat>)
    ensures Histogram(sizes, 0) == seq(SIZE_CLASSES, _ => 0)
  {
  }

  lemma NextLayout(s: Layouts, sizes: seq<nat>, k: nat, c: nat)
    requires Inv(s) && Placeable(sizes) && k < |sizes| && s.tally == Histogram(sizes, k) && ClassOf(sizes[k]) == Some(c)
    ensures 0 < sizes[k] <= WORDS_PER_PAGE && c < |s.ptr| == |s.count| == |s.tally|
    ensures var r := Placed(s, c, sizes[k]); Inv(r) && r.tally == Histogram(sizes, k + 1) && r.base == s.base
    ensures s.alloc <= s.base + TotalPages(Histogram(sizes, |sizes|)) * CARD_BYTES
  {
    ClassIsExactIff(sizes[k]);
    WithinLimit(s, sizes, k);
    HistogramStep(sizes, k, c);
    RunFits(sizes[k]);
    PlacedKeepsInv(s, c);
    hide Inv;
  }

  lemma InvMeans(s: Layouts)
    requires Inv(s)
    ensures forall k :: 0 <= k < |s.placed| ==>
              s.base <= s.placed[k].lo && s.placed[k].hi <= s.alloc && OnOnePage(s.placed[k])
    ensures PlacedApart(s) && s.alloc == s.base + TotalPages(s.tally) * CARD_BYTES
  {
    forall k | 0 <= k < |s.placed| ensures PlacedOk(s, s.placed[k]) { }
  }

  lemma {:induction false} CountGrows(sizes: seq<nat>, k: nat, n: nat, c: int)
    requires k <= n <= |sizes|
    ensures ClassCount(sizes, k, c) <= ClassCount(sizes, n, c)
  {
    if k < n { CountGrows(sizes, k, n - 1, c); }
  }

  /** The assertion of place_layout: at no point have more pages been begun than were computed. */
  lemma WithinLimit(s: Layouts, sizes: seq<nat>, k: nat)
    requires Inv(s) && k <= |sizes| && s.tally == Histogram(sizes, k)
    ensures s.alloc <= s.base + TotalPages(Histogram(sizes, |sizes|)) * CARD_BYTES
  {
    forall c | 0 <= c < SIZE_CLASSES ensures Histogram(sizes, k)[c] <= Histogram(sizes, |sizes|)[c] {
      CountGrows(sizes, k, |sizes|, c);
    }
    TotalMono(Histogram(sizes, k), Histogram(sizes, |sizes|));
  }

  // ---- Spacing and size ----

  /** Place `k` lies within the pages that are computed for `n` objects of `words` words. */
  predicate PlaceWithin(words: nat, spacing: nat, n: nat, k: nat)
    requires 0 < spacing && PerPage(spacing) > 0
  {
    PagesFor(n, words).Some? && Grid(0, spacing, k) + spacing <= PagesFor(n, words).value * CARD_BYTES
  }

  /** Symbols are counted by their own size but placed by the spacing of the page they come from.
      The pages that are computed suffice for every number of symbols exactly if as many fit on a
      page at that spacing. */
  lemma SpacingSufficesIff(words: nat, spacing: nat)
    requires 0 < words <= WORDS_PER_PAGE && words % 2 == 0 && Fits(spacing)
    ensures PerPage(spacing) > 0 && PerPage(words * 8) > 0
    ensures (forall n: nat, k: nat :: k < n ==> PlaceWithin(words, spacing, n, k)) <==>
              PerPage(spacing) >= PerPage(words * 8)
  {
    PerPagePositive(spacing);
    PerPagePositive(words * 8);
    if PerPage(spacing) >= PerPage(words * 8) {
      forall n: nat, k: nat | k < n ensures PlaceWithin(words, spacing, n, k) {
        PagesForCeil(n, words);
        GridOnPage(0, spacing, k);
        CoarserCeil(k, n, PerPage(spacing), PerPage(words * 8));
        PagesBelow(0, k / PerPage(spacing), Ceil(n, PerPage(words * 8)));
      }
    } else {
      OnePageTooFew(words, spacing);
    }
  }

  /** A page full of them does not fit on a page at a wider spacing. */
  lemma OnePageTooFew(words: nat, spacing: nat)
    requires 0 < words <= WORDS_PER_PAGE && words % 2 == 0 && Fits(spacing)
    requires 0 < PerPage(spacing) < PerPage(words * 8)
    ensures !PlaceWithin(words, spacing, PerPage(words * 8), PerPage(words * 8) - 1)
  {
    var per, n := PerPage(spacing), PerPage(words * 8);
    PagesForCeil(n, words);
    CeilStep(n, n);
    ModUnique(n, n, 1, 0);
    AtLeast(n - 1, per, 1);
    GridOnPage(0, spacing, n - 1);
  }

  lemma CoarserCeil(k: nat, n: nat, per: nat, counted: nat)
    requires 0 < counted <= per && k < n
    ensures k / per < Ceil(n, counted)
  {
    BelowCeil(k, n, counted);
    var q := k / per;
    assert k == q * per + k % per;
    MulLarger(q, counted, per);
    AtLeast(k, counted, q);
  }

  lemma MulLarger(q: nat, a: nat, b: nat)
    requires a <= b
    ensures q * a <= q * b
  {
    assert q * b == q * a + q * (b - a);
  }

  lemma AtLeast(k: nat, d: nat, q: nat)
    requires d > 0 && q * d <= k
    ensures q <= k / d
  {
    MultipleMod(q, d);
    DivMono(q * d, k, d);
  }

  // ---- Layouts and symbols together ----

  /** All objects that are placed: layouts, then symbols. */
  datatype Placement = Placement(layouts: seq<Range>, symbols: seq<Range>, end: nat)

  /** Nothing overlaps, nothing crosses a page, and all of it lies in the pages from `base` to `end`. */
  ghost predicate PlacementOk(p: Placement, base: nat) {
    && (forall i :: 0 <= i < |p.layouts| ==> Within(p.layouts[i], base, p.end))
    && (forall i :: 0 <= i < |p.symbols| ==> Within(p.symbols[i], base, p.end))
    && (forall i, j :: 0 <= i < j < |p.layouts| ==> Apart(p.layouts[i], p.layouts[j]))
    && (forall i, j :: 0 <= i < j < |p.symbols| ==> Apart(p.symbols[i], p.symbols[j]))
    && (forall i, j :: 0 <= i < |p.layouts| && 0 <= j < |p.symbols| ==> Apart(p.layouts[i], p.symbols[j]))
  }

  predicate Within(r: Range, base: nat, end: nat) {
    base <= r.lo && r.hi <= end && OnOnePage(r)
  }

  /** The symbols in their areas, after layouts that end where the areas begin. */
  lemma TogetherIsOk(p: Placement, base: nat, mid: nat, starts: seq<nat>, sizes: seq<nat>, kinds: seq<nat>)
    requires AreasOk(starts, sizes, kinds) && starts[0] == mid && p.end == starts[|sizes|] && base <= mid <= p.end
    requires |p.symbols| == |kinds|
    requires forall j :: 0 <= j < |kinds| ==> p.symbols[j] == SymbolRange(starts, sizes, kinds, j)
    requires forall i :: 0 <= i < |p.layouts| ==> Within(p.layouts[i], base, mid)
    requires forall i, j :: 0 <= i < j < |p.layouts| ==> Apart(p.layouts[i], p.layouts[j])
    ensures PlacementOk(p, base)
  {
    hide AreasOk, OnOnePage, SymbolRange;
    forall j | 0 <= j < |kinds| ensures Within(p.symbols[j], mid, p.end) { SymbolInArea(starts, sizes, kinds, j); }
    forall i, j | 0 <= i < j < |kinds| ensures Apart(p.symbols[i], p.symbols[j]) {
      SymbolsAreApart(starts, sizes, kinds, i, j);
    }
  }

  /** The placement part of defrag_immobile_space, for layouts of the given sizes and any symbols. */
  method Defragment(base: nat, layouts: seq<nat>, symbols: seq<Symbol>) returns (r: Option<Placement>)
    requires base % CARD_BYTES == 0 && Placeable(layouts)
    requires forall i :: 0 <= i < |symbols| ==> SymbolOk(symbols[i])
    ensures r.Some? <==> Uniform(symbols) && forall k: nat :: k < SYMBOL_KINDS ==>
              Occurs(symbols, k) && SizeOfKind(symbols, k) <= WORDS_PER_PAGE
    ensures r.Some? ==> PlacementOk(r.value, base)
    ensures r.Some? ==> |r.value.layouts| == |layouts|
    ensures r.Some? ==> forall i :: 0 <= i < |layouts| ==>
              r.value.layouts[i].hi == r.value.layouts[i].lo + layouts[i] * 8
    ensures r.Some? ==> |r.value.symbols| == |symbols|
    ensures r.Some? ==> forall i :: 0 <= i < |symbols| ==>
              r.value.symbols[i].hi == r.value.symbols[i].lo + 8 * SizeOfKind(symbols, symbols[i].kind)
  {
    hide OnOnePage, Apart, TotalPages, Histogram, AreasOk, Uniform, Occurs, SizeOfKind, SymbolPlace;
    var ls, mid := PlaceLayouts(base, layouts);
    WholePages(base, TotalPages(Histogram(layouts, |layouts|)));
    var areas, sizes := SymbolAreas(mid, symbols);
    if areas.None? { return None; }
    ghost var kinds := Kinds(symbols);
    var ys, end := PlaceInAreas(areas.value, sizes, symbols);
    r := Some(Placement(ls, ys, end));
    TogetherIsOk(r.value, base, mid, areas.value, sizes, kinds);
  }

  lemma WholePages(base: nat, pages: nat)
    requires base % CARD_BYTES == 0
    ensures (base + pages * CARD_BYTES) % CARD_BYTES == 0
  {
    MultipleMod(pages, CARD_BYTES);
    SumMultiple(base, pages * CARD_BYTES, CARD_BYTES);
  }

  method PlaceInAreas(starts: seq<nat>, sizes: seq<nat>, symbols: seq<Symbol>) returns (ranges: seq<Range>, end: nat)
    requires AreasOk(starts, sizes, Kinds(symbols)) && |sizes| == SYMBOL_KINDS
    ensures |ranges| == |symbols| && end == starts[|sizes|] && starts[0] <= end
    ensures forall j :: 0 <= j < |symbols| ==> ranges[j] == SymbolRange(starts, sizes, Kinds(symbols), j)
    ensures forall j :: 0 <= j < |symbols| ==>
              symbols[j].kind < |sizes| && ranges[j].hi == ranges[j].lo + sizes[symbols[j].kind]
  {
    var kinds := Kinds(symbols);
    StartsGrow(starts, sizes, kinds, 0, |sizes|);
    var pointers := new nat[|starts|](i requires 0 <= i < |starts| => starts[i]);
    assert pointers[..] == starts;
    hide SymbolPlace, PagesFor, Fits, Count;
    var places := PlaceSymbols(kinds, pointers, sizes);
    ranges := seq(|symbols|, j requires 0 <= j < |symbols| => Range(places[j], places[j] + sizes[kinds[j]]));
    end := starts[|sizes|];
    assert forall j :: 0 <= j < |symbols| ==> kinds[j] == symbols[j].kind;
  }
}
