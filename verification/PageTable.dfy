/** Scan-start offsets in the condensed page table of `src/runtime/gencgc-impl.h`,
    and the save and reload of that table in `src/runtime/coreparse.c`. */
module PageTable {
  import opened Arithmetic

  const SINGLE_OBJECT_FLAG: nat := 16
  const FREE_PAGE_FLAG: nat := 0

  /** The page size in bytes and the largest value the stored field can hold. */
  datatype Geometry = Geometry(page: nat, max: nat)
  {
    ghost predicate Ok() { page >= 16 && page % 16 == 0 && max >= 3 && max % 2 == 1 }
  }

  // ---- One stored offset ----

  predicate Aligned(g: Geometry, offset: nat)
    requires g.page > 0
  {
    offset != 0 && offset % g.page == 0
  }

  /** Offsets are multiples of two words; one that is no multiple of the page size must fit. */
  predicate Storable(g: Geometry, offset: nat)
    requires g.page > 0
  {
    offset % 16 == 0 && (Aligned(g, offset) || offset / 8 <= g.max)
  }

  /** A page-aligned offset is kept in half pages with the low bit set, any other in words; what
      does not fit is clipped. */
  function Encode(g: Geometry, offset: nat): nat
    requires g.page >= 2
  {
    if Aligned(g, offset) then
      var scaled := 2 * (offset / g.page) + 1;
      if scaled > g.max then g.max else scaled
    else offset / 8
  }

  /** Page `p` lies `k` whole pages after the start of its block. */
  predicate PagesIn(g: Geometry, offset: nat, k: nat)
    requires g.page > 0
  {
    offset % g.page == 0 && offset / g.page == k
  }

  /** The true offset of a page is the distance to the start of its block. When that is a whole
      number of pages, the pages in between belong to the same block. */
  ghost predicate BlockOk(g: Geometry, off: seq<nat>, i: nat)
    requires i < |off| && g.page > 0
  {
    Aligned(g, off[i]) ==>
      off[i] / g.page <= i && forall p :: i - off[i] / g.page <= p <= i ==>
          PagesIn(g, off[p], p - (i - off[i] / g.page))
  }

  ghost predicate OffsetsOk(g: Geometry, off: seq<nat>)
    requires g.page > 0
  {
    forall i :: 0 <= i < |off| ==> Storable(g, off[i]) && BlockOk(g, off, i)
  }

  ghost predicate Stores(g: Geometry, sso: seq<nat>, off: seq<nat>)
    requires g.page >= 2
  {
    |sso| == |off| && forall i :: 0 <= i < |off| ==> sso[i] == Encode(g, off[i])
  }

  /** An offset that is not clipped, decoded from the field alone. */
  lemma DirectDecode(g: Geometry, offset: nat)
    requires g.Ok() && Storable(g, offset) && Encode(g, offset) != g.max
    ensures var e := Encode(g, offset);
            offset == if e % 2 == 1 then (e - 1) * (g.page / 2) else e * 8
  {
    if Aligned(g, offset) {
      var k := offset / g.page;
      EncodePages(g, offset, k);
      DirectPages(g, k, Encode(g, offset), offset);
    } else {
      WordsOf(offset);
    }
  }

  lemma DirectPages(g: Geometry, k: nat, e: nat, offset: nat)
    requires g.Ok() && e == 2 * k + 1 && offset == k * g.page
    ensures e % 2 == 1 && offset == (e - 1) * (g.page / 2)
  {
    assert g.page == 2 * (g.page / 2);
    MulAssoc(k, g.page / 2);
  }

  lemma WordsOf(offset: nat)
    requires offset % 16 == 0
    ensures offset / 8 % 2 == 0 && offset == offset / 8 * 8
  {
  }

  /** Every offset is stored as a field value; it is the largest one exactly for whole pages at
      or beyond the limit. */
  lemma ClippedMeansPages(g: Geometry, offset: nat)
    requires g.Ok() && Storable(g, offset) && Encode(g, offset) == g.max
    ensures Aligned(g, offset) && offset / g.page >= g.max / 2 >= 1
  {
    WordsOf(offset);
  }

  lemma EncodePages(g: Geometry, offset: nat, k: nat)
    requires g.Ok() && PagesIn(g, offset, k)
    ensures Encode(g, offset) == if k == 0 then 0 else if 2 * k + 1 > g.max then g.max else 2 * k + 1
    ensures offset == k * g.page
  {
    assert offset == (offset / g.page) * g.page + offset % g.page;
  }

  /** A multiple of the page size, in half pages. */
  lemma HalfPages(g: Geometry, offset: nat)
    requires g.Ok() && offset % g.page == 0
    ensures offset / (g.page / 2) == 2 * (offset / g.page)
  {
    var k, half := offset / g.page, g.page / 2;
    assert g.page == 2 * half;
    assert offset == k * g.page;
    MulAssoc(k, half);
    MultipleMod(2 * k, half);
  }

  lemma MulAssoc(k: int, half: int)
    ensures k * (2 * half) == (2 * k) * half
  {
  }

  datatype Pte = Pte(sso: nat, wordsUsed: nat)

  class Table {
    const g: Geometry
    var sso: array<nat>        // scan_start_offset_
    var wordsUsed: array<nat>
    var kind: array<nat>       // type and flags

    ghost predicate Valid()
      reads this
    {
      && g.Ok() && sso != wordsUsed && sso != kind && wordsUsed != kind
      && sso.Length == wordsUsed.Length == kind.Length
    }

    /** gc_allocate_ptes: a table of free pages. */
    constructor (g: Geometry, n: nat)
      requires g.Ok()
      ensures Valid() && fresh(sso) && fresh(wordsUsed) && fresh(kind) && sso.Length == n && this.g == g
      ensures forall i :: 0 <= i < n ==> sso[i] == 0 && wordsUsed[i] == 0 && kind[i] == FREE_PAGE_FLAG
    {
      this.g := g;
      sso, wordsUsed, kind := new nat[n](_ => 0), new nat[n](_ => 0), new nat[n](_ => FREE_PAGE_FLAG);
    }

    /** set_page_scan_start_offset */
    method SetScanStart(i: nat, offset: nat)
      requires Valid() && i < sso.Length && Storable(g, offset)
      modifies sso
      ensures sso[..] == old(sso[..])[i := Encode(g, offset)]
    {
      var lsb := if offset != 0 && offset % g.page == 0 then 1 else 0;
      var scaled := offset / (if lsb == 1 then g.page / 2 else 8);
      if lsb == 1 {
        HalfPages(g, offset);
        scaled := scaled + 1;   // the quotient is even, so this is "| lsb"
      }
      if scaled > g.max {
        assert lsb == 1;
        scaled := g.max;
      }
      sso[i] := scaled;
    }

    /** scan_start_offset_iterated: look back by the clipped distance until a field is not clipped. */
    method Iterated(i: nat, ghost off: seq<nat>) returns (offset: nat)
      requires Valid() && Stores(g, sso[..], off) && OffsetsOk(g, off) && i < sso.Length && Aligned(g, off[i])
      ensures offset == off[i]
    {
      ghost var k := off[i] / g.page;
      var total, field := 0, g.max;
      while field == g.max
        invariant total <= k <= i && (field != g.max ==> total == k)
        decreases k - total, if field == g.max then 1 else 0
      {
        assert BlockOk(g, off, i) && PagesIn(g, off[i - total], (i - total) - (i - k));
        EncodePages(g, off[i - total], k - total);
        field := sso[i - total];
        total := total + field / 2;
      }
      EncodePages(g, off[i], k);
      return total * g.page;
    }

    /** page_scan_start_offset: the stored offsets decode to the true ones, clipped or not. */
    method ScanStart(i: nat, ghost off: seq<nat>) returns (offset: nat)
      requires Valid() && Stores(g, sso[..], off) && OffsetsOk(g, off) && i < sso.Length
      ensures offset == off[i]
    {
      hide Encode;
      if sso[i] != g.max {
        DirectDecode(g, off[i]);
        offset := if sso[i] % 2 == 1 then (sso[i] - 1) * (g.page / 2) else sso[i] * 8;
      } else {
        ClippedMeansPages(g, off[i]);
        offset := Iterated(i, off);
      }
    }

    /** Regions are closed and free pages are blank. */
    ghost predicate Closed(off: seq<nat>)
      reads this, wordsUsed, kind
    {
      && wordsUsed.Length == kind.Length == |off|
      && forall i :: 0 <= i < |off| ==>
           && SavableKind(kind[i]) && wordsUsed[i] % 2 == 0
           && (kind[i] == FREE_PAGE_FLAG <==> wordsUsed[i] == 0) && (kind[i] == FREE_PAGE_FLAG ==> off[i] == 0)
    }

    /** gc_store_corefile_ptes */
    method StorePtes(ghost off: seq<nat>) returns (ptes: seq<Pte>)
      requires Valid() && Stores(g, sso[..], off) && OffsetsOk(g, off) && Closed(off)
      ensures |ptes| == |off|
      ensures forall i :: 0 <= i < |off| ==> ptes[i] == ToPte(off[i], wordsUsed[i], kind[i])
    {
      hide Encode, BlockOk, Aligned;
      ptes := [];
      for i := 0 to sso.Length
        invariant |ptes| == i && forall j :: 0 <= j < i ==> ptes[j] == ToPte(off[j], wordsUsed[j], kind[j])
      {
        var word := ScanStart(i, off);
        assert word % 8 == 0;
        ptes := ptes + [Pte(word + kind[i] % 8, wordsUsed[i] + kind[i] / SINGLE_OBJECT_FLAG % 2)];
      }
    }

    /** The decoding loop of gc_load_corefile_ptes, into a table of free pages. */
    method LoadPtes(ptes: seq<Pte>, ghost off: seq<nat>, ghost used: seq<nat>, ghost kinds: seq<nat>)
      requires Valid() && |ptes| == |off| == |used| == |kinds| == sso.Length && OffsetsOk(g, off)
      requires forall i :: 0 <= i < |ptes| ==> ptes[i] == ToPte(off[i], used[i], kinds[i])
      requires forall i :: 0 <= i < |ptes| ==>
                 && SavableKind(kinds[i]) && used[i] % 2 == 0
                 && (kinds[i] == FREE_PAGE_FLAG <==> used[i] == 0) && (kinds[i] == FREE_PAGE_FLAG ==> off[i] == 0)
      requires forall i :: 0 <= i < sso.Length ==> sso[i] == 0 && wordsUsed[i] == 0 && kind[i] == FREE_PAGE_FLAG
      modifies sso, wordsUsed, kind
      ensures Stores(g, sso[..], off) && wordsUsed[..] == used && kind[..] == kinds
    {
      hide BlockOk, Encode;
      ZeroEncodes(g);
      for i := 0 to |ptes|
        invariant forall j :: 0 <= j < i ==>
                    sso[j] == Encode(g, off[j]) && wordsUsed[j] == used[j] && kind[j] == kinds[j]
        invariant forall j :: i <= j < |ptes| ==> sso[j] == 0 && wordsUsed[j] == 0 && kind[j] == FREE_PAGE_FLAG
      {
        PteFields(off[i], used[i], kinds[i]);
        var pageType := (if ptes[i].wordsUsed % 2 == 1 then SINGLE_OBJECT_FLAG else 0) + ptes[i].sso % 8;
        kind[i] := pageType;
        if pageType != FREE_PAGE_FLAG {
          wordsUsed[i] := ptes[i].wordsUsed - ptes[i].wordsUsed % 2;
          ghost var before := sso[..];
          SetScanStart(i, ptes[i].sso - ptes[i].sso % 8);
          assert forall j :: 0 <= j < sso.Length ==> sso[j] == sso[..][j];
          assert forall j :: 0 <= j < sso.Length && j != i ==> before[j] == sso[j];
        }
      }
    }
  }

  /** A type that fits the saved form: three low bits and the single-object flag. */
  predicate SavableKind(kind: nat) {
    kind % 16 < 8 && kind < 32
  }

  function ToPte(offset: nat, used: nat, kind: nat): Pte {
    Pte(offset + kind % 8, used + kind / SINGLE_OBJECT_FLAG % 2)
  }

  lemma PteFields(offset: nat, used: nat, kind: nat)
    requires offset % 16 == 0 && used % 2 == 0 && SavableKind(kind)
    ensures var p := ToPte(offset, used, kind);
            && p.sso % 8 == kind % 8 && p.sso - p.sso % 8 == offset
            && p.wordsUsed - p.wordsUsed % 2 == used
            && kind == (if p.wordsUsed % 2 == 1 then SINGLE_OBJECT_FLAG else 0) + p.sso % 8
  {
    LowBitsOf(offset, 8, kind % 8);
    LowBitsOf(used, 2, kind / SINGLE_OBJECT_FLAG % 2);
    KindParts(kind);
  }

  lemma LowBitsOf(a: nat, n: nat, low: nat)
    requires n > 0 && a % n == 0 && low < n
    ensures (a + low) % n == low
  {
    ModUnique(a + low, n, a / n, low);
  }

  lemma KindParts(kind: nat)
    ensures SavableKind(kind) <==> kind == 16 * (kind / 16 % 2) + kind % 8
  {
  }

  /** The page type survives exactly if it is at most 7 and the open-region flag is off. */
  lemma TypeSurvivesIff(offset: nat, used: nat, kind: nat)
    requires offset % 16 == 0 && used % 2 == 0
    ensures var p := ToPte(offset, used, kind);
            (kind == (if p.wordsUsed % 2 == 1 then SINGLE_OBJECT_FLAG else 0) + p.sso % 8) <==> SavableKind(kind)
  {
    LowBitsOf(offset, 8, kind % 8);
    LowBitsOf(used, 2, kind / SINGLE_OBJECT_FLAG % 2);
    KindParts(kind);
  }

  /** A page of type 1 with the open-region flag, 32, comes back without the flag. */
  lemma OpenRegionIsLost()
    ensures var p := ToPte(0, 2, 33);
            && p == Pte(1, 2) && !SavableKind(33)
            && (if p.wordsUsed % 2 == 1 then SINGLE_OBJECT_FLAG else 0) + p.sso % 8 == 1
  {
  }

  lemma ZeroEncodes(g: Geometry)
    requires g.Ok()
    ensures Encode(g, 0) == 0
  {
  }

  /** Saving a page table and loading it into a new one gives back every page's decoded offset,
      words used, type and single-object flag. */
  method SaveAndLoad(t: Table, ghost off: seq<nat>) returns (t': Table)
    requires t.Valid() && Stores(t.g, t.sso[..], off) && OffsetsOk(t.g, off) && t.Closed(off)
    ensures t'.Valid() && t'.g == t.g && Stores(t'.g, t'.sso[..], off)
    ensures t'.wordsUsed[..] == t.wordsUsed[..] && t'.kind[..] == t.kind[..]
  {
    hide BlockOk, Encode;
    ghost var used, kinds := t.wordsUsed[..], t.kind[..];
    var ptes := t.StorePtes(off);
    t' := new Table(t.g, |ptes|);
    t'.LoadPtes(ptes, off, used, kinds);
  }
}
