/** Types and facts that several modules share. */
module Common {

  /** IMMOBILE_CARD_BYTES: the size of a page of immobile space. */
  const CARD_BYTES: nat := 4096

  datatype Option<T> = None | Some(value: T)

  /** Bytes `lo` up to but not including `hi`. */
  datatype Range = Range(lo: nat, hi: nat)

  predicate Apart(a: Range, b: Range) {
    a.hi <= b.lo || b.hi <= a.lo
  }

  lemma {:induction false} SubsetCard<T>(a: set<T>, b: set<T>)
    requires a <= b
    ensures |a| <= |b|
    ensures |a| == |b| ==> a == b
    decreases a
  {
    if a != {} {
      var x :| x in a;
      SubsetCard(a - {x}, b - {x});
    }
  }
}
