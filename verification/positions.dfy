/** Positions in nested lists: an entry of the outer list and one of the list inside it. */
module Positions {
  datatype Place = Place(outer: nat, inner: nat) {
    predicate Before(other: Place) {
      outer < other.outer || (outer == other.outer && inner < other.inner)
    }
  }

  /** What comes before the next place of an inner list. */
  lemma JustBefore(p: Place)
    ensures forall q: Place :: q.Before(p.(inner := p.inner + 1)) <==> q.Before(p) || q == p
  {
    forall q: Place ensures q.Before(p.(inner := p.inner + 1)) <==> q.Before(p) || q == p {
      assert q.outer == p.outer && q.inner == p.inner ==> q == p;
    }
  }
}
