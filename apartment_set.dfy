/**
 * `tsafeApartments`: the set of apartments the crawler has seen. The source
 * keeps a `map[Apartment]bool` whose values are always `true`, so the model
 * keeps only its keys. The mutex that guards it is not modelled.
 */
module ApartmentSets {
  import opened Apartments

  /** No record appears twice. */
  predicate NoDuplicates(s: seq<Apartment>) {
    forall i, j :: 0 <= i < j < |s| ==> s[i] != s[j]
  }

  class ApartmentSet {
    var apartments: set<Apartment>

    /** `newApartmentsSet`: an empty set. */
    constructor ()
      ensures apartments == {}
    {
      apartments := {};
    }

    /** `insertApartment`: add `apt`; a record equal in all six fields is kept once. */
    method InsertApartment(apt: Apartment)
      modifies this
      ensures apartments == old(apartments) + {apt}
    {
      apartments := apartments + {apt};
    }

    /**
     * The loop over the map that fills the result slice: every member once,
     * in an order the model leaves open, as Go's map iteration does.
     */
    method Drain() returns (aptmts: seq<Apartment>)
      ensures forall a :: a in aptmts <==> a in apartments
      ensures NoDuplicates(aptmts)
      ensures |aptmts| == |apartments|
    {
      var rest := apartments;
      aptmts := [];
      while rest != {}
        invariant rest <= apartments
        invariant forall a :: a in aptmts <==> a in apartments && a !in rest
        invariant NoDuplicates(aptmts)
        invariant |aptmts| + |rest| == |apartments|
        decreases |rest|
      {
        var a :| a in rest;
        aptmts := aptmts + [a];
        rest := rest - {a};
      }
    }
  }
}
