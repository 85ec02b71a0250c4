/**
 * `GetUliMadisonAptmts` without the crawl: the `.unit-result-item` elements
 * the collector would visit are given as a sequence of their fragments, in
 * the order the callbacks run. Each becomes a record that goes into the set;
 * the set is drained into a slice, which is sorted by the flag's key.
 */
module Crawler {
  import opened Apartments
  import opened ApartmentSets
  import opened SortFlags
  import opened Sorting

  /** The record each element yields, in element order. */
  function Records(items: seq<UnitFragments>): seq<Apartment> {
    seq(|items|, i requires 0 <= i < |items| => BuildApartment(items[i]))
  }

  lemma RecordsWellFormed(items: seq<UnitFragments>)
    ensures forall a :: a in Records(items) ==> WellFormed(a)
  {
    forall a | a in Records(items) ensures WellFormed(a) {
      var i :| 0 <= i < |items| && Records(items)[i] == a;
    }
  }

  /** The distinct records of `recs`. */
  function Distinct(recs: seq<Apartment>): set<Apartment> {
    if recs == [] then {} else Distinct(recs[..|recs| - 1]) + {recs[|recs| - 1]}
  }

  /** One more element adds its record to the distinct records of the ones before it. */
  lemma DistinctSnoc(recs: seq<Apartment>, i: nat)
    requires i < |recs|
    ensures Distinct(recs[..i + 1]) == Distinct(recs[..i]) + {recs[i]}
  {
    assert recs[..i + 1][..i] == recs[..i];
  }

  lemma {:induction false} DistinctMembers(recs: seq<Apartment>)
    ensures forall a :: a in Distinct(recs) <==> a in recs
  {
    if recs != [] {
      var init := recs[..|recs| - 1];
      DistinctMembers(init);
      assert recs == init + [recs[|recs| - 1]];
    }
  }

  /** Deduplication never adds records. */
  lemma {:induction false} DistinctSize(recs: seq<Apartment>)
    ensures |Distinct(recs)| <= |recs|
  {
    if recs != [] {
      DistinctSize(recs[..|recs| - 1]);
    }
  }

  /** The `.unit-result-item` callback for the `i`th element: build its record and insert it. */
  method OnUnitResultItem(apartments: ApartmentSet, items: seq<UnitFragments>, i: nat)
    requires i < |items|
    modifies apartments
    ensures apartments.apartments == old(apartments.apartments) + {Records(items)[i]}
  {
    var apt := BuildApartment(items[i]);
    apartments.InsertApartment(apt);
  }

  /** What the `.unit-result-item` callbacks leave in the set once `c.Wait()` returns. */
  method CollectApartments(items: seq<UnitFragments>) returns (apartments: ApartmentSet)
    ensures fresh(apartments)
    ensures forall a :: a in apartments.apartments <==> a in Records(items)
    ensures forall a :: a in apartments.apartments ==> WellFormed(a)
    ensures |apartments.apartments| <= |items|
  {
    ghost var recs := Records(items);
    apartments := new ApartmentSet();
    for i := 0 to |items|
      invariant apartments.apartments == Distinct(recs[..i])
    {
      DistinctSnoc(recs, i);
      OnUnitResultItem(apartments, items, i);
    }
    assert recs[..|items|] == recs;
    DistinctRecords(items);
  }

  /** What the set ends up holding: each record of an element, and so a well-formed one, at most once. */
  lemma DistinctRecords(items: seq<UnitFragments>)
    ensures forall a :: a in Distinct(Records(items)) <==> a in Records(items)
    ensures forall a :: a in Distinct(Records(items)) ==> WellFormed(a)
    ensures |Distinct(Records(items))| <= |items|
  {
    DistinctMembers(Records(items));
    DistinctSize(Records(items));
    RecordsWellFormed(items);
  }

  /**
   * The listings for the given elements: each distinct record once, sorted
   * by `sortedInput` when it names a key, in some order otherwise.
   */
  method GetUliMadisonAptmts(items: seq<UnitFragments>, sortedInput: string) returns (aptmts: seq<Apartment>)
    ensures forall a :: a in aptmts <==> a in Records(items)
    ensures NoDuplicates(aptmts) && |aptmts| <= |items|
    ensures forall i :: 0 <= i < |aptmts| ==> WellFormed(aptmts[i])
    ensures IsSortKey(sortedInput) ==>
      var cmp := ComparatorOf(sortedInput);
      Sorted(cmp, aptmts) && Ascending(cmp, aptmts)
  {
    var apartments := CollectApartments(items);
    var drained := apartments.Drain();
    aptmts := SortListing(drained, sortedInput);
    PermutationKeeps(drained, aptmts);
  }

  /** The drained slice handed to `sortFromCliConfig`, sorted in place. */
  method SortListing(drained: seq<Apartment>, sortedInput: string) returns (aptmts: seq<Apartment>)
    ensures aptmts == StableSort(ComparatorOf(sortedInput), drained)
    ensures |aptmts| == |drained| && multiset(aptmts) == multiset(drained)
    ensures IsSortKey(sortedInput) ==>
      var cmp := ComparatorOf(sortedInput);
      Sorted(cmp, aptmts) && Ascending(cmp, aptmts) && Stable(cmp, aptmts, drained)
  {
    var arr := new Apartment[|drained|](k requires 0 <= k < |drained| => drained[k]);
    assert arr[..] == drained;
    SortFromCliConfig(arr, sortedInput);
    aptmts := arr[..];
  }

  /** A rearrangement has the same members, and no duplicates if the original has none. */
  lemma PermutationKeeps(s: seq<Apartment>, t: seq<Apartment>)
    requires NoDuplicates(s) && multiset(s) == multiset(t)
    ensures NoDuplicates(t)
    ensures forall a :: a in t <==> a in s
  {
    forall a ensures a in t <==> a in s {
      assert a in t <==> a in multiset(t);
      assert a in s <==> a in multiset(s);
    }
    forall i, j | 0 <= i < j < |t| ensures t[i] != t[j] {
      MultisetDistinct(s, t, i, j);
    }
  }

  /** A rearrangement of a sequence without duplicates has none either. */
  lemma MultisetDistinct(s: seq<Apartment>, t: seq<Apartment>, i: nat, j: nat)
    requires NoDuplicates(s) && multiset(s) == multiset(t) && i < j < |t|
    ensures t[i] != t[j]
  {
    if t[i] == t[j] {
      var x := t[i];
      assert multiset(t)[x] >= 2 by {
        assert t == t[..j] + [t[j]] + t[j + 1..];
        assert t[i] in t[..j];
      }
      DistinctCount(s, x);
    }
  }

  /** In a sequence without duplicates every record occurs at most once. */
  lemma {:induction false} DistinctCount(s: seq<Apartment>, x: Apartment)
    requires NoDuplicates(s)
    ensures multiset(s)[x] <= 1
  {
    if s != [] {
      var init := s[..|s| - 1];
      assert s == init + [s[|s| - 1]];
      assert NoDuplicates(init);
      DistinctCount(init, x);
      if s[|s| - 1] == x {
        assert x !in init;
      }
    }
  }
}
