/**
 * `sortFromCliConfig`: `sort.SliceStable` with a comparator chosen by the
 * sort-key flag. The flag's value is passed in as `sortedInput`.
 *
 * `StableSort` is the specification: an insertion sort that puts each new
 * record after every record it is not less than. For each of the three sort
 * keys it is proved a permutation, ascending and stable, and the only
 * sequence with those properties, so it is what any stable sort computes.
 */
module Sorting {
  import opened SortFlags
  import opened Apartments

  /**
   * Go's `<` on strings, which compares bytes. The model's strings are
   * sequences of code points; UTF-8 encoding preserves their order, so
   * comparing code points gives the same answer as comparing bytes.
   */
  predicate StringLess(x: string, y: string)
    ensures StringLess(x, y) ==> x != y
    ensures |x| < |y| && x == y[..|x|] ==> StringLess(x, y)
    ensures forall k :: 0 <= k < |x| && k < |y| && x[..k] == y[..k] && x[k] != y[k] ==>
      (StringLess(x, y) <==> x[k] < y[k])
    decreases |x|
  {
    if y == [] then false
    else if x == [] then true
    else if x[0] != y[0] then x[0] < y[0]
    else
      assert forall k :: 0 < k <= |x| && k <= |y| && x[..k] == y[..k] ==> x[1..][..k - 1] == x[..k][1..] == y[1..][..k - 1];
      StringLess(x[1..], y[1..])
  }

  lemma {:induction false} StringLessIrreflexive(x: string)
    ensures !StringLess(x, x)
  {
    if x != [] {
      StringLessIrreflexive(x[1..]);
    }
  }

  lemma {:induction false} StringLessTransitive(x: string, y: string, z: string)
    requires StringLess(x, y) && StringLess(y, z)
    ensures StringLess(x, z)
  {
    if x != [] && x[0] == y[0] && y[0] == z[0] {
      StringLessTransitive(x[1..], y[1..], z[1..]);
    }
  }

  lemma {:induction false} StringLessTotal(x: string, y: string)
    requires x != y
    ensures StringLess(x, y) || StringLess(y, x)
  {
    if x != [] && y != [] && x[0] == y[0] {
      assert x == [x[0]] + x[1..] && y == [y[0]] + y[1..];
      StringLessTotal(x[1..], y[1..]);
    }
  }

  /** Byte order is not date order: '/' sorts before '2'. */
  lemma DateStringOrderExample()
    ensures StringLess("1/15/2023", "12/1/2022")
    ensures !StringLess("12/1/2022", "1/15/2023")
  {
    assert "1/15/2023"[1..] == "/15/2023";
    assert "12/1/2022"[1..] == "2/1/2022";
  }

  /** The branch of the comparator's `switch` that `sortedInput` selects. */
  datatype Comparator = ByRent | BySqFootage | ByAvailDate | AlwaysTrue

  function ComparatorOf(sortedInput: string): (cmp: Comparator)
    ensures cmp != AlwaysTrue <==> IsSortKey(sortedInput)
    ensures cmp == ByRent <==> sortedInput == RENT
    ensures cmp == BySqFootage <==> sortedInput == SQ_FEET
    ensures cmp == ByAvailDate <==> sortedInput == AVAIL_DATE
  {
    if sortedInput == RENT then ByRent
    else if sortedInput == SQ_FEET then BySqFootage
    else if sortedInput == AVAIL_DATE then ByAvailDate
    else AlwaysTrue
  }

  /** The comparator `sortFromCliConfig` hands to `sort.SliceStable`. */
  predicate Less(cmp: Comparator, a: Apartment, b: Apartment)
    ensures cmp == AlwaysTrue ==> Less(cmp, a, b)
    ensures cmp != AlwaysTrue && Less(cmp, a, b) ==> !SameKey(cmp, a, b)
  {
    match cmp
    case ByRent => a.rent < b.rent
    case BySqFootage => a.sqFootage < b.sqFootage
    case ByAvailDate => StringLess(a.availDate, b.availDate)
    case AlwaysTrue => true
  }

  /** `a` and `b` have the same value in the field the comparator reads. */
  predicate SameKey(cmp: Comparator, a: Apartment, b: Apartment) {
    match cmp
    case ByRent => a.rent == b.rent
    case BySqFootage => a.sqFootage == b.sqFootage
    case ByAvailDate => a.availDate == b.availDate
    case AlwaysTrue => true
  }

  lemma LessIrreflexive(cmp: Comparator, a: Apartment)
    requires cmp != AlwaysTrue
    ensures !Less(cmp, a, a)
  {
    StringLessIrreflexive(a.availDate);
  }

  lemma LessTransitive(cmp: Comparator, a: Apartment, b: Apartment, c: Apartment)
    requires cmp != AlwaysTrue && Less(cmp, a, b) && Less(cmp, b, c)
    ensures Less(cmp, a, c)
  {
    if cmp == ByAvailDate {
      StringLessTransitive(a.availDate, b.availDate, c.availDate);
    }
  }

  /** For a sort key, "neither is less" is exactly "same key". */
  lemma SameKeyIsIncomparable(cmp: Comparator, a: Apartment, b: Apartment)
    requires cmp != AlwaysTrue
    ensures SameKey(cmp, a, b) <==> !Less(cmp, a, b) && !Less(cmp, b, a)
  {
    if cmp == ByAvailDate {
      StringLessIrreflexive(a.availDate);
      if a.availDate != b.availDate {
        StringLessTotal(a.availDate, b.availDate);
      }
    }
  }

  lemma NotLessTransitive(cmp: Comparator, a: Apartment, b: Apartment, c: Apartment)
    requires cmp != AlwaysTrue && !Less(cmp, a, b) && !Less(cmp, b, c)
    ensures !Less(cmp, a, c)
  {
    if cmp == ByAvailDate {
      if a.availDate != b.availDate {
        StringLessTotal(a.availDate, b.availDate);
        if StringLess(a.availDate, c.availDate) {
          StringLessTransitive(b.availDate, a.availDate, c.availDate);
        }
      }
    }
  }

  /**
   * No record is less than an earlier one. `sort.IsSorted` checks this for
   * adjacent pairs only; the two agree because "not less" is transitive
   * (`NotLessTransitive`).
   */
  predicate Sorted(cmp: Comparator, s: seq<Apartment>) {
    forall i, j :: 0 <= i < j < |s| ==> !Less(cmp, s[j], s[i])
  }

  /** The selected field never decreases along `s`. */
  predicate Ascending(cmp: Comparator, s: seq<Apartment>) {
    && (cmp == ByRent ==> forall i, j :: 0 <= i < j < |s| ==> s[i].rent <= s[j].rent)
    && (cmp == BySqFootage ==> forall i, j :: 0 <= i < j < |s| ==> s[i].sqFootage <= s[j].sqFootage)
    && (cmp == ByAvailDate ==> forall i, j :: 0 <= i < j < |s| ==>
          s[i].availDate == s[j].availDate || StringLess(s[i].availDate, s[j].availDate))
  }

  lemma SortedIsAscending(cmp: Comparator, s: seq<Apartment>)
    requires cmp != AlwaysTrue && Sorted(cmp, s)
    ensures Ascending(cmp, s)
  {
    if cmp == ByAvailDate {
      forall i, j | 0 <= i < j < |s|
        ensures s[i].availDate == s[j].availDate || StringLess(s[i].availDate, s[j].availDate)
      {
        if s[i].availDate != s[j].availDate {
          StringLessTotal(s[i].availDate, s[j].availDate);
        }
      }
    }
  }

  /** The records of `s` whose key equals `e`'s, in their order in `s`. */
  function Peers(cmp: Comparator, s: seq<Apartment>, e: Apartment): seq<Apartment> {
    if s == [] then []
    else Peers(cmp, s[..|s| - 1], e) + (if SameKey(cmp, s[|s| - 1], e) then [s[|s| - 1]] else [])
  }

  /** Equal keys keep their relative order: every class of equal keys is the same subsequence. */
  ghost predicate Stable(cmp: Comparator, r: seq<Apartment>, s: seq<Apartment>) {
    forall e :: Peers(cmp, r, e) == Peers(cmp, s, e)
  }

  /**
   * One step of the insertion sort: `x` moves left past every record it is
   * less than, and stops after the first one it is not less than.
   */
  function Insert(cmp: Comparator, t: seq<Apartment>, x: Apartment): (r: seq<Apartment>)
    ensures |r| == |t| + 1
    decreases |t|
  {
    if t == [] || !Less(cmp, x, t[|t| - 1]) then t + [x]
    else Insert(cmp, t[..|t| - 1], x) + [t[|t| - 1]]
  }

  /** Insertion sort of `s` with the comparator `Less(cmp, _, _)`. */
  function StableSort(cmp: Comparator, s: seq<Apartment>): (r: seq<Apartment>)
    ensures |r| == |s|
  {
    if s == [] then [] else Insert(cmp, StableSort(cmp, s[..|s| - 1]), s[|s| - 1])
  }

  /** `s` backwards. */
  function Reverse(s: seq<Apartment>): seq<Apartment> {
    if s == [] then [] else [s[|s| - 1]] + Reverse(s[..|s| - 1])
  }

  /** The default comparator says `x` is less than everything, so `x` goes to the front. */
  lemma {:induction false} InsertAlwaysTrue(t: seq<Apartment>, x: Apartment)
    ensures Insert(AlwaysTrue, t, x) == [x] + t
    decreases |t|
  {
    if t != [] {
      var t', l := t[..|t| - 1], t[|t| - 1];
      InsertAlwaysTrue(t', x);
      assert t == t' + [l];
    }
  }

  /** With no sort key set, the model's sort reverses its input. */
  lemma {:induction false} AlwaysTrueReverses(s: seq<Apartment>)
    ensures StableSort(AlwaysTrue, s) == Reverse(s)
  {
    if s != [] {
      AlwaysTrueReverses(s[..|s| - 1]);
      InsertAlwaysTrue(StableSort(AlwaysTrue, s[..|s| - 1]), s[|s| - 1]);
    }
  }

  lemma {:induction false} InsertPermutes(cmp: Comparator, t: seq<Apartment>, x: Apartment)
    ensures |Insert(cmp, t, x)| == |t| + 1
    ensures multiset(Insert(cmp, t, x)) == multiset(t) + multiset{x}
    decreases |t|
  {
    if t != [] && Less(cmp, x, t[|t| - 1]) {
      InsertPermutes(cmp, t[..|t| - 1], x);
      assert t == t[..|t| - 1] + [t[|t| - 1]];
    }
  }

  lemma MultisetSnoc(s: seq<Apartment>)
    requires s != []
    ensures multiset(s) == multiset(s[..|s| - 1]) + multiset{s[|s| - 1]}
  {
    assert s == s[..|s| - 1] + [s[|s| - 1]];
  }

  /** Whatever the comparator, even `AlwaysTrue`, the sort only rearranges. */
  lemma {:induction false} StableSortPermutes(cmp: Comparator, s: seq<Apartment>)
    ensures |StableSort(cmp, s)| == |s|
    ensures multiset(StableSort(cmp, s)) == multiset(s)
  {
    if s != [] {
      var s', x := s[..|s| - 1], s[|s| - 1];
      var t := StableSort(cmp, s');
      StableSortPermutes(cmp, s');
      InsertPermutes(cmp, t, x);
      MultisetSnoc(s);
    }
  }

  lemma SortedAppend(cmp: Comparator, a: seq<Apartment>, x: Apartment)
    requires Sorted(cmp, a)
    requires forall i :: 0 <= i < |a| ==> !Less(cmp, x, a[i])
    ensures Sorted(cmp, a + [x])
  {
  }

  lemma {:induction false} InsertSorted(cmp: Comparator, t: seq<Apartment>, x: Apartment)
    requires cmp != AlwaysTrue && Sorted(cmp, t)
    ensures Sorted(cmp, Insert(cmp, t, x))
  {
    if t == [] {
    } else if !Less(cmp, x, t[|t| - 1]) {
      var l := t[|t| - 1];
      forall i | 0 <= i < |t| ensures !Less(cmp, x, t[i]) {
        if i < |t| - 1 {
          NotLessTransitive(cmp, x, l, t[i]);
        }
      }
      SortedAppend(cmp, t, x);
    } else {
      var t', l := t[..|t| - 1], t[|t| - 1];
      InsertSorted(cmp, t', x);
      var a := Insert(cmp, t', x);
      InsertPermutes(cmp, t', x);
      forall i | 0 <= i < |a| ensures !Less(cmp, l, a[i]) {
        assert a[i] in multiset(a);
        if a[i] == x {
          if Less(cmp, l, x) {
            LessTransitive(cmp, x, l, x);
            LessIrreflexive(cmp, x);
          }
        } else {
          assert a[i] in multiset(t');
          var k :| 0 <= k < |t'| && t'[k] == a[i];
          assert t[k] == a[i];
        }
      }
      SortedAppend(cmp, a, l);
    }
  }

  lemma {:induction false} StableSortSorted(cmp: Comparator, s: seq<Apartment>)
    requires cmp != AlwaysTrue
    ensures Sorted(cmp, StableSort(cmp, s))
  {
    if s != [] {
      StableSortSorted(cmp, s[..|s| - 1]);
      InsertSorted(cmp, StableSort(cmp, s[..|s| - 1]), s[|s| - 1]);
    }
  }

  lemma PeersAppend(cmp: Comparator, t: seq<Apartment>, x: Apartment, e: Apartment)
    ensures Peers(cmp, t + [x], e) == Peers(cmp, t, e) + (if SameKey(cmp, x, e) then [x] else [])
  {
    assert (t + [x])[..|t|] == t;
  }

  /** A record less than `l` is not in `l`'s class of equal keys. */
  lemma LessSeparatesClasses(cmp: Comparator, x: Apartment, l: Apartment, e: Apartment)
    requires cmp != AlwaysTrue && Less(cmp, x, l) && SameKey(cmp, x, e)
    ensures !SameKey(cmp, l, e)
  {
    if cmp == ByAvailDate {
      StringLessIrreflexive(x.availDate);
    }
  }

  lemma {:induction false} InsertPeers(cmp: Comparator, t: seq<Apartment>, x: Apartment, e: Apartment)
    requires cmp != AlwaysTrue
    ensures Peers(cmp, Insert(cmp, t, x), e) == Peers(cmp, t, e) + (if SameKey(cmp, x, e) then [x] else [])
  {
    if t == [] || !Less(cmp, x, t[|t| - 1]) {
      PeersAppend(cmp, t, x, e);
    } else {
      var t', l := t[..|t| - 1], t[|t| - 1];
      var a := Insert(cmp, t', x);
      assert Insert(cmp, t, x) == a + [l];
      assert t == t' + [l];
      InsertPeers(cmp, t', x, e);
      PeersAppend(cmp, a, l, e);
      PeersAppend(cmp, t', l, e);
      if SameKey(cmp, x, e) {
        // l is not in x's class, so it adds nothing on either side.
        LessSeparatesClasses(cmp, x, l, e);
      }
    }
  }

  lemma {:induction false} StableSortStable(cmp: Comparator, s: seq<Apartment>, e: Apartment)
    requires cmp != AlwaysTrue
    ensures Peers(cmp, StableSort(cmp, s), e) == Peers(cmp, s, e)
  {
    if s != [] {
      var s', x := s[..|s| - 1], s[|s| - 1];
      StableSortStable(cmp, s', e);
      InsertPeers(cmp, StableSort(cmp, s'), x, e);
    }
  }

  /**
   * For each sort key, `StableSort` is a permutation of its input, ascending
   * in the selected field, and keeps records with equal keys in input order.
   */
  lemma StableSortCorrect(cmp: Comparator, s: seq<Apartment>)
    requires cmp != AlwaysTrue
    ensures multiset(StableSort(cmp, s)) == multiset(s)
    ensures Sorted(cmp, StableSort(cmp, s)) && Ascending(cmp, StableSort(cmp, s))
    ensures Stable(cmp, StableSort(cmp, s), s)
  {
    StableSortPermutes(cmp, s);
    StableSortSorted(cmp, s);
    SortedIsAscending(cmp, StableSort(cmp, s));
    forall e {
      StableSortStable(cmp, s, e);
    }
  }

  lemma PeersSubset(cmp: Comparator, s: seq<Apartment>, e: Apartment, x: Apartment)
    ensures x in Peers(cmp, s, e) <==> x in s && SameKey(cmp, x, e)
  {
    if s != [] {
      PeersSubset(cmp, s[..|s| - 1], e, x);
      assert s == s[..|s| - 1] + [s[|s| - 1]];
    }
  }

  /** A stable rearrangement of a non-empty sequence is not empty. */
  lemma StableNonEmpty(cmp: Comparator, r: seq<Apartment>, u: seq<Apartment>)
    requires Stable(cmp, r, u) && r != []
    ensures u != []
  {
    var z := r[|r| - 1];
    PeersSubset(cmp, r, z, z);
    assert Peers(cmp, u, z) == Peers(cmp, r, z);
    PeersSubset(cmp, u, z, z);
  }

  /** Two sorted sequences with the same classes of equal keys end with the same record. */
  lemma SortedStableLast(cmp: Comparator, r: seq<Apartment>, u: seq<Apartment>)
    requires cmp != AlwaysTrue && Sorted(cmp, r) && Sorted(cmp, u) && Stable(cmp, r, u)
    requires r != [] && u != []
    ensures r[|r| - 1] == u[|u| - 1]
  {
    var r', z := r[..|r| - 1], r[|r| - 1];
    var u', w := u[..|u| - 1], u[|u| - 1];
    assert r == r' + [z] && u == u' + [w];
    // w occurs in r, and z in u, so neither is less than the other.
    PeersSubset(cmp, u, w, w);
    PeersSubset(cmp, r, w, w);
    PeersSubset(cmp, r, z, z);
    PeersSubset(cmp, u, z, z);
    var i :| 0 <= i < |r| && r[i] == w;
    var j :| 0 <= j < |u| && u[j] == z;
    LessIrreflexive(cmp, z);
    LessIrreflexive(cmp, w);
    assert !Less(cmp, w, z) by {
      if j < |u| - 1 {
        assert !Less(cmp, u[|u| - 1], u[j]);
      }
    }
    assert !Less(cmp, z, w) by {
      if i < |r| - 1 {
        assert !Less(cmp, r[|r| - 1], r[i]);
      }
    }
    SameKeyIsIncomparable(cmp, z, w);
    // The last records of the two classes of z are z and w.
    PeersAppend(cmp, r', z, z);
    PeersAppend(cmp, u', w, z);
    assert SameKey(cmp, z, z) && SameKey(cmp, w, z);
    var pz := Peers(cmp, r, z);
    assert pz == Peers(cmp, u, z);
    assert pz[|pz| - 1] == z && pz[|pz| - 1] == w;
  }

  /** Dropping the same last record from both sides keeps the classes equal. */
  lemma StableInit(cmp: Comparator, r: seq<Apartment>, u: seq<Apartment>)
    requires Stable(cmp, r, u) && r != [] && u != [] && r[|r| - 1] == u[|u| - 1]
    ensures Stable(cmp, r[..|r| - 1], u[..|u| - 1])
  {
    var r', z := r[..|r| - 1], r[|r| - 1];
    var u' := u[..|u| - 1];
    assert r == r' + [z] && u == u' + [z];
    forall e ensures Peers(cmp, r', e) == Peers(cmp, u', e) {
      PeersAppend(cmp, r', z, e);
      PeersAppend(cmp, u', z, e);
      var pr, pu := Peers(cmp, r', e), Peers(cmp, u', e);
      assert Peers(cmp, r, e) == Peers(cmp, u, e);
      assert |pr| == |pu|;
      assert pr == Peers(cmp, r, e)[..|pr|];
      assert pu == Peers(cmp, u, e)[..|pu|];
    }
  }

  /** Two sorted sequences with the same classes of equal keys are equal. */
  lemma {:induction false} SortedStableUnique(cmp: Comparator, r: seq<Apartment>, u: seq<Apartment>)
    requires cmp != AlwaysTrue && Sorted(cmp, r) && Sorted(cmp, u) && Stable(cmp, r, u)
    ensures r == u
    decreases |r|
  {
    if r != [] {
      StableNonEmpty(cmp, r, u);
    }
    if u != [] {
      assert Stable(cmp, u, r);
      StableNonEmpty(cmp, u, r);
    }
    if r != [] {
      SortedStableLast(cmp, r, u);
      StableInit(cmp, r, u);
      var r', u' := r[..|r| - 1], u[..|u| - 1];
      assert Sorted(cmp, r') && Sorted(cmp, u');
      SortedStableUnique(cmp, r', u');
      assert r == r' + [r[|r| - 1]] && u == u' + [u[|u| - 1]];
    }
  }

  /**
   * Any ascending, stable rearrangement of `s` is `StableSort(cmp, s)`:
   * whatever algorithm `sort.SliceStable` runs, its result is this one.
   */
  lemma StableSortUnique(cmp: Comparator, s: seq<Apartment>, r: seq<Apartment>)
    requires cmp != AlwaysTrue && Sorted(cmp, r) && Stable(cmp, r, s)
    ensures r == StableSort(cmp, s)
  {
    StableSortCorrect(cmp, s);
    SortedStableUnique(cmp, r, StableSort(cmp, s));
  }

  /**
   * `Insert` places `x` at `j` when it is less than every record from `j` on
   * and not less than the one before `j`.
   */
  lemma {:induction false} InsertAt(cmp: Comparator, t: seq<Apartment>, x: Apartment, j: nat)
    requires j <= |t| && (j == 0 || !Less(cmp, x, t[j - 1]))
    requires forall k :: j <= k < |t| ==> Less(cmp, x, t[k])
    ensures Insert(cmp, t, x) == t[..j] + [x] + t[j..]
    decreases |t|
  {
    if j == |t| {
      assert t[..j] == t && t[j..] == [];
    } else {
      var t', l := t[..|t| - 1], t[|t| - 1];
      assert Less(cmp, x, l);
      assert j == 0 || t'[j - 1] == t[j - 1];
      assert forall k :: j <= k < |t'| ==> t'[k] == t[k];
      InsertAt(cmp, t', x, j);
      assert Insert(cmp, t, x) == Insert(cmp, t', x) + [l];
      SplitLast(t, x, j);
    }
  }

  /** Splitting at `j` and then dropping the last element is dropping it first. */
  lemma SplitLast(t: seq<Apartment>, x: Apartment, j: nat)
    requires j < |t|
    ensures t[..j] + [x] + t[j..] == t[..|t| - 1][..j] + [x] + t[..|t| - 1][j..] + [t[|t| - 1]]
  {
    var t' := t[..|t| - 1];
    assert t'[..j] == t[..j];
    assert t[j..] == t'[j..] + [t[|t| - 1]];
  }

  /** A sequence that agrees with `t[..j] + [x] + t[j..]` index by index is that sequence. */
  lemma Assemble(a: seq<Apartment>, t: seq<Apartment>, x: Apartment, j: nat)
    requires j <= |t| && |a| == |t| + 1
    requires forall k :: 0 <= k < j ==> a[k] == t[k]
    requires a[j] == x
    requires forall k :: j < k < |a| ==> a[k] == t[k - 1]
    ensures a == t[..j] + [x] + t[j..]
  {
  }

  /**
   * One pass of the insertion sort: `apts[i]` moves left past every record
   * it is less than; `apts[..i]` shifts right to make room.
   */
  method InsertLast(apts: array<Apartment>, i: nat, cmp: Comparator)
    requires i < apts.Length
    modifies apts
    ensures apts[..i + 1] == Insert(cmp, old(apts[..i]), old(apts[i]))
    ensures apts[i + 1..] == old(apts[i + 1..])
  {
    ghost var sorted := apts[..i];
    var x := apts[i];
    var j := ShiftGreater(apts, i, x, cmp);
    ghost var rest := apts[i + 1..];
    InsertAt(cmp, sorted, x, j);
    apts[j] := x;
    assert apts[i + 1..] == rest;
    ghost var a := apts[..i + 1];
    assert forall k :: 0 <= k < j ==> a[k] == sorted[k];
    assert forall k :: j < k <= i ==> a[k] == sorted[k - 1];
    Assemble(a, sorted, x, j);
  }

  /**
   * The shifting loop of one pass: every record before `i` that `x` is less
   * than, counting back from `i`, moves one place right; `j` is the gap left.
   */
  method ShiftGreater(apts: array<Apartment>, i: nat, x: Apartment, cmp: Comparator) returns (j: nat)
    requires i < apts.Length
    modifies apts
    ensures j <= i
    ensures forall k :: 0 <= k < j ==> apts[k] == old(apts[k])
    ensures forall k :: j < k <= i ==> apts[k] == old(apts[k - 1])
    ensures apts[i + 1..] == old(apts[i + 1..])
    ensures forall k :: j <= k < i ==> Less(cmp, x, old(apts[k]))
    ensures j == 0 || !Less(cmp, x, old(apts[j - 1]))
  {
    j := i;
    while j > 0 && Less(cmp, x, apts[j - 1])
      invariant j <= i
      invariant forall k :: 0 <= k < j ==> apts[k] == old(apts[k])
      invariant forall k :: j < k <= i ==> apts[k] == old(apts[k - 1])
      invariant forall k :: i < k < apts.Length ==> apts[k] == old(apts[k])
      invariant forall k :: j <= k < i ==> Less(cmp, x, old(apts[k]))
    {
      apts[j] := apts[j - 1];
      j := j - 1;
    }
  }

  /** The sort of a prefix one longer inserts the next record into the sort of the shorter one. */
  lemma StableSortSnoc(cmp: Comparator, s: seq<Apartment>, i: nat)
    requires i < |s|
    ensures StableSort(cmp, s[..i + 1]) == Insert(cmp, StableSort(cmp, s[..i]), s[i])
  {
    assert s[..i + 1][..i] == s[..i];
  }

  /** Insertion sort in place: pass `i` inserts `apts[i]` into the sorted `apts[..i]`. */
  method InsertionSort(apts: array<Apartment>, cmp: Comparator)
    modifies apts
    ensures apts[..] == StableSort(cmp, old(apts[..]))
  {
    ghost var input := apts[..];
    for i := 0 to apts.Length
      invariant apts[..i] == StableSort(cmp, input[..i])
      invariant apts[i..] == input[i..]
    {
      StableSortSnoc(cmp, input, i);
      assert apts[i] == input[i] && apts[i + 1..] == input[i + 1..];
      InsertLast(apts, i, cmp);
    }
    assert input[..apts.Length] == input;
  }

  /**
   * `sortFromCliConfig`, in place: a stable sort of `apts` with the
   * comparator `sortedInput` selects.
   */
  method SortFromCliConfig(apts: array<Apartment>, sortedInput: string)
    modifies apts
    ensures apts[..] == StableSort(ComparatorOf(sortedInput), old(apts[..]))
    ensures multiset(apts[..]) == multiset(old(apts[..]))
    ensures IsSortKey(sortedInput) ==>
      var cmp := ComparatorOf(sortedInput);
      Sorted(cmp, apts[..]) && Ascending(cmp, apts[..]) && Stable(cmp, apts[..], old(apts[..]))
    ensures !IsSortKey(sortedInput) ==> apts[..] == Reverse(old(apts[..]))
  {
    var cmp := ComparatorOf(sortedInput);
    ghost var input := apts[..];
    InsertionSort(apts, cmp);
    StableSortPermutes(cmp, input);
    if cmp != AlwaysTrue {
      StableSortCorrect(cmp, input);
    } else {
      AlwaysTrueReverses(input);
    }
  }
}
