/**
 The catalog's three sort passes: by product name, by unit price and by
 arrival date, each re-ordering the whole current catalog with its own
 comparator. `Collections.sort` is a stable sort, so the model is a stable
 insertion sort, and `StableSortIsUnique` shows that any stable sort yields
 the same sequence.
 */
module CatalogSort {
  import opened CatalogEntry
  import opened JavaCompare

  /** The field a sort pass orders by. */
  datatype SortKey = ByProductName | ByUnitPrice | ByArrivalDate

  /** The comparator passed to the sort for `key`: names and dates in
      lexicographic order, prices in the total order of `Double.compare`. */
  function Compare(key: SortKey, a: Entry, b: Entry): (c: int)
    ensures key == ByProductName ==>
              && (c == 0 <==> a.productName == b.productName)
              && (c <= 0 <==> LexPrecedes(a.productName, b.productName))
    ensures key == ByArrivalDate ==>
              && (c == 0 <==> a.arrivalDate == b.arrivalDate)
              && (c <= 0 <==> LexPrecedes(a.arrivalDate, b.arrivalDate))
    ensures key == ByUnitPrice ==>
              && -1 <= c <= 1
              && (c == 0 <==> a.unitPrice == b.unitPrice || (IsNaN(a.unitPrice) && IsNaN(b.unitPrice)))
              && (IsNaN(a.unitPrice) && !IsNaN(b.unitPrice) ==> c == 1)
  {
    match key
    case ByProductName =>
      CompareStringsIsLexicographic(a.productName, b.productName);
      CompareStrings(a.productName, b.productName)
    case ByUnitPrice => CompareDoubles(a.unitPrice, b.unitPrice)
    case ByArrivalDate =>
      CompareStringsIsLexicographic(a.arrivalDate, b.arrivalDate);
      CompareStrings(a.arrivalDate, b.arrivalDate)
  }

  /** `a` may stand before `b` in a sequence sorted by `key`. */
  predicate InOrder(key: SortKey, a: Entry, b: Entry) {
    Compare(key, a, b) <= 0
  }

  // ---------------------------------------------------------------------------
  // The comparators are total preorders
  // ---------------------------------------------------------------------------

  lemma CompareAntisymmetric(key: SortKey, a: Entry, b: Entry)
    ensures Compare(key, a, b) == -Compare(key, b, a)
  {
    match key
    case ByProductName => CompareStringsAntisymmetric(a.productName, b.productName);
    case ByUnitPrice => CompareDoublesAntisymmetric(a.unitPrice, b.unitPrice);
    case ByArrivalDate => CompareStringsAntisymmetric(a.arrivalDate, b.arrivalDate);
  }

  lemma InOrderTransitive(key: SortKey, a: Entry, b: Entry, c: Entry)
    requires InOrder(key, a, b) && InOrder(key, b, c)
    ensures InOrder(key, a, c)
  {
    match key
    case ByProductName => CompareStringsTransitive(a.productName, b.productName, c.productName);
    case ByUnitPrice => CompareDoublesTransitive(a.unitPrice, b.unitPrice, c.unitPrice);
    case ByArrivalDate => CompareStringsTransitive(a.arrivalDate, b.arrivalDate, c.arrivalDate);
  }

  /** Having the same key is transitive. */
  lemma SameKeyTransitive(key: SortKey, a: Entry, b: Entry, c: Entry)
    requires Compare(key, a, b) == 0 && Compare(key, b, c) == 0
    ensures Compare(key, a, c) == 0
  {
  }

  // ---------------------------------------------------------------------------
  // The sort
  // ---------------------------------------------------------------------------

  /** Every entry may stand before every later one. */
  ghost predicate Sorted(key: SortKey, s: seq<Entry>) {
    forall i, j :: 0 <= i < j < |s| ==> InOrder(key, s[i], s[j])
  }

  /** Sorted by name or by date means: each entry's key is lexicographically
      no greater than every later entry's key. */
  lemma SortedByTextIsLexicographic(key: SortKey, s: seq<Entry>)
    requires key != ByUnitPrice
    ensures Sorted(key, s) <==>
              forall i, j :: 0 <= i < j < |s| ==> LexPrecedes(TextKey(key, s[i]), TextKey(key, s[j]))
  {
  }

  /** The text a name or date pass orders by. */
  function TextKey(key: SortKey, e: Entry): string
    requires key != ByUnitPrice
  {
    if key == ByProductName then e.productName else e.arrivalDate
  }

  /** Inserts `x` before the first entry it may stand before. */
  function Insert(key: SortKey, x: Entry, s: seq<Entry>): (r: seq<Entry>)
    ensures multiset(r) == multiset(s) + multiset{x}
  {
    if |s| == 0 then [x]
    else if InOrder(key, x, s[0]) then [x] + s
    else
      var rest := Insert(key, x, s[1..]);
      assert s == [s[0]] + s[1..];
      [s[0]] + rest
  }

  lemma {:induction false} InsertSorted(key: SortKey, x: Entry, s: seq<Entry>)
    requires Sorted(key, s)
    ensures Sorted(key, Insert(key, x, s))
  {
    if |s| > 0 {
      if InOrder(key, x, s[0]) {
        PrependSorted(key, x, s);
      } else {
        CompareAntisymmetric(key, x, s[0]);
        var rest := Insert(key, x, s[1..]);
        InsertSorted(key, x, s[1..]);
        assert rest[0] in multiset(rest);
        if rest[0] != x {
          HeadBeforeTail(key, s, rest[0]);
        }
        PrependSorted(key, s[0], rest);
      }
    }
  }

  /** Putting before a sorted sequence an entry that may stand before its
      first entry keeps it sorted. */
  lemma PrependSorted(key: SortKey, x: Entry, s: seq<Entry>)
    requires Sorted(key, s)
    requires |s| > 0 ==> InOrder(key, x, s[0])
    ensures Sorted(key, [x] + s)
  {
    forall j | 0 <= j < |s|
      ensures InOrder(key, x, s[j])
    {
      InOrderTransitive(key, x, s[0], s[j]);
    }
    forall i, j | 0 <= i < j < |s| + 1
      ensures InOrder(key, ([x] + s)[i], ([x] + s)[j])
    {
      if i > 0 {
        assert ([x] + s)[i] == s[i - 1];
      }
    }
  }

  /** In a sorted sequence the first entry may stand before every entry of the rest. */
  lemma HeadBeforeTail(key: SortKey, s: seq<Entry>, y: Entry)
    requires Sorted(key, s) && |s| > 0 && y in multiset(s[1..])
    ensures InOrder(key, s[0], y)
  {
    var k :| 0 <= k < |s[1..]| && s[1..][k] == y;
    assert s[k + 1] == y;
  }

  /** The sort pass for `key`: a sorted permutation of `s`. */
  function Sort(key: SortKey, s: seq<Entry>): (r: seq<Entry>)
    ensures multiset(r) == multiset(s)
    ensures Sorted(key, r)
  {
    if |s| == 0 then []
    else
      var rest := Sort(key, s[1..]);
      InsertSorted(key, s[0], rest);
      assert s == [s[0]] + s[1..];
      Insert(key, s[0], rest)
  }

  /** Sorting an already sorted sequence leaves it unchanged. */
  lemma {:induction false} SortOfSortedIsIdentity(key: SortKey, s: seq<Entry>)
    requires Sorted(key, s)
    ensures Sort(key, s) == s
  {
    if |s| > 0 {
      SortOfSortedIsIdentity(key, s[1..]);
      if |s| == 1 {
        assert s == [s[0]];
      } else {
        assert InOrder(key, s[0], s[1]);
        assert s == [s[0]] + s[1..];
      }
    }
  }

  /** Sorting twice by the same key is sorting once. */
  lemma SortIsIdempotent(key: SortKey, s: seq<Entry>)
    ensures Sort(key, Sort(key, s)) == Sort(key, s)
  {
    SortOfSortedIsIdentity(key, Sort(key, s));
  }

  // ---------------------------------------------------------------------------
  // Stability
  // ---------------------------------------------------------------------------

  /** The entries of `s` whose key equals that of `c`, in their order in `s`. */
  function SameKeyAs(key: SortKey, s: seq<Entry>, c: Entry): seq<Entry> {
    if |s| == 0 then []
    else Tagged(key, s[0], c) + SameKeyAs(key, s[1..], c)
  }

  /** `[y]` when `y` has the key of `c`, otherwise nothing. */
  function Tagged(key: SortKey, y: Entry, c: Entry): seq<Entry> {
    if Compare(key, y, c) == 0 then [y] else []
  }

  lemma SameKeyAsCons(key: SortKey, y: Entry, s: seq<Entry>, c: Entry)
    ensures SameKeyAs(key, [y] + s, c) == Tagged(key, y, c) + SameKeyAs(key, s, c)
  {
    assert ([y] + s)[1..] == s;
  }

  lemma {:induction false} InsertKeepsClasses(key: SortKey, x: Entry, s: seq<Entry>, c: Entry)
    ensures SameKeyAs(key, Insert(key, x, s), c) == Tagged(key, x, c) + SameKeyAs(key, s, c)
  {
    if |s| == 0 || InOrder(key, x, s[0]) {
      assert Insert(key, x, s) == [x] + s;
      SameKeyAsCons(key, x, s, c);
    } else {
      var rest := Insert(key, x, s[1..]);
      assert Insert(key, x, s) == [s[0]] + rest;
      InsertKeepsClasses(key, x, s[1..], c);
      SameKeyAsCons(key, s[0], rest, c);
      assert s == [s[0]] + s[1..];
      SameKeyAsCons(key, s[0], s[1..], c);
      TaggedCommute(key, x, s[0], c, SameKeyAs(key, s[1..], c));
    }
  }

  /** Entries with different keys never both belong to the class of `c`, so
      their order does not show in it. */
  lemma TaggedCommute(key: SortKey, x: Entry, y: Entry, c: Entry, tail: seq<Entry>)
    requires Compare(key, x, y) > 0
    ensures Tagged(key, y, c) + (Tagged(key, x, c) + tail)
         == Tagged(key, x, c) + (Tagged(key, y, c) + tail)
  {
    if Compare(key, x, c) == 0 && Compare(key, y, c) == 0 {
      CompareAntisymmetric(key, y, c);
      SameKeyTransitive(key, x, c, y);
      assert false;
    }
  }

  /** Entries with equal keys keep their relative order. */
  lemma {:induction false} SortIsStable(key: SortKey, s: seq<Entry>, c: Entry)
    ensures SameKeyAs(key, Sort(key, s), c) == SameKeyAs(key, s, c)
  {
    if |s| > 0 {
      SortIsStable(key, s[1..], c);
      InsertKeepsClasses(key, s[0], Sort(key, s[1..]), c);
    }
  }

  /** A sorted permutation of `s` that keeps every key class in its order in
      `s` is `Sort(key, s)`: any stable sort gives the same result. */
  lemma StableSortIsUnique(key: SortKey, s: seq<Entry>, t: seq<Entry>)
    requires Sorted(key, t)
    requires multiset(t) == multiset(s)
    requires forall c :: SameKeyAs(key, t, c) == SameKeyAs(key, s, c)
    ensures t == Sort(key, s)
  {
    var u := Sort(key, s);
    forall c
      ensures SameKeyAs(key, t, c) == SameKeyAs(key, u, c)
    {
      SortIsStable(key, s, c);
    }
    SortedWithSameClassesAreEqual(key, t, u);
  }

  lemma {:induction false} SortedWithSameClassesAreEqual(key: SortKey, t: seq<Entry>, u: seq<Entry>)
    requires Sorted(key, t) && Sorted(key, u)
    requires multiset(t) == multiset(u)
    requires forall c :: SameKeyAs(key, t, c) == SameKeyAs(key, u, c)
    ensures t == u
    decreases |t|
  {
    if |t| == 0 {
      assert |u| == |multiset(u)| == 0;
    } else {
      assert |u| == |multiset(u)| == |t|;
      SortedHeadsAgree(key, t, u);
      var a := t[0];
      TailsKeepMultiset(t, u);
      assert t == [a] + t[1..] && u == [a] + u[1..];
      forall c
        ensures SameKeyAs(key, t[1..], c) == SameKeyAs(key, u[1..], c)
      {
        SameKeysOfTails(key, a, t[1..], u[1..], c);
      }
      SortedTail(key, t);
      SortedTail(key, u);
      SortedWithSameClassesAreEqual(key, t[1..], u[1..]);
    }
  }

  lemma TailsKeepMultiset(t: seq<Entry>, u: seq<Entry>)
    requires |t| > 0 && |u| > 0 && t[0] == u[0]
    requires multiset(t) == multiset(u)
    ensures multiset(t[1..]) == multiset(u[1..])
  {
    assert t == [t[0]] + t[1..] && u == [u[0]] + u[1..];
    assert multiset(t) == multiset{t[0]} + multiset(t[1..]);
    assert multiset(u) == multiset{t[0]} + multiset(u[1..]);
    assert multiset(t[1..]) == multiset(t) - multiset{t[0]};
    assert multiset(u[1..]) == multiset(u) - multiset{t[0]};
  }

  lemma SortedTail(key: SortKey, s: seq<Entry>)
    requires Sorted(key, s) && |s| > 0
    ensures Sorted(key, s[1..])
  {
  }

  /** Two sorted sequences with the same entries and key classes start alike. */
  lemma SortedHeadsAgree(key: SortKey, t: seq<Entry>, u: seq<Entry>)
    requires Sorted(key, t) && Sorted(key, u)
    requires multiset(t) == multiset(u) && |t| > 0 && |u| > 0
    requires forall c :: SameKeyAs(key, t, c) == SameKeyAs(key, u, c)
    ensures t[0] == u[0]
  {
    var a, b := t[0], u[0];
    assert a in multiset(u) && b in multiset(t);
    FirstIsMinimal(key, u, a);
    FirstIsMinimal(key, t, b);
    CompareAntisymmetric(key, a, b);
    CompareAntisymmetric(key, a, a);
    assert SameKeyAs(key, t, a) == [a] + SameKeyAs(key, t[1..], a);
    assert SameKeyAs(key, u, a) == [b] + SameKeyAs(key, u[1..], a);
    assert SameKeyAs(key, t, a)[0] == SameKeyAs(key, u, a)[0];
  }

  /** Removing a common first entry keeps the key classes equal. */
  lemma SameKeysOfTails(key: SortKey, a: Entry, t: seq<Entry>, u: seq<Entry>, c: Entry)
    requires SameKeyAs(key, [a] + t, c) == SameKeyAs(key, [a] + u, c)
    ensures SameKeyAs(key, t, c) == SameKeyAs(key, u, c)
  {
    SameKeyAsCons(key, a, t, c);
    SameKeyAsCons(key, a, u, c);
    var head := Tagged(key, a, c);
    assert SameKeyAs(key, t, c) == (head + SameKeyAs(key, t, c))[|head|..];
    assert SameKeyAs(key, u, c) == (head + SameKeyAs(key, u, c))[|head|..];
  }

  /** The first entry of a sorted sequence may stand before any of its entries. */
  lemma FirstIsMinimal(key: SortKey, s: seq<Entry>, x: Entry)
    requires Sorted(key, s) && x in multiset(s)
    ensures InOrder(key, s[0], x)
  {
    var k :| 0 <= k < |s| && s[k] == x;
    if k == 0 {
      CompareAntisymmetric(key, x, x);
    }
  }

  // ---------------------------------------------------------------------------
  // The three passes
  // ---------------------------------------------------------------------------

  /** The passes in the order they are applied: name, unit price, arrival
      date. Each re-sorts the result of the one before. */
  function SortPasses(catalog: seq<Entry>): (r: seq<Entry>)
    ensures multiset(r) == multiset(catalog)
    ensures Sorted(ByArrivalDate, r)
  {
    Sort(ByArrivalDate, Sort(ByUnitPrice, Sort(ByProductName, catalog)))
  }

  /** The sample catalog of three products, with unit prices 2.5, 1.75 and
      4.0 as binary64 bit patterns. */
  const ITEM_A := Entry("ItemA", "kg", 10, 0x4004_0000_0000_0000, "2024-01-01", ["FeatureA: ValueA"])
  const ITEM_B := Entry("ItemB", "unit", 20, 0x3FFC_0000_0000_0000, "2024-01-02", ["FeatureB: ValueB"])
  const ITEM_C := Entry("ItemC", "liter", 5, 0x4010_0000_0000_0000, "2024-01-03", ["FeatureC: ValueC"])

  /** The sample names are already in order. */
  lemma SampleNameOrder()
    ensures InOrder(ByProductName, ITEM_A, ITEM_B) && InOrder(ByProductName, ITEM_B, ITEM_C)
  {
  }

  /** 1.75 < 2.5 < 4.0: ItemB is the cheapest. */
  lemma SamplePriceOrder()
    ensures InOrder(ByUnitPrice, ITEM_B, ITEM_A) && InOrder(ByUnitPrice, ITEM_A, ITEM_C)
    ensures !InOrder(ByUnitPrice, ITEM_A, ITEM_B)
  {
  }

  /** The sample dates are consecutive days, already in order. */
  lemma SampleDateOrder()
    ensures InOrder(ByArrivalDate, ITEM_A, ITEM_B) && InOrder(ByArrivalDate, ITEM_B, ITEM_C)
    ensures !InOrder(ByArrivalDate, ITEM_B, ITEM_A)
  {
    var month := "2024-01-0";
    SampleDates(month);
    DayBefore(month, '1', '2');
    DayBefore(month, '2', '3');
    CompareStringsAntisymmetric(ITEM_A.arrivalDate, ITEM_B.arrivalDate);
  }

  lemma SampleDates(month: string)
    requires month == "2024-01-0"
    ensures ITEM_A.arrivalDate == month + ['1']
    ensures ITEM_B.arrivalDate == month + ['2']
    ensures ITEM_C.arrivalDate == month + ['3']
  {
  }

  /** Two dates of one month that differ only in the last digit. */
  lemma DayBefore(prefix: string, d1: char, d2: char)
    requires d1 < d2
    ensures CompareStrings(prefix + [d1], prefix + [d2]) < 0
  {
    var a, b := prefix + [d1], prefix + [d2];
    assert a[..|prefix|] == prefix == b[..|prefix|];
    CompareStringsAtFirstDifference(a, b, |prefix|);
  }

  /** On the sample catalog the name pass keeps the order, the price pass puts
      ItemB first, and the date pass restores the original order. */
  lemma SampleCatalogPasses()
    ensures Sort(ByProductName, [ITEM_A, ITEM_B, ITEM_C]) == [ITEM_A, ITEM_B, ITEM_C]
    ensures Sort(ByUnitPrice, [ITEM_A, ITEM_B, ITEM_C]) == [ITEM_B, ITEM_A, ITEM_C]
    ensures Sort(ByArrivalDate, [ITEM_B, ITEM_A, ITEM_C]) == [ITEM_A, ITEM_B, ITEM_C]
    ensures SortPasses([ITEM_A, ITEM_B, ITEM_C]) == [ITEM_A, ITEM_B, ITEM_C]
  {
    SampleNameOrder();
    SamplePriceOrder();
    SampleDateOrder();
    InOrderTransitive(ByUnitPrice, ITEM_B, ITEM_A, ITEM_C);
    InOrderTransitive(ByArrivalDate, ITEM_A, ITEM_B, ITEM_C);
    SortThreeInOrder(ByProductName, ITEM_A, ITEM_B, ITEM_C);
    SortThreeFirstTwoSwapped(ByUnitPrice, ITEM_A, ITEM_B, ITEM_C);
    SortThreeFirstTwoSwapped(ByArrivalDate, ITEM_B, ITEM_A, ITEM_C);
  }

  lemma SortThreeInOrder(key: SortKey, x: Entry, y: Entry, z: Entry)
    requires InOrder(key, x, y) && InOrder(key, y, z)
    ensures Sort(key, [x, y, z]) == [x, y, z]
  {
    InOrderTransitive(key, x, y, z);
    assert Sorted(key, [x, y, z]);
    SortOfSortedIsIdentity(key, [x, y, z]);
  }

  lemma SortThreeFirstTwoSwapped(key: SortKey, x: Entry, y: Entry, z: Entry)
    requires !InOrder(key, x, y) && InOrder(key, y, z) && InOrder(key, x, z)
    ensures Sort(key, [x, y, z]) == [y, x, z]
  {
    PrependSorted(key, y, [z]);
    assert [y] + [z] == [y, z] && [x] + [y, z] == [x, y, z];
    SortOfSortedIsIdentity(key, [y, z]);
    SortCons(key, x, [y, z]);
    InsertSecond(key, x, y, z);
  }

  lemma InsertSecond(key: SortKey, x: Entry, y: Entry, z: Entry)
    requires !InOrder(key, x, y) && InOrder(key, x, z)
    ensures Insert(key, x, [y, z]) == [y, x, z]
  {
    assert [y, z][1..] == [z];
    assert Insert(key, x, [z]) == [x, z];
  }

  lemma SortCons(key: SortKey, x: Entry, s: seq<Entry>)
    ensures Sort(key, [x] + s) == Insert(key, x, Sort(key, s))
  {
    assert ([x] + s)[1..] == s;
  }
}
