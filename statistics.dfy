/**
 * `get_statistics`: the row count, the `GROUP BY status` tally, and the top
 * ten companies and locations by count (NULL excluded). A tally is a list of
 * (value, count) entries with distinct values. SQL leaves the order of
 * `GROUP BY` groups, and of equal counts under `ORDER BY count DESC`,
 * unspecified; the model fixes one admissible order (groups by first
 * occurrence in the table, ties in that same order), and the properties
 * proved about the tallies hold whatever that order is.
 */
module Statistics {
  import opened Wrappers
  import opened Schema

  datatype Tally<K> = Tally(key: K, count: nat)

  datatype Stats = Stats(
    total: nat,
    byStatus: seq<Tally<Option<string>>>,
    byCompany: seq<Tally<string>>,
    byLocation: seq<Tally<string>>)

  /** Number of occurrences of `x` in `xs`. */
  function Occurrences<T(==,!new)>(xs: seq<T>, x: T): (n: nat)
    ensures n <= |xs|
    ensures n == 0 <==> x !in xs
  {
    if xs == [] then 0
    else Occurrences(xs[..|xs| - 1], x) + (if xs[|xs| - 1] == x then 1 else 0)
  }

  predicate NoDuplicates<T(==,!new)>(xs: seq<T>) {
    forall i, j :: 0 <= i < j < |xs| ==> xs[i] != xs[j]
  }

  /** The distinct values of `xs`, in order of first occurrence. */
  function Distinct<T(==,!new)>(xs: seq<T>): (ds: seq<T>)
    ensures NoDuplicates(ds)
    ensures forall x :: x in ds <==> x in xs
  {
    if xs == [] then []
    else
      var rest := Distinct(xs[..|xs| - 1]);
      var x := xs[|xs| - 1];
      assert forall y :: y in xs <==> y in xs[..|xs| - 1] || y == x;
      if x in rest then rest else rest + [x]
  }

  /** `GROUP BY`: one entry per distinct value, carrying its number of occurrences; listing the groups by first occurrence is one admissible order. */
  function GroupCount<T(==,!new)>(xs: seq<T>): (g: seq<Tally<T>>)
    ensures |g| == |Distinct(xs)|
    ensures forall k :: 0 <= k < |g| ==> g[k].key == Distinct(xs)[k] && g[k].count == Occurrences(xs, g[k].key)
  {
    var ds := Distinct(xs);
    seq(|ds|, k requires 0 <= k < |ds| => Tally(ds[k], Occurrences(xs, ds[k])))
  }

  function CountSum<K(!new)>(g: seq<Tally<K>>): nat {
    if g == [] then 0 else CountSum(g[..|g| - 1]) + g[|g| - 1].count
  }

  predicate DistinctKeys<K(==,!new)>(g: seq<Tally<K>>) {
    forall i, j :: 0 <= i < j < |g| ==> g[i].key != g[j].key
  }

  predicate CountsDescending<K(!new)>(g: seq<Tally<K>>) {
    forall i, j :: 0 <= i < j < |g| ==> g[i].count >= g[j].count
  }

  /** Position of the first entry with the largest count. */
  function FirstMax<K(!new)>(g: seq<Tally<K>>): (i: nat)
    requires g != []
    ensures i < |g|
    ensures forall j :: 0 <= j < |g| ==> g[j].count <= g[i].count
    ensures forall j :: 0 <= j < i ==> g[j].count < g[i].count
  {
    if |g| == 1 then 0
    else
      var i := FirstMax(g[..|g| - 1]);
      if g[|g| - 1].count > g[i].count then |g| - 1 else i
  }

  function RemoveAt<K(!new)>(g: seq<Tally<K>>, i: nat): (r: seq<Tally<K>>)
    requires i < |g|
    ensures |r| == |g| - 1
    ensures forall t :: t in r ==> t in g
    ensures forall t :: t in g && t != g[i] ==> t in r
  {
    g[..i] + g[i + 1..]
  }

  /** `ORDER BY count DESC LIMIT k`; among equal counts the earlier entry is taken first, one of the orders the query admits. */
  function TopK<K(!new)>(g: seq<Tally<K>>, k: nat): (r: seq<Tally<K>>)
    ensures |r| == if |g| < k then |g| else k
    ensures forall t :: t in r ==> t in g
    decreases k
  {
    if k == 0 || g == [] then []
    else
      var i := FirstMax(g);
      [g[i]] + TopK(RemoveAt(g, i), k - 1)
  }

  function CellValue(r: Row, c: Column): Option<string> {
    if c in r.cells then Some(r.cells[c]) else None
  }

  function ColumnValues(rows: seq<Row>, c: Column): (vs: seq<Option<string>>)
    ensures |vs| == |rows|
    ensures forall j :: 0 <= j < |rows| ==> vs[j] == CellValue(rows[j], c)
  {
    seq(|rows|, j requires 0 <= j < |rows| => CellValue(rows[j], c))
  }

  /** The non-NULL values of a column, in table order (`WHERE c IS NOT NULL`). */
  function NonNull(rows: seq<Row>, c: Column): (vs: seq<string>)
    ensures forall v :: v in vs <==> exists j :: 0 <= j < |rows| && c in rows[j].cells && rows[j].cells[c] == v
  {
    if rows == [] then []
    else
      var rest := NonNull(rows[..|rows| - 1], c);
      var last := rows[|rows| - 1];
      assert forall j :: 0 <= j < |rows| - 1 ==> rows[..|rows| - 1][j] == rows[j];
      if c in last.cells then rest + [last.cells[c]] else rest
  }

  const TopLimit: nat := 10

  /** `get_statistics`; `queryOk` is false when a query raises, which yields zeros and empty tallies. */
  function GetStatistics(rows: seq<Row>, queryOk: bool): (s: Stats)
    ensures !queryOk ==> s.total == 0 && s.byStatus == [] && s.byCompany == [] && s.byLocation == []
    ensures queryOk ==> s.total == |rows| && |s.byStatus| == |Distinct(ColumnValues(rows, Status))|
    ensures |s.byCompany| <= TopLimit && |s.byLocation| <= TopLimit
  {
    if !queryOk then Stats(0, [], [], [])
    else Stats(
      |rows|,
      GroupCount(ColumnValues(rows, Status)),
      TopK(GroupCount(NonNull(rows, Company)), TopLimit),
      TopK(GroupCount(NonNull(rows, Location)), TopLimit))
  }

  // ---- properties ----

  lemma {:induction false} CountSumSnoc<K(!new)>(g: seq<Tally<K>>, t: Tally<K>)
    ensures CountSum(g + [t]) == CountSum(g) + t.count
  {
    assert (g + [t])[..|g|] == g;
  }

  /** Summing the occurrences of a duplicate-free list of values over `xs + [x]`. */
  function OccurrenceSum<T(==,!new)>(ds: seq<T>, xs: seq<T>): nat {
    if ds == [] then 0 else OccurrenceSum(ds[..|ds| - 1], xs) + Occurrences(xs, ds[|ds| - 1])
  }

  lemma {:induction false} OccurrenceSumSnoc<T(!new)>(ds: seq<T>, xs: seq<T>, x: T)
    requires NoDuplicates(ds)
    ensures OccurrenceSum(ds, xs + [x]) == OccurrenceSum(ds, xs) + (if x in ds then 1 else 0)
    decreases |ds|
  {
    assert (xs + [x])[..|xs|] == xs;
    if ds != [] {
      var init := ds[..|ds| - 1];
      assert forall i, j :: 0 <= i < j < |init| ==> init[i] == ds[i] && init[j] == ds[j];
      OccurrenceSumSnoc(init, xs, x);
      assert x in ds <==> x in init || x == ds[|ds| - 1];
      if x == ds[|ds| - 1] {
        assert x !in init by {
          forall j | 0 <= j < |init| ensures init[j] != x { assert init[j] == ds[j]; }
        }
      }
    }
  }

  lemma {:induction false} OccurrenceSumDistinct<T(!new)>(xs: seq<T>)
    ensures OccurrenceSum(Distinct(xs), xs) == |xs|
    decreases |xs|
  {
    if xs != [] {
      var init, x := xs[..|xs| - 1], xs[|xs| - 1];
      assert xs == init + [x];
      var rest := Distinct(init);
      OccurrenceSumDistinct(init);
      OccurrenceSumSnoc(rest, init, x);
      if x !in rest {
        assert (rest + [x])[..|rest|] == rest;
        assert Occurrences(init, x) == 0;
      }
    }
  }

  lemma {:induction false} OccurrenceSumOfEmpty<T(!new)>(ds: seq<T>)
    ensures OccurrenceSum(ds, []) == 0
    decreases |ds|
  {
    if ds != [] {
      OccurrenceSumOfEmpty(ds[..|ds| - 1]);
    }
  }

  /** Counting the occurrences of distinct values never exceeds the list, and covers it when every element is one of them. */
  lemma {:induction false} OccurrenceSumBounded<T(!new)>(ds: seq<T>, xs: seq<T>)
    requires NoDuplicates(ds)
    ensures OccurrenceSum(ds, xs) <= |xs|
    ensures (forall i :: 0 <= i < |xs| ==> xs[i] in ds) ==> OccurrenceSum(ds, xs) == |xs|
    decreases |xs|
  {
    if xs == [] {
      OccurrenceSumOfEmpty(ds);
    } else {
      var init, x := xs[..|xs| - 1], xs[|xs| - 1];
      assert xs == init + [x];
      OccurrenceSumBounded(ds, init);
      OccurrenceSumSnoc(ds, init, x);
    }
  }

  lemma {:induction false} CountSumIsOccurrenceSum<T(!new)>(g: seq<Tally<T>>, ds: seq<T>, xs: seq<T>)
    requires |g| == |ds|
    requires forall k :: 0 <= k < |g| ==> g[k].key == ds[k] && g[k].count == Occurrences(xs, ds[k])
    ensures CountSum(g) == OccurrenceSum(ds, xs)
    decreases |g|
  {
    if g != [] {
      CountSumIsOccurrenceSum(g[..|g| - 1], ds[..|ds| - 1], xs);
    }
  }

  /** The `GROUP BY` counts add up to the number of values grouped. */
  lemma GroupCountSum<T(!new)>(xs: seq<T>)
    ensures CountSum(GroupCount(xs)) == |xs|
  {
    CountSumIsOccurrenceSum(GroupCount(xs), Distinct(xs), xs);
    OccurrenceSumDistinct(xs);
  }

  /** A `GROUP BY` tally has one entry per value present, every count positive. */
  lemma GroupCountShape<T(!new)>(xs: seq<T>)
    ensures DistinctKeys(GroupCount(xs))
    ensures forall x :: x in xs <==> exists k :: 0 <= k < |GroupCount(xs)| && GroupCount(xs)[k].key == x
    ensures forall k :: 0 <= k < |GroupCount(xs)| ==> GroupCount(xs)[k].count > 0
  {
    var g, ds := GroupCount(xs), Distinct(xs);
    forall x | x in xs ensures exists k :: 0 <= k < |g| && g[k].key == x {
      var k :| 0 <= k < |ds| && ds[k] == x;
      assert g[k].key == x;
    }
  }

  /** The top-k selection is listed by count descending. */
  lemma {:induction false} TopKDescending<K(!new)>(g: seq<Tally<K>>, k: nat)
    ensures CountsDescending(TopK(g, k))
    decreases k
  {
    if k != 0 && g != [] {
      var i := FirstMax(g);
      var rest := TopK(RemoveAt(g, i), k - 1);
      TopKDescending(RemoveAt(g, i), k - 1);
      var r := TopK(g, k);
      assert r == [g[i]] + rest;
      forall a, b | 0 <= a < b < |r| ensures r[a].count >= r[b].count {
        if a == 0 {
          assert r[b] == rest[b - 1];
          assert r[b] in g;
        } else {
          assert r[a] == rest[a - 1] && r[b] == rest[b - 1];
        }
      }
    }
  }

  /** An entry the top-k selection leaves out counts no more than any entry it keeps, and then k entries were kept. */
  lemma {:induction false} TopKKeepsLargest<K(!new)>(g: seq<Tally<K>>, k: nat, t: Tally<K>)
    requires t in g && t !in TopK(g, k)
    ensures |TopK(g, k)| == k
    ensures forall e :: e in TopK(g, k) ==> t.count <= e.count
    decreases k
  {
    if k != 0 {
      var i := FirstMax(g);
      var rest := RemoveAt(g, i);
      assert TopK(g, k) == [g[i]] + TopK(rest, k - 1);
      assert t in rest;
      TopKKeepsLargest(rest, k - 1, t);
    }
  }

  /** Removing position `i` of a list with distinct keys keeps the keys distinct. */
  lemma RemoveAtDistinct<K(!new)>(g: seq<Tally<K>>, i: nat)
    requires i < |g| && DistinctKeys(g)
    ensures DistinctKeys(RemoveAt(g, i)) && g[i] !in RemoveAt(g, i)
  {
    var r := RemoveAt(g, i);
    forall a | 0 <= a < |r| ensures r[a] == (if a < i then g[a] else g[a + 1]) { }
  }

  lemma {:induction false} TopKDistinct<K(!new)>(g: seq<Tally<K>>, k: nat)
    requires DistinctKeys(g)
    ensures DistinctKeys(TopK(g, k))
    decreases k
  {
    if k != 0 && g != [] {
      var i := FirstMax(g);
      RemoveAtDistinct(g, i);
      TopKDistinct(RemoveAt(g, i), k - 1);
      var r := TopK(g, k);
      forall a, b | 0 <= a < b < |r| ensures r[a].key != r[b].key {
        if a == 0 {
          var t := r[b];
          assert t in RemoveAt(g, i);
          var m :| 0 <= m < |g| && g[m] == t;
          assert m != i;
        }
      }
    }
  }

  /**
   * The statistics over a readable table: `by_status` counts add up to
   * `total`; the company and location tallies hold at most ten distinct
   * non-NULL values, by count descending, each with its exact row count, and
   * no value left out counts more than one kept.
   */
  lemma StatisticsProperties(rows: seq<Row>)
    ensures var s := GetStatistics(rows, true);
      && s.total == |rows|
      && CountSum(s.byStatus) == s.total
      && |s.byCompany| <= TopLimit && |s.byLocation| <= TopLimit
      && CountsDescending(s.byCompany) && CountsDescending(s.byLocation)
      && DistinctKeys(s.byCompany) && DistinctKeys(s.byLocation)
      && (forall t :: t in s.byCompany ==> t.count == Occurrences(NonNull(rows, Company), t.key) > 0)
      && (forall t :: t in s.byLocation ==> t.count == Occurrences(NonNull(rows, Location), t.key) > 0)
  {
    GroupCountSum(ColumnValues(rows, Status));
    var gc, gl := GroupCount(NonNull(rows, Company)), GroupCount(NonNull(rows, Location));
    GroupCountShape(NonNull(rows, Company));
    GroupCountShape(NonNull(rows, Location));
    TopKDescending(gc, TopLimit);
    TopKDescending(gl, TopLimit);
    TopKDistinct(gc, TopLimit);
    TopKDistinct(gl, TopLimit);
  }

  /** A company left out of the top ten counts no more than every company in it. */
  lemma StatisticsTopCompanies(rows: seq<Row>, t: Tally<string>)
    requires t in GroupCount(NonNull(rows, Company)) && t !in GetStatistics(rows, true).byCompany
    ensures |GetStatistics(rows, true).byCompany| == TopLimit
    ensures forall e :: e in GetStatistics(rows, true).byCompany ==> t.count <= e.count
  {
    TopKKeepsLargest(GroupCount(NonNull(rows, Company)), TopLimit, t);
  }

  /** The same for locations: a location left out of the top 10 counts no more than any location kept, and then exactly 10 are kept. */
  lemma StatisticsTopLocations(rows: seq<Row>, t: Tally<string>)
    requires t in GroupCount(NonNull(rows, Location)) && t !in GetStatistics(rows, true).byLocation
    ensures |GetStatistics(rows, true).byLocation| == TopLimit
    ensures forall e :: e in GetStatistics(rows, true).byLocation ==> t.count <= e.count
  {
    TopKKeepsLargest(GroupCount(NonNull(rows, Location)), TopLimit, t);
  }

  /** When a query fails, every figure is zero or empty. */
  lemma StatisticsOnError(rows: seq<Row>)
    ensures GetStatistics(rows, false) == Stats(0, [], [], [])
  {
  }
}
