/**
 * The summary chart of updateSuitabilityChart: keep the records of the
 * selected crop and scenario, group them by department and period (the last
 * record wins), list the distinct periods in string order, order the
 * departments by their value at the selected period (largest first, ties in
 * first-appearance order), and build one bar series per period.
 */
module Chart {
  import opened JsValues
  import opened Strings
  import opened Csv

  // ---------------------------------------------------------------------------
  // Filtering
  // ---------------------------------------------------------------------------

  /**
   * `d.crop === crop && d.ssp === ssp`. A selection with no checked radio is
   * undefined (None), and then matches the records that lack that cell.
   */
  predicate Matches(r: Record, crop: Option<string>, ssp: Option<string>) {
    Get(r, "crop") == crop && Get(r, "ssp") == ssp
  }

  /** `suitabilityData.filter(...)`: the period takes no part in it. */
  function Filter(rows: seq<Record>, crop: Option<string>, ssp: Option<string>): (f: seq<Record>)
    ensures |f| <= |rows|
    ensures forall r :: r in f <==> r in rows && Matches(r, crop, ssp)
  {
    if rows == [] then []
    else (if Matches(rows[0], crop, ssp) then [rows[0]] else []) + Filter(rows[1..], crop, ssp)
  }

  /** Filtering keeps the original order: it distributes over concatenation. */
  lemma {:induction false} FilterAppend(a: seq<Record>, b: seq<Record>, crop: Option<string>, ssp: Option<string>)
    ensures Filter(a + b, crop, ssp) == Filter(a, crop, ssp) + Filter(b, crop, ssp)
  {
    if a == [] {
      assert a + b == b;
    } else {
      assert (a + b)[0] == a[0];
      assert (a + b)[1..] == a[1..] + b;
      FilterAppend(a[1..], b, crop, ssp);
    }
  }

  // ---------------------------------------------------------------------------
  // Distinct elements in first-appearance order
  // ---------------------------------------------------------------------------

  predicate NoDuplicates<T(==)>(s: seq<T>) {
    forall i, j :: 0 <= i < j < |s| ==> s[i] != s[j]
  }

  /** The elements of s, each once, in the order they first appear. */
  function Distinct<T(==,!new)>(s: seq<T>): (d: seq<T>)
    ensures NoDuplicates(d)
    ensures forall x :: x in d <==> x in s
  {
    if s == [] then []
    else
      var d := Distinct(s[..|s| - 1]);
      assert forall x :: x in s <==> x in s[..|s| - 1] || x == s[|s| - 1] by {
        assert s == s[..|s| - 1] + [s[|s| - 1]];
      }
      if s[|s| - 1] in d then d else d + [s[|s| - 1]]
  }

  // ---------------------------------------------------------------------------
  // Grouping by department and period
  // ---------------------------------------------------------------------------

  /** `grouped[d.DEPTO]`: the department as an object key. */
  function DeptKey(r: Record): string { JsString(Get(r, "DEPTO"), Undefined) }

  /** `[d.period]`: the period as an object key. */
  function PeriodKey(r: Record): string { JsString(Get(r, "period"), Undefined) }

  /** The department key of each row, in row order. */
  function DeptKeys(rows: seq<Record>): seq<string> {
    seq(|rows|, i requires 0 <= i < |rows| => DeptKey(rows[i]))
  }

  /** The keys are exactly the departments some row names. */
  lemma DeptKeysMembers(rows: seq<Record>)
    ensures forall d :: d in DeptKeys(rows) <==> exists r :: r in rows && DeptKey(r) == d
  {
    var ks := DeptKeys(rows);
    forall d ensures d in ks <==> exists r :: r in rows && DeptKey(r) == d {
      if d in ks {
        var i :| 0 <= i < |ks| && ks[i] == d;
        assert rows[i] in rows && DeptKey(rows[i]) == d;
      }
      if exists r :: r in rows && DeptKey(r) == d {
        var r :| r in rows && DeptKey(r) == d;
        var i :| 0 <= i < |rows| && rows[i] == r;
        assert ks[i] == d;
      }
    }
  }

  /**
   * The `grouped` object: its keys in insertion order (the order
   * `Object.keys` reports) and, per department, period key -> mean value.
   */
  datatype Grouped = Grouped(keys: seq<string>, table: map<string, map<string, Num>>)

  /** `grouped[dep][p]`, None when either key is absent. */
  function Lookup(g: Grouped, dep: string, p: string): Option<Num> {
    if dep in g.table && p in g.table[dep] then Some(g.table[dep][p]) else None
  }

  /** One step of the forEach: create the department's entry if needed, then set the period. */
  function AddRow(g: Grouped, r: Record): Grouped {
    var d := DeptKey(r);
    var inner := if d in g.table then g.table[d] else map[];
    Grouped(if d in g.table then g.keys else g.keys + [d],
            g.table[d := inner[PeriodKey(r) := r.meanValue]])
  }

  /** The `grouped` object after the forEach over rows. */
  function GroupRows(rows: seq<Record>): Grouped {
    if rows == [] then Grouped([], map[])
    else AddRow(GroupRows(rows[..|rows| - 1]), rows[|rows| - 1])
  }

  /** The grouping loop of updateSuitabilityChart. */
  method GroupByDepartment(rows: seq<Record>) returns (g: Grouped)
    ensures g == GroupRows(rows)
  {
    g := Grouped([], map[]);
    var i := 0;
    while i < |rows|
      invariant 0 <= i <= |rows|
      invariant g == GroupRows(rows[..i])
    {
      var d := rows[i];
      var dep := DeptKey(d);
      if dep !in g.table {
        g := Grouped(g.keys + [dep], g.table[dep := map[]]);
      }
      g := Grouped(g.keys, g.table[dep := g.table[dep][PeriodKey(d) := d.meanValue]]);
      assert rows[..i + 1][..i] == rows[..i];
      i := i + 1;
    }
    assert rows[..|rows|] == rows;
  }

  /** The mean value of the last row with this department and period, if any. */
  function LastValue(rows: seq<Record>, dep: string, p: string): Option<Num> {
    if rows == [] then None
    else
      var r := rows[|rows| - 1];
      if DeptKey(r) == dep && PeriodKey(r) == p then Some(r.meanValue)
      else LastValue(rows[..|rows| - 1], dep, p)
  }

  /** LastValue is the value of the last matching row: later rows override earlier ones. */
  lemma {:induction false} LastValueIsLast(rows: seq<Record>, dep: string, p: string, i: nat)
    requires i < |rows| && DeptKey(rows[i]) == dep && PeriodKey(rows[i]) == p
    requires forall j :: i < j < |rows| ==> !(DeptKey(rows[j]) == dep && PeriodKey(rows[j]) == p)
    ensures LastValue(rows, dep, p) == Some(rows[i].meanValue)
  {
    if i < |rows| - 1 {
      LastValueIsLast(rows[..|rows| - 1], dep, p, i);
    }
  }

  /** LastValue is absent exactly when no row has this department and period. */
  lemma {:induction false} LastValueAbsent(rows: seq<Record>, dep: string, p: string)
    ensures LastValue(rows, dep, p).None? <==>
      forall j :: 0 <= j < |rows| ==> !(DeptKey(rows[j]) == dep && PeriodKey(rows[j]) == p)
  {
    if rows != [] {
      var init := rows[..|rows| - 1];
      LastValueAbsent(init, dep, p);
      assert forall j :: 0 <= j < |init| ==> init[j] == rows[j];
    }
  }

  /**
   * The grouping: its keys are the distinct department keys of the rows in
   * first-appearance order, every key has an entry, and `grouped[dep][p]` is
   * the value of the last row with that department and period.
   */
  lemma GroupRowsSpec(rows: seq<Record>)
    ensures GroupRows(rows).keys == Distinct(DeptKeys(rows))
    ensures GroupRows(rows).table.Keys == set d | d in GroupRows(rows).keys
    ensures forall dep, p :: Lookup(GroupRows(rows), dep, p) == LastValue(rows, dep, p)
  {
    GroupRowsKeys(rows);
    GroupRowsLookup(rows);
  }

  /** The grouping's keys: the distinct departments in first-appearance order, each with an entry. */
  lemma {:induction false} GroupRowsKeys(rows: seq<Record>)
    ensures GroupRows(rows).keys == Distinct(DeptKeys(rows))
    ensures GroupRows(rows).table.Keys == set d | d in GroupRows(rows).keys
  {
    if rows != [] {
      var init := rows[..|rows| - 1];
      var r := rows[|rows| - 1];
      GroupRowsKeys(init);
      assert DeptKeys(rows)[..|rows| - 1] == DeptKeys(init);
      var g := GroupRows(init);
      assert DeptKey(r) in g.table <==> DeptKey(r) in Distinct(DeptKeys(init));
    }
  }

  /** The grouping's cells: `grouped[dep][p]` is the value of the last row with that department and period. */
  lemma {:induction false} GroupRowsLookup(rows: seq<Record>)
    ensures forall dep, p :: Lookup(GroupRows(rows), dep, p) == LastValue(rows, dep, p)
  {
    if rows != [] {
      var init := rows[..|rows| - 1];
      var r := rows[|rows| - 1];
      GroupRowsLookup(init);
      var g := GroupRows(init);
      forall dep, p ensures Lookup(GroupRows(rows), dep, p) == LastValue(rows, dep, p) {
        if dep == DeptKey(r) && p == PeriodKey(r) {
        } else {
          assert Lookup(GroupRows(rows), dep, p) == Lookup(g, dep, p);
        }
      }
    }
  }

  // ---------------------------------------------------------------------------
  // The period list
  // ---------------------------------------------------------------------------

  /** `d.period`, undefined when the row has no period cell. */
  function PeriodOf(r: Record): Option<string> { Get(r, "period") }

  /** `filtered.map(d => d.period)` */
  function PeriodsOf(rows: seq<Record>): seq<Option<string>> {
    seq(|rows|, i requires 0 <= i < |rows| => PeriodOf(rows[i]))
  }

  /** The order of the default `sort()`: strings by LexLess, `undefined` after every string. */
  predicate PeriodBefore(a: Option<string>, b: Option<string>) {
    match (a, b)
    case (Some(x), Some(y)) => LexLess(x, y)
    case (Some(_), None) => true
    case (None, _) => false
  }

  lemma PeriodBeforeIsStrictTotal(a: Option<string>, b: Option<string>, c: Option<string>)
    ensures !PeriodBefore(a, a)
    ensures PeriodBefore(a, b) ==> !PeriodBefore(b, a)
    ensures PeriodBefore(a, b) && PeriodBefore(b, c) ==> PeriodBefore(a, c)
    ensures a != b ==> PeriodBefore(a, b) || PeriodBefore(b, a)
  {
    if a.Some? { LexLessIrreflexive(a.value); }
    if a.Some? && b.Some? {
      if LexLess(a.value, b.value) { LexLessAsymmetric(a.value, b.value); }
      if a.value != b.value { LexLessTotal(a.value, b.value); }
      if c.Some? && LexLess(a.value, b.value) && LexLess(b.value, c.value) {
        LexLessTransitive(a.value, b.value, c.value);
      }
    }
  }

  predicate StrictlyAscending(s: seq<Option<string>>) {
    forall i, j :: 0 <= i < j < |s| ==> PeriodBefore(s[i], s[j])
  }

  function InsertPeriod(x: Option<string>, s: seq<Option<string>>): seq<Option<string>> {
    if s == [] then [x]
    else if PeriodBefore(x, s[0]) then [x] + s
    else [s[0]] + InsertPeriod(x, s[1..])
  }

  /** Insertion sort in the order of the default `sort()`. */
  function SortPeriods(s: seq<Option<string>>): seq<Option<string>> {
    if s == [] then [] else InsertPeriod(s[0], SortPeriods(s[1..]))
  }

  lemma {:induction false} InsertPeriodSorted(x: Option<string>, s: seq<Option<string>>)
    requires StrictlyAscending(s) && x !in s
    ensures StrictlyAscending(InsertPeriod(x, s))
    ensures multiset(InsertPeriod(x, s)) == multiset(s) + multiset{x}
  {
    if s != [] && !PeriodBefore(x, s[0]) {
      PeriodBeforeIsStrictTotal(x, s[0], x);
      assert PeriodBefore(s[0], x);
      assert s == [s[0]] + s[1..];
      InsertPeriodSorted(x, s[1..]);
      var t := InsertPeriod(x, s[1..]);
      forall j | 0 <= j < |t| ensures PeriodBefore(s[0], t[j]) {
        assert t[j] in multiset(t);
        if t[j] != x {
          assert t[j] in s[1..];
        }
      }
      PrependAscending(s[0], t);
    } else if s != [] {
      forall j | 0 <= j < |s| ensures PeriodBefore(x, s[j]) {
        if j > 0 { PeriodBeforeIsStrictTotal(x, s[0], s[j]); }
      }
      PrependAscending(x, s);
    }
  }

  /** An element before every element of an ascending list can go in front of it. */
  lemma PrependAscending(x: Option<string>, s: seq<Option<string>>)
    requires StrictlyAscending(s)
    requires forall j :: 0 <= j < |s| ==> PeriodBefore(x, s[j])
    ensures StrictlyAscending([x] + s)
  {
    var t := [x] + s;
    forall i, j | 0 <= i < j < |t| ensures PeriodBefore(t[i], t[j]) {
      assert t[j] == s[j - 1];
      if i > 0 { assert t[i] == s[i - 1]; }
    }
  }

  lemma {:induction false} SortPeriodsSpec(s: seq<Option<string>>)
    requires NoDuplicates(s)
    ensures StrictlyAscending(SortPeriods(s))
    ensures multiset(SortPeriods(s)) == multiset(s)
  {
    if s != [] {
      assert NoDuplicates(s[1..]);
      SortPeriodsSpec(s[1..]);
      assert s[0] !in s[1..];
      assert s[0] !in SortPeriods(s[1..]) by {
        assert s[0] !in multiset(SortPeriods(s[1..]));
      }
      InsertPeriodSorted(s[0], SortPeriods(s[1..]));
      assert s == [s[0]] + s[1..];
    }
  }

  /** `[...new Set(filtered.map(d => d.period))].sort()` */
  function Periods(rows: seq<Record>): seq<Option<string>> {
    SortPeriods(Distinct(PeriodsOf(rows)))
  }

  /** The periods are duplicate-free, strictly ascending, and exactly the rows' periods. */
  lemma PeriodsSpec(rows: seq<Record>)
    ensures NoDuplicates(Periods(rows))
    ensures StrictlyAscending(Periods(rows))
    ensures forall p :: p in Periods(rows) <==> exists i :: 0 <= i < |rows| && PeriodOf(rows[i]) == p
  {
    var d := Distinct(PeriodsOf(rows));
    SortPeriodsSpec(d);
    var ps := Periods(rows);
    forall i, j | 0 <= i < j < |ps| ensures ps[i] != ps[j] {
      PeriodBeforeIsStrictTotal(ps[i], ps[j], ps[j]);
    }
    forall p ensures p in ps <==> p in d {
      assert p in ps <==> p in multiset(ps);
      assert p in d <==> p in multiset(d);
    }
    var ps0 := PeriodsOf(rows);
    forall p ensures p in ps0 <==> exists i :: 0 <= i < |rows| && PeriodOf(rows[i]) == p {
      if p in ps0 {
        var i :| 0 <= i < |ps0| && ps0[i] == p;
        assert PeriodOf(rows[i]) == p;
      }
      if exists i :: 0 <= i < |rows| && PeriodOf(rows[i]) == p {
        var i :| 0 <= i < |rows| && PeriodOf(rows[i]) == p;
        assert ps0[i] == p;
      }
    }
  }

  // ---------------------------------------------------------------------------
  // Ordering the departments
  // ---------------------------------------------------------------------------

  /**
   * `grouped[dep][currentPeriod] || 0` for the period key pk: an absent, NaN
   * or zero value counts as 0.
   */
  function SortKey(g: Grouped, dep: string, pk: string): real {
    match Lookup(g, dep, pk)
    case Some(Fin(x)) => x
    case _ => 0.0
  }

  predicate SortedDescending(s: seq<string>, g: Grouped, pk: string) {
    forall i, j :: 0 <= i < j < |s| ==> SortKey(g, s[i], pk) >= SortKey(g, s[j], pk)
  }

  /** The elements of s that p keeps, in the order of s. */
  function Keep<T>(s: seq<T>, p: T -> bool): seq<T> {
    if s == [] then [] else (if p(s[0]) then [s[0]] else []) + Keep(s[1..], p)
  }

  /** Whether a department's sort key is k. */
  function HasKey(g: Grouped, pk: string, k: real): string -> bool {
    dep => SortKey(g, dep, pk) == k
  }

  /** The departments of s whose key is k, in the order of s. */
  function WithKey(s: seq<string>, g: Grouped, pk: string, k: real): seq<string> {
    Keep(s, HasKey(g, pk, k))
  }

  /** Insert x before the first element whose key is not larger. */
  function InsertDept(x: string, s: seq<string>, g: Grouped, pk: string): seq<string> {
    if s == [] then [x]
    else if SortKey(g, s[0], pk) <= SortKey(g, x, pk) then [x] + s
    else [s[0]] + InsertDept(x, s[1..], g, pk)
  }

  /** The stable comparator sort `(a, b) => valB - valA`, as an insertion sort. */
  function SortDepts(s: seq<string>, g: Grouped, pk: string): seq<string> {
    if s == [] then [] else InsertDept(s[0], SortDepts(s[1..], g, pk), g, pk)
  }

  lemma {:induction false} InsertDeptElements(x: string, s: seq<string>, g: Grouped, pk: string)
    ensures multiset(InsertDept(x, s, g, pk)) == multiset(s) + multiset{x}
  {
    if s != [] && SortKey(g, s[0], pk) > SortKey(g, x, pk) {
      assert s == [s[0]] + s[1..];
      InsertDeptElements(x, s[1..], g, pk);
    }
  }

  lemma {:induction false} InsertDeptSorted(x: string, s: seq<string>, g: Grouped, pk: string)
    requires SortedDescending(s, g, pk)
    ensures SortedDescending(InsertDept(x, s, g, pk), g, pk)
  {
    if s == [] {
    } else if SortKey(g, s[0], pk) > SortKey(g, x, pk) {
      var rest := s[1..];
      SortedTail(s, g, pk);
      InsertDeptSorted(x, rest, g, pk);
      InsertDeptElements(x, rest, g, pk);
      var t := InsertDept(x, rest, g, pk);
      forall b | 0 <= b < |t| ensures SortKey(g, s[0], pk) >= SortKey(g, t[b], pk) {
        assert t[b] in multiset(t);
        if t[b] != x {
          var k :| 0 <= k < |rest| && rest[k] == t[b];
          assert rest[k] == s[k + 1];
        }
      }
      PrependDescending(s[0], t, g, pk);
    } else {
      forall b | 0 <= b < |s| ensures SortKey(g, x, pk) >= SortKey(g, s[b], pk) {
        if b > 0 {
          assert SortKey(g, s[0], pk) >= SortKey(g, s[b], pk);
        }
      }
      PrependDescending(x, s, g, pk);
    }
  }

  lemma SortedTail(s: seq<string>, g: Grouped, pk: string)
    requires SortedDescending(s, g, pk) && s != []
    ensures SortedDescending(s[1..], g, pk)
  {
    var rest := s[1..];
    forall a, b | 0 <= a < b < |rest| ensures SortKey(g, rest[a], pk) >= SortKey(g, rest[b], pk) {
      assert rest[a] == s[a + 1] && rest[b] == s[b + 1];
    }
  }

  /** A department whose key is at least every key of a sorted list can go in front of it. */
  lemma PrependDescending(x: string, s: seq<string>, g: Grouped, pk: string)
    requires SortedDescending(s, g, pk)
    requires forall b :: 0 <= b < |s| ==> SortKey(g, x, pk) >= SortKey(g, s[b], pk)
    ensures SortedDescending([x] + s, g, pk)
  {
    var r := [x] + s;
    forall a, b | 0 <= a < b < |r| ensures SortKey(g, r[a], pk) >= SortKey(g, r[b], pk) {
      assert r[b] == s[b - 1];
      if a > 0 { assert r[a] == s[a - 1]; }
    }
  }

  /** Among departments with equal keys, insertion keeps x (which came first) in front. */
  lemma {:induction false} InsertDeptStable(x: string, s: seq<string>, g: Grouped, pk: string, k: real)
    ensures WithKey(InsertDept(x, s, g, pk), g, pk, k)
         == (if SortKey(g, x, pk) == k then [x] else []) + WithKey(s, g, pk, k)
  {
    if s == [] {
      assert [x][1..] == [];
    } else if SortKey(g, s[0], pk) <= SortKey(g, x, pk) {
      assert ([x] + s)[1..] == s;
    } else {
      InsertDeptStable(x, s[1..], g, pk, k);
      assert ([s[0]] + InsertDept(x, s[1..], g, pk))[1..] == InsertDept(x, s[1..], g, pk);
    }
  }

  /**
   * The department order is a permutation of the input, non-increasing in
   * the key, and stable: the departments of each key keep their input order.
   */
  lemma {:induction false} SortDeptsSpec(s: seq<string>, g: Grouped, pk: string)
    ensures multiset(SortDepts(s, g, pk)) == multiset(s)
    ensures SortedDescending(SortDepts(s, g, pk), g, pk)
    ensures forall k :: WithKey(SortDepts(s, g, pk), g, pk, k) == WithKey(s, g, pk, k)
  {
    if s != [] {
      SortDeptsSpec(s[1..], g, pk);
      InsertDeptSorted(s[0], SortDepts(s[1..], g, pk), g, pk);
      InsertDeptElements(s[0], SortDepts(s[1..], g, pk), g, pk);
      assert s == [s[0]] + s[1..];
      forall k ensures WithKey(SortDepts(s, g, pk), g, pk, k) == WithKey(s, g, pk, k) {
        InsertDeptStable(s[0], SortDepts(s[1..], g, pk), g, pk, k);
      }
    }
  }

  // ---------------------------------------------------------------------------
  // Series, title and the chart option
  // ---------------------------------------------------------------------------

  /** One bar series: its name (the period), one value per department, its colour. */
  datatype Series = Series(name: Option<string>, data: seq<Num>, color: string)

  /** The bar colours, cycled over the series. */
  const Palette: seq<string> := ["#791a96ff", "#150c9bff", "#fa3487ff", "#d7191c"]

  /** `grouped[dep][p] ?? 0`: only an absent entry becomes 0, a NaN is kept. */
  function CellValue(g: Grouped, dep: string, p: Option<string>): Num {
    Lookup(g, dep, JsString(p, Undefined)).GetOr(Fin(0.0))
  }

  /** `periods.map(...)` followed by the colouring `series.map((s, i) => ...)`. */
  function BuildSeries(periods: seq<Option<string>>, deptos: seq<string>, g: Grouped): (series: seq<Series>)
    ensures |series| == |periods|
  {
    seq(|periods|, i requires 0 <= i < |periods| =>
      Series(periods[i],
             seq(|deptos|, j requires 0 <= j < |deptos| => CellValue(g, deptos[j], periods[i])),
             Palette[i % 4]))
  }

  /** The title text: the crop with its first letter upper-cased, " | ", the scenario. */
  function Title(crop: string, ssp: Option<string>): string {
    Capitalize(crop) + " | " + JsString(ssp, Undefined)
  }

  const NoDataTitle: string := "No data available for this combination"

  /** What the chart shows: nothing yet, the empty state, or the bars. */
  datatype ChartOption =
    | Blank
    | NoData(title: string)
    | Bars(title: string, categories: seq<string>, series: seq<Series>)

  /**
   * The option updateSuitabilityChart sets for loaded data and a selection;
   * None when it throws before setting one (no crop checked, yet some records
   * match, so `crop.charAt` is called on undefined).
   */
  function ChartFor(data: seq<Record>, crop: Option<string>, ssp: Option<string>,
                    period: Option<string>): Option<ChartOption>
  {
    var filtered := Filter(data, crop, ssp);
    if filtered == [] then Some(NoData(NoDataTitle))
    else if crop.None? then None
    else
      var g := GroupRows(filtered);
      var deptos := SortDepts(g.keys, g, JsString(period, Undefined));
      Some(Bars(Title(crop.value, ssp), deptos, BuildSeries(Periods(filtered), deptos, g)))
  }

  /** The value a department is ordered by: its last value at the period, absent or NaN as 0. */
  function OrderValue(rows: seq<Record>, dep: string, pk: string): real {
    match LastValue(rows, dep, pk)
    case Some(Fin(x)) => x
    case _ => 0.0
  }

  /**
   * The empty state is shown exactly when no record has the selected crop
   * and scenario, and the update throws exactly when some record matches
   * while no crop is selected.
   */
  lemma ChartEmptyCase(data: seq<Record>, crop: Option<string>, ssp: Option<string>, period: Option<string>)
    ensures ChartFor(data, crop, ssp, period) == Some(NoData(NoDataTitle)) <==>
      forall r :: r in data ==> !Matches(r, crop, ssp)
    ensures ChartFor(data, crop, ssp, period).None? <==>
      crop.None? && exists r :: r in data && Matches(r, crop, ssp)
    ensures ChartFor(data, crop, ssp, period).Some? ==>
      ChartFor(data, crop, ssp, period).value.NoData? || ChartFor(data, crop, ssp, period).value.Bars?
  {
    var f := Filter(data, crop, ssp);
    if f != [] {
      assert f[0] in f;
    }
  }

  /**
   * The department axis: each department key of the matching records once,
   * ordered by OrderValue at the selected period, largest first, ties in the
   * order the departments first appear.
   */
  lemma ChartDepartments(data: seq<Record>, crop: Option<string>, ssp: Option<string>, period: Option<string>)
    requires ChartFor(data, crop, ssp, period).Some? && ChartFor(data, crop, ssp, period).value.Bars?
    ensures var filtered := Filter(data, crop, ssp);
      var pk := JsString(period, Undefined);
      var deptos := ChartFor(data, crop, ssp, period).value.categories;
      && NoDuplicates(deptos)
      && (forall d :: d in deptos <==> d in DeptKeys(filtered))
      && (forall i, j :: 0 <= i < j < |deptos| ==>
            OrderValue(filtered, deptos[i], pk) >= OrderValue(filtered, deptos[j], pk))
      && (forall i, j ::
            0 <= i < j < |deptos| && OrderValue(filtered, deptos[i], pk) == OrderValue(filtered, deptos[j], pk)
            ==> FirstIndex(DeptKeys(filtered), deptos[i]) < FirstIndex(DeptKeys(filtered), deptos[j]))
  {
    var filtered := Filter(data, crop, ssp);
    var pk := JsString(period, Undefined);
    var g := GroupRows(filtered);
    var deptos := SortDepts(g.keys, g, pk);
    assert ChartFor(data, crop, ssp, period).value.categories == deptos;
    GroupRowsSpec(filtered);
    SortKeyIsOrderValue(filtered, pk);
    SortedDepartments(g.keys, g, pk);
    forall i, j |
        0 <= i < j < |deptos| && OrderValue(filtered, deptos[i], pk) == OrderValue(filtered, deptos[j], pk)
      ensures FirstIndex(DeptKeys(filtered), deptos[i]) < FirstIndex(DeptKeys(filtered), deptos[j])
    {
      DistinctOrder(DeptKeys(filtered), deptos[i], deptos[j]);
    }
  }

  /** The sort key of the grouping is the last value of the rows, absent or NaN as 0. */
  lemma SortKeyIsOrderValue(rows: seq<Record>, pk: string)
    ensures forall d :: SortKey(GroupRows(rows), d, pk) == OrderValue(rows, d, pk)
  {
    GroupRowsSpec(rows);
  }

  /**
   * Sorting duplicate-free keys gives each key once, by non-increasing sort
   * key, equal sort keys in input order.
   */
  lemma SortedDepartments(keys: seq<string>, g: Grouped, pk: string)
    requires NoDuplicates(keys)
    ensures var deptos := SortDepts(keys, g, pk);
      && NoDuplicates(deptos)
      && (forall d :: d in deptos <==> d in keys)
      && SortedDescending(deptos, g, pk)
      && (forall i, j ::
            0 <= i < j < |deptos| && SortKey(g, deptos[i], pk) == SortKey(g, deptos[j], pk)
            ==> FirstIndex(keys, deptos[i]) < FirstIndex(keys, deptos[j]))
  {
    var deptos := SortDepts(keys, g, pk);
    SortDeptsSpec(keys, g, pk);
    forall d ensures d in deptos <==> d in keys {
      assert d in deptos <==> d in multiset(deptos);
      assert d in keys <==> d in multiset(keys);
    }
    forall i, j | 0 <= i < j < |deptos| ensures deptos[i] != deptos[j] {
      PermutationOfDistinct(keys, deptos, i, j);
    }
    forall i, j | 0 <= i < j < |deptos| && SortKey(g, deptos[i], pk) == SortKey(g, deptos[j], pk)
      ensures FirstIndex(keys, deptos[i]) < FirstIndex(keys, deptos[j])
    {
      StableOrder(keys, deptos, g, pk, i, j);
    }
  }

  /**
   * The bars: the title names the crop and scenario, there is one series per
   * period in the period order, coloured from the palette by index, and each
   * holds one value per department: the last value of that department and
   * period, or 0 when there is none.
   */
  lemma ChartSeries(data: seq<Record>, crop: Option<string>, ssp: Option<string>, period: Option<string>)
    requires ChartFor(data, crop, ssp, period).Some? && ChartFor(data, crop, ssp, period).value.Bars?
    ensures var filtered := Filter(data, crop, ssp);
      var c := ChartFor(data, crop, ssp, period).value;
      && crop.Some?
      && c.title == Title(crop.value, ssp)
      && |c.series| == |Periods(filtered)|
      && forall i :: 0 <= i < |c.series| ==>
           && c.series[i].name == Periods(filtered)[i]
           && c.series[i].color == Palette[i % 4]
           && |c.series[i].data| == |c.categories|
           && forall j :: 0 <= j < |c.categories| ==>
                c.series[i].data[j] == LastValue(filtered, c.categories[j], JsString(Periods(filtered)[i], Undefined)).GetOr(Fin(0.0))
  {
    var filtered := Filter(data, crop, ssp);
    GroupRowsSpec(filtered);
  }

  /** The title: the crop with its first letter upper-cased, " | ", then the scenario ("undefined" when none). */
  lemma TitleShape(crop: string, ssp: Option<string>)
    ensures var t := Title(crop, ssp);
      && |t| == |crop| + 3 + |JsString(ssp, Undefined)|
      && (|crop| > 0 ==> t[0] == UpperChar(crop[0]) && t[1..|crop|] == crop[1..])
      && t[|crop|..|crop| + 3] == " | "
      && t[|crop| + 3..] == JsString(ssp, Undefined)
  {
  }

  // ---------------------------------------------------------------------------
  // Positions
  // ---------------------------------------------------------------------------

  /** The position of the first occurrence of x in s (|s| when absent). */
  function FirstIndex<T(==)>(s: seq<T>, x: T): (i: nat)
    ensures i <= |s|
    ensures i < |s| <==> x in s
    ensures i < |s| ==> s[i] == x
    ensures forall j :: 0 <= j < i ==> s[j] != x
  {
    if s == [] then 0 else if s[0] == x then 0 else 1 + FirstIndex(s[1..], x)
  }

  /** The first position in a concatenation. */
  lemma {:induction false} FirstIndexConcat<T>(s: seq<T>, t: seq<T>, x: T)
    ensures FirstIndex(s + t, x) == if x in s then FirstIndex(s, x) else |s| + FirstIndex(t, x)
  {
    if s == [] {
      assert s + t == t;
    } else {
      assert (s + t)[0] == s[0];
      assert (s + t)[1..] == s[1..] + t;
      FirstIndexConcat(s[1..], t, x);
    }
  }

  /** A permutation of a duplicate-free sequence is duplicate-free. */
  lemma PermutationOfDistinct(keys: seq<string>, perm: seq<string>, i: nat, j: nat)
    requires NoDuplicates(keys) && multiset(perm) == multiset(keys)
    requires i < j < |perm|
    ensures perm[i] != perm[j]
  {
    var x := perm[i];
    assert perm == perm[..j] + [perm[j]] + perm[j + 1..];
    assert x in perm[..j];
    assert multiset(perm)[x] >= multiset(perm[..j])[x] + multiset([perm[j]])[x];
    DistinctCountsOnce(keys, x);
  }

  lemma {:induction false} DistinctCountsOnce(keys: seq<string>, x: string)
    requires NoDuplicates(keys)
    ensures multiset(keys)[x] <= 1
  {
    if keys != [] {
      assert keys == [keys[0]] + keys[1..];
      assert NoDuplicates(keys[1..]);
      DistinctCountsOnce(keys[1..], x);
      if keys[0] == x {
        assert x !in keys[1..];
      }
    }
  }

  /**
   * In a stable sort of duplicate-free keys, two outputs with equal sort
   * keys appear in their input order.
   */
  lemma StableOrder(keys: seq<string>, deptos: seq<string>, g: Grouped, pk: string, i: nat, j: nat)
    requires NoDuplicates(keys) && NoDuplicates(deptos) && multiset(deptos) == multiset(keys)
    requires forall k :: WithKey(deptos, g, pk, k) == WithKey(keys, g, pk, k)
    requires i < j < |deptos| && SortKey(g, deptos[i], pk) == SortKey(g, deptos[j], pk)
    ensures FirstIndex(keys, deptos[i]) < FirstIndex(keys, deptos[j])
  {
    var k := SortKey(g, deptos[i], pk);
    var p := HasKey(g, pk, k);
    var a, b := deptos[i], deptos[j];
    assert p(a) && p(b);
    assert WithKey(deptos, g, pk, k) == WithKey(keys, g, pk, k);
    KeepOrder(deptos, p, i, j);
    KeepPreservesOrder(keys, p, a, b);
  }

  /** Two kept elements at i < j of a duplicate-free list keep that order. */
  lemma {:induction false} KeepOrder<T>(s: seq<T>, p: T -> bool, i: nat, j: nat)
    requires NoDuplicates(s) && i < j < |s| && p(s[i]) && p(s[j])
    ensures FirstIndex(Keep(s, p), s[i]) < FirstIndex(Keep(s, p), s[j])
    ensures s[j] in Keep(s, p)
  {
    var rest := Keep(s[1..], p);
    assert s[j] == s[1..][j - 1] && s[j] != s[0];
    KeepMember(s[1..], p, j - 1);
    if i > 0 {
      assert s[i] == s[1..][i - 1] && s[i] != s[0];
      NoDuplicatesTail(s);
      KeepOrder(s[1..], p, i - 1, j - 1);
    }
    if p(s[0]) {
      var w := [s[0]] + rest;
      assert Keep(s, p) == w && w[1..] == rest;
    } else {
      assert Keep(s, p) == rest;
    }
  }

  lemma NoDuplicatesTail<T>(s: seq<T>)
    requires NoDuplicates(s) && s != []
    ensures NoDuplicates(s[1..])
  {
  }

  lemma {:induction false} KeepMember<T>(s: seq<T>, p: T -> bool, j: nat)
    requires j < |s| && p(s[j])
    ensures s[j] in Keep(s, p)
  {
    if j > 0 {
      assert s[j] == s[1..][j - 1];
      KeepMember(s[1..], p, j - 1);
    }
  }

  /** If a precedes a kept b in Keep(s), a's first position in s precedes b's. */
  lemma {:induction false} KeepPreservesOrder<T>(s: seq<T>, p: T -> bool, a: T, b: T)
    requires a != b && p(b)
    requires FirstIndex(Keep(s, p), a) < FirstIndex(Keep(s, p), b)
    ensures FirstIndex(s, a) < FirstIndex(s, b)
  {
    if s != [] && s[0] != a {
      var head := if p(s[0]) then [s[0]] else [];
      var rest := Keep(s[1..], p);
      FirstIndexConcat(head, rest, a);
      FirstIndexConcat(head, rest, b);
      KeepPreservesOrder(s[1..], p, a, b);
    }
  }

  /** Distinct keeps the order of first appearances. */
  lemma {:induction false} DistinctOrder<T(!new)>(s: seq<T>, a: T, b: T)
    requires a in s && b in s
    requires FirstIndex(Distinct(s), a) < FirstIndex(Distinct(s), b)
    ensures FirstIndex(s, a) < FirstIndex(s, b)
  {
    var init := s[..|s| - 1];
    var x := s[|s| - 1];
    var d := Distinct(init);
    assert s == init + [x];
    FirstIndexConcat(init, [x], a);
    FirstIndexConcat(init, [x], b);
    FirstIndexConcat(d, [x], a);
    FirstIndexConcat(d, [x], b);
    if a in init && b in init {
      DistinctOrder(init, a, b);
    }
  }

  // ---------------------------------------------------------------------------
  // The chart component
  // ---------------------------------------------------------------------------

  /** The module state of the chart script: the loaded records and the option on display. */
  class SuitabilityChart {
    var data: seq<Record>
    var option: ChartOption

    /** The module-level `suitabilityChart` and `suitabilityData` before any load: no records and nothing on display. */
    constructor ()
      ensures data == [] && option == Blank
    {
      data := [];
      option := Blank;
    }

    /**
     * updateSuitabilityChart for the current selection: nothing before any
     * record is loaded, nothing when it throws, otherwise the option of ChartFor.
     */
    method Update(crop: Option<string>, ssp: Option<string>, period: Option<string>)
      modifies this
      ensures data == old(data)
      ensures old(data) == [] || ChartFor(data, crop, ssp, period).None? ==> option == old(option)
      ensures old(data) != [] && ChartFor(data, crop, ssp, period).Some? ==>
        option == ChartFor(data, crop, ssp, period).value
    {
      if |data| == 0 {
        return;
      }
      var chart := ChartFor(data, crop, ssp, period);
      if chart.None? {
        return;
      }
      option := chart.value;
    }

    /** initSuitabilityChart after the fetch: parse the CSV text, then update once. */
    method Load(csvText: string, parse: string -> Num,
                crop: Option<string>, ssp: Option<string>, period: Option<string>)
      modifies this
      ensures data == ParseCsv(csvText, parse)
      ensures data == [] || ChartFor(data, crop, ssp, period).None? ==> option == old(option)
      ensures data != [] && ChartFor(data, crop, ssp, period).Some? ==>
        option == ChartFor(data, crop, ssp, period).value
    {
      data := ParseSummary(csvText, parse);
      Update(crop, ssp, period);
    }
  }
}
