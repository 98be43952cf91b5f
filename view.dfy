/** The derived list the page displays (`filteredCars`): `filterCars` selects
    records by the four search inputs, `sortCars` reorders the selection. */
module View {
  import opened Wrappers
  import opened JsText
  import opened Inventory

  /** The raw values of the search box and the year, make and model filters. */
  datatype Criteria = Criteria(search: string, year: string, make: string, model: string)

  /** Every filter input left empty. */
  const NoCriteria: Criteria := Criteria("", "", "", "")

  /** `s.toLowerCase().includes(term)`; `None` when `s` is undefined, where
      calling `toLowerCase` throws a TypeError. */
  function LowerIncludes(s: Option<string>, term: string): Option<bool>
  {
    match s
    case None => None
    case Some(v) => Some(Includes(Lower(v), term))
  }

  /** JavaScript's short-circuit `a || b` on outcomes that may have thrown:
      `b` is only evaluated when `a` is false. */
  function OrElse(a: Option<bool>, b: Option<bool>): Option<bool>
  {
    match a
    case None => None
    case Some(true) => Some(true)
    case Some(false) => b
  }

  /** `matchesSearch` for the lowered search term: owner, make, model and id
      are tried in turn. */
  function SearchVerdict(c: Car, term: string): Option<bool>
  {
    if term == [] then Some(true)
    else OrElse(LowerIncludes(c.owner, term),
         OrElse(LowerIncludes(c.make, term),
         OrElse(LowerIncludes(c.model, term),
                Some(Includes(Lower(c.id), term)))))
  }

  /** `year.toString()`: the decimal text of a number, "NaN" for NaN, and
      `None` for `null`, on which the call throws. */
  function YearText(y: Year): Option<string>
  {
    match y
    case Num(n) => Some(IntToDecimal(n))
    case NaN => Some("NaN")
    case Null => None
  }

  /** `matchesYear`: the year's text equals the filter exactly. */
  function YearVerdict(c: Car, filter: string): Option<bool>
  {
    if filter == [] then Some(true)
    else
      match YearText(c.year)
      case None => None
      case Some(t) => Some(t == filter)
  }

  /** `matchesMake`: strict, case-sensitive equality with the make. */
  predicate MakeVerdict(c: Car, filter: string)
  {
    filter == [] || c.make == Some(filter)
  }

  /** `matchesModel` for the lowered model filter. */
  function ModelVerdict(c: Car, term: string): Option<bool>
  {
    if term == [] then Some(true) else LowerIncludes(c.model, term)
  }

  /** The callback given to `cars.filter`: all four tests are evaluated before
      they are combined, so any one of them throwing makes the call throw. */
  function Verdict(c: Car, crit: Criteria): Option<bool>
  {
    var search := SearchVerdict(c, Lower(crit.search));
    var year := YearVerdict(c, crit.year);
    var model := ModelVerdict(c, Lower(crit.model));
    if search.None? || year.None? || model.None? then None
    else Some(search.value && year.value && MakeVerdict(c, crit.make) && model.value)
  }

  /** `cars.filter(...)`: the records whose verdict is true, in order; `None`
      when the callback throws on some record, which aborts the whole call. */
  function FilterCars(cs: seq<Car>, crit: Criteria): Option<seq<Car>>
  {
    if cs == [] then Some([])
    else
      match Verdict(cs[0], crit)
      case None => None
      case Some(keep) =>
        match FilterCars(cs[1..], crit)
        case None => None
        case Some(r) => Some(if keep then [cs[0]] + r else r)
  }

  /** The filter throws exactly when the callback throws on some record. */
  lemma {:induction false} FilterThrows(cs: seq<Car>, crit: Criteria)
    ensures FilterCars(cs, crit).None? <==> exists k :: 0 <= k < |cs| && Verdict(cs[k], crit).None?
  {
    if cs != [] {
      FilterThrows(cs[1..], crit);
      assert forall k :: 1 <= k < |cs| ==> cs[k] == cs[1..][k - 1];
      if exists k :: 0 <= k < |cs[1..]| && Verdict(cs[1..][k], crit).None? {
        var k :| 0 <= k < |cs[1..]| && Verdict(cs[1..][k], crit).None?;
        assert Verdict(cs[k + 1], crit).None?;
      }
    }
  }

  /** What the filter returns is drawn from the collection, and the callback
      returns true for each of it. */
  lemma {:induction false} FilterKeeps(cs: seq<Car>, crit: Criteria)
    requires FilterCars(cs, crit).Some?
    ensures multiset(FilterCars(cs, crit).value) <= multiset(cs)
    ensures forall k :: 0 <= k < |FilterCars(cs, crit).value| ==> Keeps(FilterCars(cs, crit).value[k], crit)
  {
    if cs != [] {
      FilterCons(cs, crit);
      FilterKeeps(cs[1..], crit);
      assert cs == [cs[0]] + cs[1..];
    }
  }

  /** The filter callback returns true for `c`. */
  predicate Keeps(c: Car, crit: Criteria)
  {
    Verdict(c, crit) == Some(true)
  }

  /** `idx` lists, in increasing order, the positions in `s` of the elements
      of `r`, and these are exactly the positions whose element satisfies
      `keep`. */
  ghost predicate Selection<T>(s: seq<T>, r: seq<T>, idx: seq<nat>, keep: T -> bool)
  {
    && |idx| == |r|
    && (forall k :: 0 <= k < |idx| ==> idx[k] < |s| && r[k] == s[idx[k]])
    && (forall k, l :: 0 <= k < l < |idx| ==> idx[k] < idx[l])
    && (forall j :: 0 <= j < |s| ==> (keep(s[j]) <==> j in idx))
  }

  /** Every position in `idx` moved one place to the right. */
  function Shifted(idx: seq<nat>): (r: seq<nat>)
    ensures |r| == |idx|
    ensures forall k :: 0 <= k < |idx| ==> r[k] == idx[k] + 1
  {
    seq(|idx|, k requires 0 <= k < |idx| => idx[k] + 1)
  }

  /** Positions that increase still increase after a shift, and stay above 0. */
  lemma ShiftedIncreasing(it: seq<nat>)
    requires forall k, l :: 0 <= k < l < |it| ==> it[k] < it[l]
    ensures forall k, l :: 0 <= k < l < |Shifted(it)| ==> Shifted(it)[k] < Shifted(it)[l]
    ensures forall k, l :: 0 <= k < l < |it| + 1 ==> ([0] + Shifted(it))[k] < ([0] + Shifted(it))[l]
  {
    var sh := Shifted(it);
    var idx := [0] + sh;
    forall k, l | 0 <= k < l < |idx| ensures idx[k] < idx[l] {
      if k > 0 {
        assert idx[k] == sh[k - 1];
      }
      assert idx[l] == sh[l - 1];
    }
  }

  /** Shifting the positions selected from the tail of `s` locates the same
      elements in `s`. */
  lemma ShiftedLocates<T>(s: seq<T>, rt: seq<T>, it: seq<nat>)
    requires s != [] && |it| == |rt|
    requires forall k :: 0 <= k < |it| ==> it[k] < |s| - 1 && rt[k] == s[1..][it[k]]
    ensures forall k :: 0 <= k < |it| ==> Shifted(it)[k] < |s| && rt[k] == s[Shifted(it)[k]]
    ensures forall k :: 0 <= k < |it| + 1 ==>
      ([0] + Shifted(it))[k] < |s| && ([s[0]] + rt)[k] == s[([0] + Shifted(it))[k]]
  {
    var idx, r := [0] + Shifted(it), [s[0]] + rt;
    forall k | 0 <= k < |idx| ensures idx[k] < |s| && r[k] == s[idx[k]] {
      if k > 0 {
        assert idx[k] == Shifted(it)[k - 1] && r[k] == rt[k - 1];
      }
    }
  }

  /** Position `j` of `s` is among the shifted positions exactly when `j - 1`
      is among the positions selected from the tail. */
  lemma ShiftedMembers(it: seq<nat>, n: nat)
    ensures forall j :: 1 <= j < n ==> (j in Shifted(it) <==> j - 1 in it)
    ensures 0 !in Shifted(it)
  {
    var sh := Shifted(it);
    forall j | 1 <= j < n ensures j in sh <==> j - 1 in it {
      if j - 1 in it {
        var k :| 0 <= k < |it| && it[k] == j - 1;
        assert sh[k] == j;
      }
    }
  }

  /** A selection from the tail of `s`, shifted right and preceded by
      position 0 when the first element is kept, is a selection from `s`. */
  lemma SelectionCons<T>(s: seq<T>, rt: seq<T>, it: seq<nat>, keep: T -> bool)
    requires s != []
    requires Selection(s[1..], rt, it, keep)
    ensures keep(s[0]) ==> Selection(s, [s[0]] + rt, [0] + Shifted(it), keep)
    ensures !keep(s[0]) ==> Selection(s, rt, Shifted(it), keep)
  {
    ShiftedIncreasing(it);
    ShiftedLocates(s, rt, it);
    ShiftedMembers(it, |s|);
    forall j | 1 <= j < |s| ensures keep(s[j]) <==> j - 1 in it {
      assert s[j] == s[1..][j - 1];
    }
  }

  /** One step of the filter: the first record is kept or dropped, and the
      rest is filtered the same way. */
  lemma FilterCons(cs: seq<Car>, crit: Criteria)
    requires cs != [] && FilterCars(cs, crit).Some?
    ensures FilterCars(cs[1..], crit).Some?
    ensures FilterCars(cs, crit).value ==
      if Keeps(cs[0], crit) then [cs[0]] + FilterCars(cs[1..], crit).value
      else FilterCars(cs[1..], crit).value
  {
  }

  /** The filter result is the ordered subsequence of the records that
      satisfy every active criterion, located by the positions `idx`. */
  ghost predicate SelectsMatching(cs: seq<Car>, r: seq<Car>, idx: seq<nat>, crit: Criteria)
  {
    Selection(cs, r, idx, c => Keeps(c, crit))
  }

  /** The filter result is the ordered subsequence of the records that
      satisfy every active criterion. */
  lemma {:induction false} FilterSelects(cs: seq<Car>, crit: Criteria)
    requires FilterCars(cs, crit).Some?
    ensures exists idx :: SelectsMatching(cs, FilterCars(cs, crit).value, idx, crit)
  {
    if cs == [] {
      assert SelectsMatching(cs, FilterCars(cs, crit).value, [], crit);
    } else {
      FilterCons(cs, crit);
      FilterSelects(cs[1..], crit);
      var it :| SelectsMatching(cs[1..], FilterCars(cs[1..], crit).value, it, crit);
      FilterSelectsStep(cs, crit, it);
    }
  }

  /** The inductive step of `FilterSelects`. */
  lemma FilterSelectsStep(cs: seq<Car>, crit: Criteria, it: seq<nat>)
    requires cs != [] && FilterCars(cs, crit).Some? && FilterCars(cs[1..], crit).Some?
    requires FilterCars(cs, crit).value ==
      if Keeps(cs[0], crit) then [cs[0]] + FilterCars(cs[1..], crit).value
      else FilterCars(cs[1..], crit).value
    requires SelectsMatching(cs[1..], FilterCars(cs[1..], crit).value, it, crit)
    ensures SelectsMatching(cs, FilterCars(cs, crit).value,
      if Keeps(cs[0], crit) then [0] + Shifted(it) else Shifted(it), crit)
  {
    SelectionCons(cs, FilterCars(cs[1..], crit).value, it, c => Keeps(c, crit));
  }

  /** With every filter input empty the filter returns the whole collection,
      in order. */
  lemma {:induction false} FilterNoCriteria(cs: seq<Car>)
    ensures FilterCars(cs, NoCriteria) == Some(cs)
  {
    if cs != [] {
      FilterNoCriteria(cs[1..]);
      assert [cs[0]] + cs[1..] == cs;
    }
  }

  /** A record with owner, make and model present and a year that is not
      `null` never makes the filter throw. */
  predicate Complete(c: Car)
  {
    c.owner.Some? && c.make.Some? && c.model.Some? && !c.year.Null?
  }

  /** On complete records the verdict is the conjunction of the four criteria:
      the lowered search term occurs in the lowered owner, make, model or id;
      the year's text equals the year filter; the make equals the make filter;
      the lowered model filter occurs in the lowered model.  An empty input
      imposes no constraint. */
  lemma VerdictOfComplete(c: Car, crit: Criteria)
    requires Complete(c)
    ensures Verdict(c, crit) == Some(
      && (crit.search == [] ||
          (exists k :: OccursAt(Lower(c.owner.value), Lower(crit.search), k)) ||
          (exists k :: OccursAt(Lower(c.make.value), Lower(crit.search), k)) ||
          (exists k :: OccursAt(Lower(c.model.value), Lower(crit.search), k)) ||
          (exists k :: OccursAt(Lower(c.id), Lower(crit.search), k)))
      && (crit.year == [] || YearText(c.year) == Some(crit.year))
      && (crit.make == [] || c.make.value == crit.make)
      && (crit.model == [] || exists k :: OccursAt(Lower(c.model.value), Lower(crit.model), k)))
  {
  }

  /** Filtering a collection of complete records never throws. */
  lemma FilterCompleteSucceeds(cs: seq<Car>, crit: Criteria)
    requires forall k :: 0 <= k < |cs| ==> Complete(cs[k])
    ensures FilterCars(cs, crit).Some?
  {
    forall k | 0 <= k < |cs| ensures Verdict(cs[k], crit).Some? {
      VerdictOfComplete(cs[k], crit);
    }
    FilterThrows(cs, crit);
  }

  /** A year filter holding the decimal text of `n` keeps exactly the records
      whose year is `n`: NaN prints as "NaN", which is no integer's text. */
  lemma YearFilterExact(c: Car, n: int)
    requires !c.year.Null?
    ensures YearVerdict(c, IntToDecimal(n)) == Some(c.year == Num(n))
  {
    var f := IntToDecimal(n);
    assert f != [];
    match c.year
    case Num(m) =>
      if IntToDecimal(m) == f {
        DecimalInjective(m, n);
      }
    case NaN =>
      assert f[0] == '-' || '0' <= f[0] <= '9';
      assert "NaN"[0] == 'N';
  }

  /** The searchable record `car1` owned by Bob: a Honda Civic of 2019. */
  const ExampleCar: Car := Car("car1", Some("Bob"), Some("Honda"), Some("Civic"), Num(2019), None, None, None)

  /** Searching "civic" finds the Civic by its model, case-insensitively. */
  lemma FilterSearchFinds()
    ensures FilterCars([ExampleCar], Criteria("civic", "", "", "")) == Some([ExampleCar])
  {
    assert Lower("Civic") == "civic";
    assert Lower("civic") == "civic";
    assert Includes("civic", "civic");
    assert SearchVerdict(ExampleCar, "civic") == Some(true);
    assert Verdict(ExampleCar, Criteria("civic", "", "", "")) == Some(true);
    assert [ExampleCar][1..] == [];
    assert FilterCars([], Criteria("civic", "", "", "")) == Some([]);
    assert [ExampleCar] + [] == [ExampleCar];
  }

  /** Searching "toyota" finds nothing in the same collection. */
  lemma FilterSearchMisses()
    ensures FilterCars([ExampleCar], Criteria("toyota", "", "", "")) == Some([])
  {
    assert Lower("toyota") == "toyota";
    assert !Includes(Lower("Bob"), "toyota");
    assert !Includes(Lower("Honda"), "toyota");
    assert !Includes(Lower("Civic"), "toyota");
    assert !Includes(Lower("car1"), "toyota");
    assert [ExampleCar][1..] == [];
  }

  /** The four options of the sort selector. */
  datatype SortKey = YearDesc | YearAsc | MakeAsc | MakeDesc

  /** The `switch` of `sortCars`: any other option value matches no case. */
  function ParseSortOption(option: string): Option<SortKey>
  {
    if option == "year-desc" then Some(YearDesc)
    else if option == "year-asc" then Some(YearAsc)
    else if option == "make-asc" then Some(MakeAsc)
    else if option == "make-desc" then Some(MakeDesc)
    else None
  }

  /** `a.localeCompare(b)`, modelled as comparison of code points from the
      left: negative, zero or positive as `a` sorts before, with or after `b`. */
  function LocaleCompare(a: string, b: string): (r: int)
    ensures -1 <= r <= 1
    ensures r == 0 <==> a == b
  {
    if a == [] && b == [] then 0
    else if a == [] then -1
    else if b == [] then 1
    else if a[0] < b[0] then -1
    else if a[0] > b[0] then 1
    else
      assert a == [a[0]] + a[1..] && b == [b[0]] + b[1..];
      LocaleCompare(a[1..], b[1..])
  }

  /** Code-point order puts every upper-case letter before every lower-case
      one, so "audi" sorts after "BMW". */
  lemma LocaleCompareCase()
    ensures LocaleCompare("audi", "BMW") == 1
  {
  }

  /** Swapping the arguments of the comparison negates it. */
  lemma {:induction false} LocaleCompareAntisymmetric(a: string, b: string)
    ensures LocaleCompare(a, b) == -LocaleCompare(b, a)
  {
    if a != [] && b != [] && a[0] == b[0] {
      LocaleCompareAntisymmetric(a[1..], b[1..]);
    }
  }

  /** The comparison orders strings transitively. */
  lemma {:induction false} LocaleCompareTransitive(a: string, b: string, c: string)
    requires LocaleCompare(a, b) <= 0 && LocaleCompare(b, c) <= 0
    ensures LocaleCompare(a, c) <= 0
  {
    if a != [] && b != [] && c != [] && a[0] == b[0] == c[0] {
      LocaleCompareTransitive(a[1..], b[1..], c[1..]);
    }
  }

  /** `ToNumber(year)` in the subtraction `b.year - a.year`: `null` counts as
      0 and NaN stays NaN (`None`). */
  function YearNumber(y: Year): Option<int>
  {
    match y
    case Num(n) => Some(n)
    case Null => Some(0)
    case NaN => None
  }

  /** `b.make` passed to `localeCompare`: an undefined make is converted to
      the string "undefined". */
  function MakeArgument(make: Option<string>): string
  {
    make.GetOr("undefined")
  }

  /** The comparator `sortCars` hands to `Array.prototype.sort`, as the sort
      sees it: a NaN result counts as 0, and `None` means that the call threw
      because the receiver of `localeCompare` was undefined. */
  function SortCompare(key: SortKey, x: Car, y: Car): Option<int>
  {
    match key
    case YearDesc =>
      if YearNumber(x.year).Some? && YearNumber(y.year).Some?
      then Some(YearNumber(y.year).value - YearNumber(x.year).value) else Some(0)
    case YearAsc =>
      if YearNumber(x.year).Some? && YearNumber(y.year).Some?
      then Some(YearNumber(x.year).value - YearNumber(y.year).value) else Some(0)
    case MakeAsc =>
      if x.make.None? then None else Some(LocaleCompare(x.make.value, MakeArgument(y.make)))
    case MakeDesc =>
      if y.make.None? then None else Some(LocaleCompare(y.make.value, MakeArgument(x.make)))
  }

  /** The comparator is consistent on `c`: the year is a number (or `null`)
      for a year key, the make is present for a make key. */
  predicate Comparable(key: SortKey, c: Car)
  {
    if key == YearDesc || key == YearAsc then YearNumber(c.year).Some? else c.make.Some?
  }

  /** `x` may come before `y` in the order the key asks for: years
      non-increasing or non-decreasing, makes ascending or descending. */
  ghost predicate Ordered(key: SortKey, x: Car, y: Car)
  {
    match key
    case YearDesc => YearNumber(x.year).GetOr(0) >= YearNumber(y.year).GetOr(0)
    case YearAsc => YearNumber(x.year).GetOr(0) <= YearNumber(y.year).GetOr(0)
    case MakeAsc => LocaleCompare(x.make.GetOr(""), y.make.GetOr("")) <= 0
    case MakeDesc => LocaleCompare(y.make.GetOr(""), x.make.GetOr("")) <= 0
  }

  /** Every record of `s` is comparable under `key`. */
  ghost predicate AllComparable(key: SortKey, s: seq<Car>)
  {
    forall k :: 0 <= k < |s| ==> Comparable(key, s[k])
  }

  /** `s` is in the order the key asks for. */
  ghost predicate SortedBy(key: SortKey, s: seq<Car>)
  {
    forall p, q :: 0 <= p < q < |s| ==> Ordered(key, s[p], s[q])
  }

  /** On comparable records the comparator does not throw, and it asks to
      swap two neighbours exactly when they are out of order; the order is
      total and transitive there. */
  lemma CompareAgrees(key: SortKey, x: Car, y: Car)
    requires Comparable(key, x) && Comparable(key, y)
    ensures SortCompare(key, x, y).Some?
    ensures SortCompare(key, x, y).value > 0 <==> !Ordered(key, x, y)
    ensures !Ordered(key, x, y) ==> Ordered(key, y, x)
  {
    LocaleCompareAntisymmetric(x.make.GetOr(""), y.make.GetOr(""));
  }

  /** The order of the key is transitive on comparable records. */
  lemma OrderedTransitive(key: SortKey, x: Car, y: Car, z: Car)
    requires Comparable(key, x) && Comparable(key, y) && Comparable(key, z)
    requires Ordered(key, x, y) && Ordered(key, y, z)
    ensures Ordered(key, x, z)
  {
    if key == MakeAsc {
      LocaleCompareTransitive(x.make.value, y.make.value, z.make.value);
    } else if key == MakeDesc {
      LocaleCompareTransitive(z.make.value, y.make.value, x.make.value);
    }
  }

  /** `x` and `y` have the same sort value under the key, so that a stable
      sort keeps them in their old order: the same year number (or both
      NaN) for a year key, the same make argument for a make key. */
  predicate SameKey(key: SortKey, x: Car, y: Car)
  {
    if key == YearDesc || key == YearAsc then YearNumber(x.year) == YearNumber(y.year)
    else MakeArgument(x.make) == MakeArgument(y.make)
  }

  /** The records of `s` with the same sort value as `x`, in their order in `s`. */
  function Ties(key: SortKey, x: Car, s: seq<Car>): seq<Car>
  {
    if s == [] then []
    else (if SameKey(key, x, s[0]) then [s[0]] else []) + Ties(key, x, s[1..])
  }

  /** Stability: every group of records with equal sort values appears in
      `s` in the same relative order as in `t`. */
  ghost predicate SameTies(key: SortKey, s: seq<Car>, t: seq<Car>)
  {
    forall x :: Ties(key, x, s) == Ties(key, x, t)
  }

  /** `filteredCars.sort(comparator)` for a recognised key, as ECMAScript
      specifies it: the elements are copied out (SortIndexedProperties),
      sorted, and written back only when no comparison threw.  The sort is
      stable.  Which pairs an engine compares is not specified; the copy is
      sorted here by insertion, swapping neighbours.  So the result is a
      permutation keeping every group of equal keys in order; when a
      comparison throws the array is left as it was; when every record is
      comparable the array ends in the key's order. */
  method SortInPlace(a: array<Car>, key: SortKey) returns (threw: bool)
    modifies a
    ensures multiset(a[..]) == multiset(old(a[..]))
    ensures SameTies(key, a[..], old(a[..]))
    ensures threw ==> a[..] == old(a[..]) && !AllComparable(key, old(a[..]))
    ensures AllComparable(key, old(a[..])) ==> SortedBy(key, a[..])
  {
    var items := new Car[a.Length](k requires 0 <= k < a.Length reads a => a[k]);
    assert items[..] == a[..];
    threw := InsertionSort(items, key);
    if threw {
      return;
    }
    ghost var sorted := items[..];
    forall k | 0 <= k < a.Length {
      a[k] := items[k];
    }
    assert a[..] == sorted;
  }

  /** Insertion sort of `a` by swapping neighbours while the comparator asks
      for it; on a throw it stops at once. */
  method InsertionSort(a: array<Car>, key: SortKey) returns (threw: bool)
    modifies a
    ensures multiset(a[..]) == multiset(old(a[..]))
    ensures SameTies(key, a[..], old(a[..]))
    ensures threw ==> !AllComparable(key, old(a[..]))
    ensures AllComparable(key, old(a[..])) ==> SortedBy(key, a[..])
  {
    threw := false;
    ghost var ok := AllComparable(key, a[..]);
    var i := 0;
    while i < a.Length
      invariant 0 <= i <= a.Length
      invariant multiset(a[..]) == multiset(old(a[..]))
      invariant SameTies(key, a[..], old(a[..]))
      invariant ok == AllComparable(key, old(a[..]))
      invariant ok ==> AllComparable(key, a[..]) && SortedBy(key, a[..i])
    {
      ghost var before := a[..];
      threw := InsertNext(a, i, key, ok);
      SameTiesTrans(key, a[..], before, old(a[..]));
      if threw {
        return;
      }
      i := i + 1;
    }
    assert a[..a.Length] == a[..];
  }

  /** Stability composes. */
  lemma SameTiesTrans(key: SortKey, r: seq<Car>, s: seq<Car>, t: seq<Car>)
    requires SameTies(key, r, s) && SameTies(key, s, t)
    ensures SameTies(key, r, t)
  {
  }

  /** The group of a concatenation is the groups of its parts. */
  lemma {:induction false} TiesConcat(key: SortKey, x: Car, p: seq<Car>, q: seq<Car>)
    ensures Ties(key, x, p + q) == Ties(key, x, p) + Ties(key, x, q)
  {
    if p == [] {
      assert p + q == q;
    } else {
      assert (p + q)[0] == p[0] && (p + q)[1..] == p[1..] + q;
      TiesConcat(key, x, p[1..], q);
    }
  }

  /** The comparator asks to swap two records only when their sort values
      differ. */
  lemma SwapNeedsDistinctKeys(key: SortKey, x: Car, y: Car)
    requires SortCompare(key, x, y).Some? && SortCompare(key, x, y).value > 0
    ensures !SameKey(key, x, y)
  {
  }

  /** Exchanging neighbours with different sort values keeps every group of
      equal values in order. */
  lemma SwapKeepsTies(key: SortKey, s: seq<Car>, j: nat)
    requires 0 < j < |s| && !SameKey(key, s[j - 1], s[j])
    ensures SameTies(key, s[j - 1 := s[j]][j := s[j - 1]], s)
  {
    var t := s[j - 1 := s[j]][j := s[j - 1]];
    var p, q := s[..j - 1], s[j + 1..];
    assert s == p + [s[j - 1], s[j]] + q;
    assert t == p + [s[j], s[j - 1]] + q;
    forall x ensures Ties(key, x, t) == Ties(key, x, s) {
      TiesPair(key, x, s[j - 1], s[j]);
      TiesSplit(key, x, p, [s[j - 1], s[j]], q);
      TiesSplit(key, x, p, [s[j], s[j - 1]], q);
    }
  }

  /** Two neighbours with different sort values: at most one of them is in
      any group, so their order does not show in the groups. */
  lemma TiesPair(key: SortKey, x: Car, u: Car, v: Car)
    requires !SameKey(key, u, v)
    ensures Ties(key, x, [u, v]) == Ties(key, x, [v, u])
  {
    assert [u, v][1..] == [v] && [v, u][1..] == [u];
    assert [v][1..] == [] && [u][1..] == [];
  }

  /** The group of a sequence in three parts. */
  lemma TiesSplit(key: SortKey, x: Car, p: seq<Car>, m: seq<Car>, q: seq<Car>)
    ensures Ties(key, x, p + m + q) == Ties(key, x, p) + Ties(key, x, m) + Ties(key, x, q)
  {
    TiesConcat(key, x, p + m, q);
    TiesConcat(key, x, p, m);
  }

  /** A stable sort leaves no choice: two sequences of comparable records
      that hold the same records, are both in the key's order and keep every
      group of equal sort values in the same order are equal.  So for a
      consistent comparator the sorted list is fully determined. */
  lemma {:induction false} StableSortDetermined(key: SortKey, r1: seq<Car>, r2: seq<Car>)
    requires AllComparable(key, r1) && AllComparable(key, r2)
    requires multiset(r1) == multiset(r2)
    requires SortedBy(key, r1) && SortedBy(key, r2)
    requires SameTies(key, r1, r2)
    ensures r1 == r2
    decreases |r1|
  {
    assert |r1| == |multiset(r1)| == |multiset(r2)| == |r2|;
    if r1 != [] {
      var u, v := r1[0], r2[0];
      FirstPrecedes(key, r1, r2);
      FirstPrecedes(key, r2, r1);
      OrderedBothWays(key, u, v);
      assert Ties(key, u, r1) == Ties(key, u, r2);
      assert Ties(key, u, r1)[0] == u;
      assert Ties(key, u, r2)[0] == v;
      TailsAlike(key, r1, r2);
      StableSortDetermined(key, r1[1..], r2[1..]);
      assert r1 == [u] + r1[1..] && r2 == [v] + r2[1..];
    }
  }

  /** `s` backwards. */
  function Reverse<T>(s: seq<T>): (r: seq<T>)
    ensures |r| == |s|
    ensures forall k :: 0 <= k < |s| ==> r[k] == s[|s| - 1 - k]
  {
    seq(|s|, k requires 0 <= k < |s| => s[|s| - 1 - k])
  }

  /** No two records of `s` have the same sort value. */
  ghost predicate NoTies(key: SortKey, s: seq<Car>)
  {
    forall p, q :: 0 <= p < q < |s| ==> !SameKey(key, s[p], s[q])
  }

  /** A list sorted by `year-desc` whose years are all different, sorted
      again by `year-asc`, comes out exactly reversed. */
  lemma YearAscReversesYearDesc(s: seq<Car>, r: seq<Car>)
    requires AllComparable(YearDesc, s) && SortedBy(YearDesc, s) && NoTies(YearAsc, s)
    requires multiset(r) == multiset(s) && SortedBy(YearAsc, r) && SameTies(YearAsc, r, s)
    ensures r == Reverse(s)
  {
    var v := Reverse(s);
    ReverseSameElements(s);
    forall p, q | 0 <= p < q < |v| ensures Ordered(YearAsc, v[p], v[q]) {
      assert Ordered(YearDesc, s[|s| - 1 - q], s[|s| - 1 - p]);
    }
    forall k | 0 <= k < |v| ensures Comparable(YearAsc, v[k]) {
      assert Comparable(YearDesc, s[|s| - 1 - k]);
    }
    PermutationComparable(YearAsc, v, r);
    forall x ensures Ties(YearAsc, x, r) == Ties(YearAsc, x, v) {
      ReverseKeepsTies(YearAsc, x, s);
    }
    StableSortDetermined(YearAsc, r, v);
  }

  /** Reversing keeps the same elements. */
  lemma {:induction false} ReverseSameElements<T>(s: seq<T>)
    ensures multiset(Reverse(s)) == multiset(s)
  {
    if s != [] {
      ReverseSameElements(s[1..]);
      assert Reverse(s) == Reverse(s[1..]) + [s[0]];
      assert s == [s[0]] + s[1..];
    }
  }

  /** A permutation of comparable records holds comparable records. */
  lemma PermutationComparable(key: SortKey, s: seq<Car>, r: seq<Car>)
    requires AllComparable(key, s) && multiset(r) == multiset(s)
    ensures AllComparable(key, r)
  {
    forall k | 0 <= k < |r| ensures Comparable(key, r[k]) {
      assert r[k] in multiset(s);
      var p :| 0 <= p < |s| && s[p] == r[k];
    }
  }

  /** Without ties every group holds at most one record, so reversing the
      sequence does not change any group. */
  lemma {:induction false} ReverseKeepsTies(key: SortKey, x: Car, s: seq<Car>)
    requires NoTies(key, s)
    ensures Ties(key, x, Reverse(s)) == Ties(key, x, s)
  {
    if s != [] {
      var t := s[1..];
      assert NoTies(key, t) by {
        forall p, q | 0 <= p < q < |t| ensures !SameKey(key, t[p], t[q]) {
          assert t[p] == s[p + 1] && t[q] == s[q + 1];
        }
      }
      ReverseKeepsTies(key, x, t);
      assert Reverse(s) == Reverse(t) + [s[0]];
      TiesConcat(key, x, Reverse(t), [s[0]]);
      assert [s[0]][1..] == [];
      if SameKey(key, x, s[0]) {
        TiesNone(key, x, t);
      }
    }
  }

  /** A group is empty when no record has the value. */
  lemma {:induction false} TiesNone(key: SortKey, x: Car, s: seq<Car>)
    requires forall k :: 0 <= k < |s| ==> !SameKey(key, x, s[k])
    ensures Ties(key, x, s) == []
  {
    if s != [] {
      assert forall k :: 0 <= k < |s[1..]| ==> s[1..][k] == s[k + 1];
      TiesNone(key, x, s[1..]);
    }
  }

  /** The first record of a sorted sequence may precede the first record of
      any permutation of it. */
  lemma FirstPrecedes(key: SortKey, r1: seq<Car>, r2: seq<Car>)
    requires r1 != [] && r2 != [] && multiset(r1) == multiset(r2) && SortedBy(key, r1)
    ensures Ordered(key, r1[0], r2[0])
  {
    assert r2[0] in multiset(r1);
    var p :| 0 <= p < |r1| && r1[p] == r2[0];
    if p == 0 {
      assert LocaleCompare(r1[0].make.GetOr(""), r1[0].make.GetOr("")) == 0;
    }
  }

  /** Comparable records that may each precede the other have the same sort
      value. */
  lemma OrderedBothWays(key: SortKey, x: Car, y: Car)
    requires Comparable(key, x) && Comparable(key, y)
    requires Ordered(key, x, y) && Ordered(key, y, x)
    ensures SameKey(key, x, y)
  {
    LocaleCompareAntisymmetric(x.make.GetOr(""), y.make.GetOr(""));
  }

  /** Removing an equal first record from both sides keeps the premises of
      `StableSortDetermined`. */
  lemma TailsAlike(key: SortKey, r1: seq<Car>, r2: seq<Car>)
    requires r1 != [] && r2 != [] && r1[0] == r2[0]
    requires AllComparable(key, r1) && AllComparable(key, r2)
    requires multiset(r1) == multiset(r2)
    requires SortedBy(key, r1) && SortedBy(key, r2)
    requires SameTies(key, r1, r2)
    ensures AllComparable(key, r1[1..]) && AllComparable(key, r2[1..])
    ensures multiset(r1[1..]) == multiset(r2[1..])
    ensures SortedBy(key, r1[1..]) && SortedBy(key, r2[1..])
    ensures SameTies(key, r1[1..], r2[1..])
  {
    TailSorted(key, r1);
    TailSorted(key, r2);
    TailMultiset(r1, r2);
    TailTies(key, r1, r2);
  }

  /** The tail of a sorted sequence of comparable records is one too. */
  lemma TailSorted(key: SortKey, r: seq<Car>)
    requires r != [] && AllComparable(key, r) && SortedBy(key, r)
    ensures AllComparable(key, r[1..]) && SortedBy(key, r[1..])
  {
    forall p, q | 0 <= p < q < |r| - 1 ensures Ordered(key, r[1..][p], r[1..][q]) {
      assert r[1..][p] == r[p + 1] && r[1..][q] == r[q + 1];
    }
  }

  /** Permutations with the same first element have permuted tails. */
  lemma TailMultiset<T>(r1: seq<T>, r2: seq<T>)
    requires r1 != [] && r2 != [] && r1[0] == r2[0] && multiset(r1) == multiset(r2)
    ensures multiset(r1[1..]) == multiset(r2[1..])
  {
    assert r1 == [r1[0]] + r1[1..] && r2 == [r2[0]] + r2[1..];
    assert multiset(r1[1..]) == multiset(r1) - multiset{r1[0]};
    assert multiset(r2[1..]) == multiset(r2) - multiset{r2[0]};
  }

  /** Stability between two sequences with the same first element carries
      over to their tails. */
  lemma TailTies(key: SortKey, r1: seq<Car>, r2: seq<Car>)
    requires r1 != [] && r2 != [] && r1[0] == r2[0] && SameTies(key, r1, r2)
    ensures SameTies(key, r1[1..], r2[1..])
  {
    forall x ensures Ties(key, x, r1[1..]) == Ties(key, x, r2[1..]) {
      var h := if SameKey(key, x, r1[0]) then [r1[0]] else [];
      assert Ties(key, x, r1) == h + Ties(key, x, r1[1..]);
      assert Ties(key, x, r2) == h + Ties(key, x, r2[1..]);
      assert Ties(key, x, r1[1..]) == Ties(key, x, r1)[|h|..];
    }
  }

  /** While `a[i]` travels left: apart from position `j`, which holds the
      travelling record, `s[..i + 1]` is in order, and the travelling record
      may precede everything to its right. */
  ghost predicate Inserting(key: SortKey, s: seq<Car>, i: nat, j: nat)
    requires j <= i < |s|
  {
    && (forall p, q :: 0 <= p < q <= i && p != j && q != j ==> Ordered(key, s[p], s[q]))
    && (forall q :: j < q <= i ==> Ordered(key, s[j], s[q]))
  }

  /** A sorted prefix `s[..i]` is the start of the insertion of `s[i]`. */
  lemma InsertingStart(key: SortKey, s: seq<Car>, i: nat)
    requires i < |s| && SortedBy(key, s[..i])
    ensures Inserting(key, s, i, i)
  {
    forall p, q | 0 <= p < q < i ensures Ordered(key, s[p], s[q]) {
      assert s[p] == s[..i][p] && s[q] == s[..i][q];
    }
  }

  /** Swapping the travelling record with a left neighbour that should come
      after it keeps the insertion going one place further left. */
  lemma InsertingSwap(key: SortKey, s: seq<Car>, i: nat, j: nat)
    requires 0 < j <= i < |s| && AllComparable(key, s)
    requires Inserting(key, s, i, j) && !Ordered(key, s[j - 1], s[j])
    ensures AllComparable(key, s[j - 1 := s[j]][j := s[j - 1]])
    ensures Inserting(key, s[j - 1 := s[j]][j := s[j - 1]], i, j - 1)
  {
    CompareAgrees(key, s[j - 1], s[j]);
    var t := s[j - 1 := s[j]][j := s[j - 1]];
    assert t[j - 1] == s[j] && t[j] == s[j - 1];
    forall k | 0 <= k < |t| ensures Comparable(key, t[k]) {
      assert t[k] == s[k] || t[k] == s[j] || t[k] == s[j - 1];
    }
    forall p, q | 0 <= p < q <= i && p != j - 1 && q != j - 1 ensures Ordered(key, t[p], t[q]) {
      assert (if p == j then t[p] == s[j - 1] else t[p] == s[p]);
      assert (if q == j then t[q] == s[j - 1] else t[q] == s[q]);
    }
    forall q | j - 1 < q <= i ensures Ordered(key, t[j - 1], t[q]) {
      if q > j {
        assert t[q] == s[q];
      }
    }
  }

  /** What comparing the travelling record with its left neighbour tells:
      the comparator does not throw; when it asks for a swap, the swapped
      sequence continues the insertion; otherwise the two are in order. */
  lemma InsertingCompare(key: SortKey, s: seq<Car>, i: nat, j: nat)
    requires 0 < j <= i < |s| && AllComparable(key, s) && Inserting(key, s, i, j)
    ensures SortCompare(key, s[j - 1], s[j]).Some?
    ensures SortCompare(key, s[j - 1], s[j]).value > 0 ==>
      AllComparable(key, s[j - 1 := s[j]][j := s[j - 1]]) && Inserting(key, s[j - 1 := s[j]][j := s[j - 1]], i, j - 1)
    ensures SortCompare(key, s[j - 1], s[j]).value <= 0 ==> Ordered(key, s[j - 1], s[j])
  {
    CompareAgrees(key, s[j - 1], s[j]);
    if SortCompare(key, s[j - 1], s[j]).value > 0 {
      InsertingSwap(key, s, i, j);
    }
  }

  /** The insertion ends sorted once the travelling record reached the front
      or a left neighbour that may precede it. */
  lemma InsertingDone(key: SortKey, s: seq<Car>, i: nat, j: nat)
    requires j <= i < |s| && AllComparable(key, s)
    requires Inserting(key, s, i, j)
    requires j > 0 ==> Ordered(key, s[j - 1], s[j])
    ensures SortedBy(key, s[..i + 1])
  {
    forall p, q | 0 <= p < q <= i ensures Ordered(key, s[p], s[q]) {
      if q == j && p < j - 1 {
        OrderedTransitive(key, s[p], s[j - 1], s[j]);
      }
    }
  }

  /** Exchanging two neighbours keeps the same elements. */
  lemma SwapPermutes<T>(s: seq<T>, j: nat)
    requires 0 < j < |s|
    ensures multiset(s[j - 1 := s[j]][j := s[j - 1]]) == multiset(s)
  {
    var t := s[j - 1 := s[j]];
    assert multiset(t) == multiset(s) - multiset{s[j - 1]} + multiset{s[j]};
    assert multiset(t[j := s[j - 1]]) == multiset(t) - multiset{s[j]} + multiset{s[j - 1]};
  }

  /** One step of the insertion: the comparator asked for `a[j - 1]` and
      `a[j]` to be exchanged, which keeps every group of equal values. */
  method SwapDown(a: array<Car>, j: nat, key: SortKey, ghost orig: seq<Car>)
    requires 0 < j < a.Length
    requires SortCompare(key, a[j - 1], a[j]).Some? && SortCompare(key, a[j - 1], a[j]).value > 0
    requires SameTies(key, a[..], orig)
    modifies a
    ensures a[..] == old(a[..])[j - 1 := old(a[j])][j := old(a[j - 1])]
    ensures multiset(a[..]) == multiset(old(a[..]))
    ensures SameTies(key, a[..], orig)
  {
    ghost var before := a[..];
    SwapNeedsDistinctKeys(key, a[j - 1], a[j]);
    SwapKeepsTies(key, before, j);
    SwapNeighbours(a, j);
    SameTiesTrans(key, a[..], before, orig);
  }

  /** `a[j - 1]` and `a[j]` change places. */
  method SwapNeighbours(a: array<Car>, j: nat)
    requires 0 < j < a.Length
    modifies a
    ensures a[..] == old(a[..])[j - 1 := old(a[j])][j := old(a[j - 1])]
    ensures multiset(a[..]) == multiset(old(a[..]))
  {
    ghost var before := a[..];
    a[j - 1], a[j] := a[j], a[j - 1];
    assert a[..] == before[j - 1 := before[j]][j := before[j - 1]];
    SwapPermutes(before, j);
  }

  /** One step of the insertion sort: `a[i]` is swapped leftwards while the
      comparator asks for it, so that a sorted `a[..i]` becomes a sorted
      `a[..i + 1]`. */
  method InsertNext(a: array<Car>, i: nat, key: SortKey, ghost ok: bool) returns (threw: bool)
    requires i < a.Length
    requires ok ==> AllComparable(key, a[..]) && SortedBy(key, a[..i])
    modifies a
    ensures multiset(a[..]) == multiset(old(a[..]))
    ensures SameTies(key, a[..], old(a[..]))
    ensures threw ==> !ok
    ensures ok ==> AllComparable(key, a[..]) && SortedBy(key, a[..i + 1])
  {
    threw := false;
    if ok {
      InsertingStart(key, a[..], i);
    }
    var j := i;
    var placed := false;
    while j > 0 && !placed
      invariant 0 <= j <= i
      invariant multiset(a[..]) == multiset(old(a[..]))
      invariant SameTies(key, a[..], old(a[..]))
      invariant ok ==> AllComparable(key, a[..]) && Inserting(key, a[..], i, j)
      invariant ok && placed ==> j > 0 && Ordered(key, a[j - 1], a[j])
      decreases j, if placed then 0 else 1
    {
      if ok {
        InsertingCompare(key, a[..], i, j);
      }
      var r := SortCompare(key, a[j - 1], a[j]);
      if r.None? {
        threw := true;
        return;
      }
      if r.value > 0 {
        SwapDown(a, j, key, old(a[..]));
        j := j - 1;
      } else {
        placed := true;
      }
    }
    if ok {
      InsertingDone(key, a[..], i, j);
    }
  }
}
