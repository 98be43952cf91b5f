/** The page's state: the global `cars` collection, the `filteredCars` list
    that the page shows, and the `carInventory` entry of `localStorage`, with
    the event handlers that change them. */
module Store {
  import opened Wrappers
  import opened JsText
  import opened Inventory
  import opened View
  import opened Csv

  /** A fresh array holding `cs`: the `[...cars]` and `cars.filter(...)` copies. */
  method CopyOf(cs: seq<Car>) returns (a: array<Car>)
    ensures fresh(a)
    ensures a[..] == cs
  {
    a := new Car[|cs|](k requires 0 <= k < |cs| => cs[k]);
  }

  class CarStore {
    /** `cars`: every record, in insertion order. */
    var cars: seq<Car>
    /** `filteredCars`: the records the list shows, in the order shown. */
    var view: array<Car>
    /** `localStorage.getItem('carInventory')`, as the records it parses to;
        `None` when nothing has been saved. */
    var stored: Option<seq<Car>>

    /** The list shows records of the inventory and nothing else. */
    ghost predicate Valid()
      reads this, view
    {
      multiset(view[..]) <= multiset(cars)
    }

    /** The page as the script starts: the seed records, all of them shown,
        and whatever an earlier visit left in `storage`, which, being parsed
        JSON, holds no NaN year. */
    constructor(storage: Option<seq<Car>>)
      requires storage.Some? ==> Snapshot(storage.value) == storage.value
      ensures Valid()
      ensures cars == Seed && view[..] == Seed && fresh(view) && stored == storage
    {
      var shown := CopyOf(Seed);
      cars := Seed;
      view := shown;
      stored := storage;
    }

    /** `saveToLocalStorage`: the entry becomes the JSON copy of `cars`. */
    method Save()
      modifies this
      ensures stored == Some(Snapshot(cars))
      ensures cars == old(cars) && view == old(view)
    {
      stored := Some(Snapshot(cars));
    }

    /** `filteredCars = [...cars]; saveToLocalStorage();`, the tail of every
        handler that changes the collection. */
    method ShowAllAndSave()
      modifies this
      ensures Valid()
      ensures cars == old(cars)
      ensures view[..] == cars && fresh(view)
      ensures stored == Some(Snapshot(cars))
    {
      view := CopyOf(cars);
      Save();
    }

    /** `loadFromLocalStorage`: a saved entry replaces the collection and the
        list shows all of it; without one nothing changes. */
    method Load()
      requires Valid()
      modifies this
      ensures Valid()
      ensures stored == old(stored)
      ensures old(stored).Some? ==> cars == old(stored).value && view[..] == cars && fresh(view)
      ensures old(stored).None? ==> cars == old(cars) && view == old(view)
    {
      if stored.Some? {
        cars := stored.value;
        view := CopyOf(cars);
      }
    }

    /** `handleAddCar`: the record built from the form, with id `'car' + now`,
        goes at the end; the list shows everything and the collection is saved. */
    method Add(now: nat, f: CarForm)
      modifies this
      ensures Valid()
      ensures cars == old(cars) + [NewCar(now, f)]
      ensures view[..] == cars && fresh(view)
      ensures stored == Some(Snapshot(cars))
    {
      cars := cars + [NewCar(now, f)];
      ShowAllAndSave();
    }

    /** `handleEditCar`: the first record with `id` takes the form's values,
        keeping its id and, without a new picture, its image.  An unknown id
        ("Car not found") changes nothing. */
    method Edit(id: string, f: CarForm) returns (found: bool)
      requires Valid()
      modifies this
      ensures Valid()
      ensures found <==> FindIndex(old(cars), id).Some?
      ensures cars == Edited(old(cars), id, f)
      ensures found ==> view[..] == cars && fresh(view) && stored == Some(Snapshot(cars))
      ensures !found ==> view == old(view) && stored == old(stored)
    {
      var index := FindIndex(cars, id);
      if index.None? {
        return false;
      }
      var i := index.value;
      cars := cars[i := EditedCar(cars[i], f)];
      ShowAllAndSave();
      found := true;
    }

    /** `confirmDelete`: the first record with `id` is spliced out; an unknown
        id changes nothing. */
    method Delete(id: string) returns (found: bool)
      requires Valid()
      modifies this
      ensures Valid()
      ensures found <==> FindIndex(old(cars), id).Some?
      ensures cars == Deleted(old(cars), id)
      ensures found ==> view[..] == cars && fresh(view) && stored == Some(Snapshot(cars))
      ensures !found ==> view == old(view) && stored == old(stored)
    {
      var index := FindIndex(cars, id);
      if index.None? {
        return false;
      }
      var i := index.value;
      cars := cars[..i] + cars[i + 1..];
      ShowAllAndSave();
      found := true;
    }

    /** `filterCars`: the list becomes the records of the whole collection
        that meet the criteria; when a criterion throws on a record the
        handler stops and the list stays as it was. */
    method Filter(crit: Criteria) returns (threw: bool)
      requires Valid()
      modifies this
      ensures Valid()
      ensures cars == old(cars) && stored == old(stored)
      ensures threw <==> exists k :: 0 <= k < |cars| && Verdict(cars[k], crit).None?
      ensures threw ==> view == old(view)
      ensures !threw ==> FilterCars(cars, crit).Some? && view[..] == FilterCars(cars, crit).value && fresh(view)
    {
      var r := FilterCars(cars, crit);
      FilterThrows(cars, crit);
      if r.None? {
        return true;
      }
      FilterKeeps(cars, crit);
      view := CopyOf(r.value);
      threw := false;
    }

    /** `sortCars`: only the list is reordered, in place, stably, and it keeps
        the same records; an unknown option, or a comparison that throws,
        leaves it as it was. */
    method Sort(option: string) returns (threw: bool)
      requires Valid()
      modifies view
      ensures Valid()
      ensures cars == old(cars) && stored == old(stored) && view == old(view)
      ensures multiset(view[..]) == multiset(old(view[..]))
      ensures ParseSortOption(option).None? ==> view[..] == old(view[..]) && !threw
      ensures ParseSortOption(option).Some? ==> SameTies(ParseSortOption(option).value, view[..], old(view[..]))
      ensures threw ==> view[..] == old(view[..]) && !AllComparable(ParseSortOption(option).value, old(view[..]))
      ensures ParseSortOption(option).Some? && AllComparable(ParseSortOption(option).value, old(view[..])) ==>
                SortedBy(ParseSortOption(option).value, view[..])
    {
      var key := ParseSortOption(option);
      if key.None? {
        return false;
      }
      threw := SortInPlace(view, key.value);
    }

    /** `importCSV` once the file is read: every non-blank line after the
        header is appended as a record; then the list shows everything and
        the collection is saved. */
    method ImportCsv(text: string, now: nat)
      modifies this
      ensures Valid()
      ensures cars == old(cars) + ImportedCars(text, now)
      ensures view[..] == cars && fresh(view)
      ensures stored == Some(Snapshot(cars))
    {
      var lines := Split(text, '\n');
      AppendLines(lines, now);
      ImportedCarsOfLines(text, lines, now);
      ShowAllAndSave();
    }

    /** The `for` loop of `importCSV`: line 0 is the header; each later line
        whose `trim()` is not empty is pushed as a record. */
    method AppendLines(lines: seq<string>, now: nat)
      requires |lines| >= 1
      modifies this`cars
      ensures cars == old(cars) + ImportRows(lines, |lines|, now)
    {
      var i := 1;
      while i < |lines|
        invariant 1 <= i <= |lines|
        invariant cars == old(cars) + ImportRows(lines, i, now)
      {
        ImportRowsAfter(old(cars), lines, i, now);
        if Trim(lines[i]) != [] {
          cars := cars + [ParseRow(lines[i], i, now)];
        }
        i := i + 1;
      }
    }
  }
}
