/** The vehicle records of the inventory (the objects held in the global `cars`
    array of app.js) and the record-level effect of adding, editing and
    deleting a car, written as functions on the sequence of records. */
module Inventory {
  import opened Wrappers
  import opened JsText

  /** The `year` property.  `parseInt` yields a number or NaN; JSON has no NaN,
      so a NaN year that has been saved and loaded again is `null`. */
  datatype Year = Num(n: int) | NaN | Null

  /** One vehicle record.  `owner`, `make` and `model` are `None` when a short
      CSV row left them `undefined`; `color`, `mileage` and `image` are `None`
      when they are `null`. */
  datatype Car = Car(
    id: string,
    owner: Option<string>,
    make: Option<string>,
    model: Option<string>,
    year: Year,
    color: Option<string>,
    mileage: Option<int>,
    image: Option<string>)

  /** The raw text of the add and edit forms: every input's `value`, and the
      `src` of the preview image when the preview holds one. */
  datatype CarForm = CarForm(
    owner: string,
    make: string,
    model: string,
    year: string,
    color: string,
    mileage: string,
    image: Option<string>)

  /** The three records the page starts with before anything is loaded. */
  const Seed: seq<Car> := [
    Car("car3242", Some("Bob"), Some("Honda"), Some("Civic"), Num(2019), Some("Blue"), Some(45000), None),
    Car("car4567", Some("Alice"), Some("Toyota"), Some("Camry"), Num(2021), Some("Silver"), Some(28000), None),
    Car("car8901", Some("Charlie"), Some("Ford"), Some("F-150"), Num(2020), Some("Red"), Some(52000), None)
  ]

  /** The `year` that `parseInt` gives: a number or NaN. */
  function YearOf(p: Option<int>): Year
  {
    if p.Some? then Num(p.value) else NaN
  }

  /** `n || null` for a parsed number: 0 and NaN are falsy and become `null`. */
  function OrNull(p: Option<int>): (r: Option<int>)
    ensures r.Some? <==> p.Some? && p.value != 0
    ensures r.Some? ==> r == p
  {
    if p.Some? && p.value != 0 then p else None
  }

  /** A string value is truthy: present and not empty. */
  predicate Truthy(s: Option<string>)
  {
    s.Some? && s.value != []
  }

  /** The id `'car' + Date.now()`, for the clock reading `now`. */
  function NewId(now: nat): string
  {
    "car" + NatToDecimal(now)
  }

  /** The record `handleAddCar` builds from the add form. */
  function NewCar(now: nat, f: CarForm): (c: Car)
    ensures c.id == NewId(now)
    ensures c.owner == Some(f.owner) && c.make == Some(f.make) && c.model == Some(f.model)
    ensures c.year == NaN <==> ParseInt(f.year) == None
    ensures c.year.Num? ==> ParseInt(f.year) == Some(c.year.n)
    ensures c.color == Some(f.color)
    ensures c.mileage.None? <==> ParseInt(f.mileage) == None || ParseInt(f.mileage) == Some(0)
    ensures c.mileage.Some? ==> ParseInt(f.mileage) == c.mileage && c.mileage.value != 0
    ensures c.image.Some? <==> Truthy(f.image)
    ensures c.image.Some? ==> c.image == f.image
  {
    Car(NewId(now), Some(f.owner), Some(f.make), Some(f.model),
        YearOf(ParseInt(f.year)), Some(f.color), OrNull(ParseInt(f.mileage)),
        if Truthy(f.image) then f.image else None)
  }

  /** The record `handleEditCar` writes over `prior`: every field is taken from
      the edit form except the id, which is kept, and the image, which is kept
      unless the form supplies a new one. */
  function EditedCar(prior: Car, f: CarForm): (c: Car)
    ensures c.id == prior.id
    ensures c.image == if Truthy(f.image) then f.image else prior.image
    ensures c == NewCar(0, f).(id := prior.id, image := c.image)
  {
    Car(prior.id, Some(f.owner), Some(f.make), Some(f.model),
        YearOf(ParseInt(f.year)), Some(f.color), OrNull(ParseInt(f.mileage)),
        if Truthy(f.image) then f.image else prior.image)
  }

  /** `cars.findIndex(c => c.id === id)`: the first index holding `id`, or
      `None` (the source's -1) when no record has it. */
  function FindIndex(cs: seq<Car>, id: string): (r: Option<nat>)
    ensures r.None? <==> forall k :: 0 <= k < |cs| ==> cs[k].id != id
    ensures r.Some? ==> r.value < |cs| && cs[r.value].id == id
    ensures r.Some? ==> forall k :: 0 <= k < r.value ==> cs[k].id != id
  {
    if cs == [] then None
    else if cs[0].id == id then Some(0)
    else
      match FindIndex(cs[1..], id)
      case None => None
      case Some(i) => Some(i + 1)
  }

  /** The collection after `handleEditCar`: the first record with `id` is
      replaced; an unknown id leaves the collection as it was. */
  function Edited(cs: seq<Car>, id: string, f: CarForm): seq<Car>
  {
    match FindIndex(cs, id)
    case None => cs
    case Some(i) => cs[i := EditedCar(cs[i], f)]
  }

  /** The collection after `confirmDelete`: `splice(index, 1)` at the first
      record with `id`; an unknown id leaves the collection as it was. */
  function Deleted(cs: seq<Car>, id: string): seq<Car>
  {
    match FindIndex(cs, id)
    case None => cs
    case Some(i) => cs[..i] + cs[i + 1..]
  }

  /** No two records share an id. */
  ghost predicate UniqueIds(cs: seq<Car>)
  {
    forall j, k :: 0 <= j < k < |cs| ==> cs[j].id != cs[k].id
  }

  /** Editing changes at most the first record with the id, keeps its id and,
      unless a new image is given, its image, and changes nothing else. */
  lemma EditChangesOnlyFirstMatch(cs: seq<Car>, id: string, f: CarForm)
    ensures |Edited(cs, id, f)| == |cs|
    ensures FindIndex(cs, id).None? ==> Edited(cs, id, f) == cs
    ensures FindIndex(cs, id).Some? ==>
      var i := FindIndex(cs, id).value;
      var r := Edited(cs, id, f);
      && r[i].id == id
      && r[i].owner == Some(f.owner) && r[i].make == Some(f.make) && r[i].model == Some(f.model)
      && (!Truthy(f.image) ==> r[i].image == cs[i].image)
      && forall k :: 0 <= k < |cs| && k != i ==> r[k] == cs[k]
  {
  }

  /** `findIndex` only looks at ids. */
  lemma {:induction false} FindIndexSameIds(cs: seq<Car>, ds: seq<Car>, id: string)
    requires |cs| == |ds|
    requires forall k :: 0 <= k < |cs| ==> cs[k].id == ds[k].id
    ensures FindIndex(cs, id) == FindIndex(ds, id)
  {
    if cs != [] {
      FindIndexSameIds(cs[1..], ds[1..], id);
    }
  }

  /** After an edit, looking the id up again finds the same place, now holding
      the edited record. */
  lemma EditThenFind(cs: seq<Car>, id: string, f: CarForm)
    ensures FindIndex(Edited(cs, id, f), id) == FindIndex(cs, id)
    ensures FindIndex(cs, id).Some? ==>
      Edited(cs, id, f)[FindIndex(cs, id).value] == EditedCar(cs[FindIndex(cs, id).value], f)
  {
    FindIndexSameIds(cs, Edited(cs, id, f), id);
  }

  /** Deleting removes exactly the first record with the id and keeps the
      others in order; an unknown id changes nothing. */
  lemma DeleteRemovesFirstMatch(cs: seq<Car>, id: string)
    ensures FindIndex(cs, id).None? ==> Deleted(cs, id) == cs
    ensures FindIndex(cs, id).Some? ==>
      var i := FindIndex(cs, id).value;
      var r := Deleted(cs, id);
      && |r| == |cs| - 1
      && (forall k :: 0 <= k < i ==> r[k] == cs[k])
      && (forall k :: i <= k < |r| ==> r[k] == cs[k + 1])
      && multiset(r) + multiset{cs[i]} == multiset(cs)
  {
    if FindIndex(cs, id).Some? {
      var i := FindIndex(cs, id).value;
      SplicedOut(cs, i, cs[..i] + cs[i + 1..]);
    }
  }

  /** `splice(i, 1)` on a sequence: the elements before `i` stay, the ones
      after move down by one, and exactly the element at `i` is gone. */
  lemma SplicedOut<T>(s: seq<T>, i: nat, r: seq<T>)
    requires i < |s| && r == s[..i] + s[i + 1..]
    ensures |r| == |s| - 1
    ensures forall k :: 0 <= k < i ==> r[k] == s[k]
    ensures forall k :: i <= k < |r| ==> r[k] == s[k + 1]
    ensures multiset(r) + multiset{s[i]} == multiset(s)
  {
    assert s == s[..i] + [s[i]] + s[i + 1..];
  }

  /** When ids are unique, a deleted id can no longer be found. */
  lemma DeleteThenFind(cs: seq<Car>, id: string)
    requires UniqueIds(cs)
    ensures FindIndex(Deleted(cs, id), id).None?
  {
    DeleteRemovesFirstMatch(cs, id);
    if FindIndex(cs, id).Some? {
      var i := FindIndex(cs, id).value;
      var r := Deleted(cs, id);
      forall k | 0 <= k < |r| ensures r[k].id != id {
        if k >= i {
          assert r[k] == cs[k + 1];
        }
      }
    }
  }

  /** Adding a record whose id is new makes it findable at the end. */
  lemma AddThenFind(cs: seq<Car>, c: Car)
    requires FindIndex(cs, c.id).None?
    ensures FindIndex(cs + [c], c.id) == Some(|cs|)
  {
    FindIndexAppend(cs, c);
  }

  /** Looking up the id of an appended record when no earlier record has it. */
  lemma {:induction false} FindIndexAppend(cs: seq<Car>, c: Car)
    requires FindIndex(cs, c.id).None?
    ensures FindIndex(cs + [c], c.id) == Some(|cs|)
  {
    if cs != [] {
      assert (cs + [c])[1..] == cs[1..] + [c];
      FindIndexAppend(cs[1..], c);
    }
  }

  /** Deleting the id of a record just added with a new id restores the
      collection. */
  lemma DeleteUndoesAdd(cs: seq<Car>, c: Car)
    requires FindIndex(cs, c.id).None?
    ensures Deleted(cs + [c], c.id) == cs
  {
    FindIndexAppend(cs, c);
    assert (cs + [c])[..|cs|] == cs;
  }

  /** A record as it comes back from `JSON.parse(JSON.stringify(...))`:
      a NaN year becomes `null`; everything else is kept. */
  function JsonCopy(c: Car): Car
  {
    if c.year == NaN then c.(year := Null) else c
  }

  /** The collection as `saveToLocalStorage` stores it and
      `loadFromLocalStorage` reads it back. */
  function Snapshot(cs: seq<Car>): (r: seq<Car>)
    ensures |r| == |cs|
  {
    seq(|cs|, k requires 0 <= k < |cs| => JsonCopy(cs[k]))
  }

  /** Saving and loading keeps every record except that NaN years turn into
      `null`; saving what was loaded stores the same thing again. */
  lemma SnapshotKeepsRecords(cs: seq<Car>)
    ensures forall k :: 0 <= k < |cs| ==>
      Snapshot(cs)[k].year == (if cs[k].year == NaN then Null else cs[k].year)
      && Snapshot(cs)[k] == cs[k].(year := Snapshot(cs)[k].year)
    ensures Snapshot(Snapshot(cs)) == Snapshot(cs)
  {
  }
}
