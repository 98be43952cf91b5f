# Car inventory: a verified model of the data logic of `app.js`

`app.js` is a single-page car inventory. Its data logic has three parts, and this project models each one and proves properties about it:

- **Record store.** A global `cars` array of vehicle records starts with three seed records. It is changed by the add, edit and delete handlers and is persisted under the `carInventory` key of `localStorage`.
- **View engine.** `filterCars` and `sortCars` derive the list the page shows, `filteredCars`.
- **CSV codec.** `exportCSV` writes the records as naive comma-separated text. `importCSV` reads such text back and appends the records it finds.

Files and modules:

| file | module | contents |
|---|---|---|
| `wrappers.dfy` | `Wrappers` | `Option`. |
| `js_text.dfy` | `JsText` | The JavaScript primitives the logic depends on, on `seq<char>`: `trim` with ECMAScript's whitespace set, ASCII `toLowerCase`, `includes`, one-character `split` and `join`, `parseInt` with no radix, and the decimal text of an integer. |
| `inventory.dfy` | `Inventory` | The `Car` record and its possibly `undefined` or `null` fields. The seed data. The record built by the add form and by the edit form. `findIndex`. The collection after an edit and after a `splice`. The JSON copy made by `saveToLocalStorage`. |
| `view.dfy` | `View` | The filter callback and `cars.filter`. A thrown `TypeError` is `None`. The four comparators of `sortCars`, and an in-place sort on an `array<Car>`. |
| `csv.dfy` | `Csv` | The export text, the row parser of the import loop, and the round trip between them. |
| `store.dfy` | `Store` | `class CarStore`, which holds the page state. `cars` is a `seq<Car>`. `view` is the `filteredCars` array, which `sortCars` reorders in place. `stored` is the `localStorage` entry. The class has one method per handler. |

Behaviour of the code that is easy to misread, and that the model keeps as the code has it:

- **Short CSV rows.** A short row raises no error. Its missing columns are `undefined` (`None` for owner, make and model). `parseInt(undefined)` reads the text "undefined" and gives NaN.
- **Mileage.** `parseInt(...) || null` drops only 0 and NaN. A negative mileage is kept.
- **Year.** The year is a number or NaN. Saving and loading turns NaN into `null` (`JSON.stringify(NaN)` is `"null"`). After that, `car.year.toString()` in the year filter throws, and so does `toLowerCase` on an undefined owner, make or model. The model includes these throws.
- **Import is additive.** Records are appended. Ids are not deduplicated, and the header line is not checked.

## Model

| member | source | states |
|---|---|---|
| Store.CarStore.constructor | app.js:4-38 | The collection starts as the three seed records. The list shows all of them. |
| Store.CarStore.Save | app.js:52-54 | The stored entry becomes the JSON copy of the collection. Nothing else changes. |
| Store.CarStore.Load | app.js:56-62 | With a stored entry, the collection becomes the entry and the list shows all of it. Without one, nothing changes. |
| Inventory.JsonCopy | app.js:53-60 | One record as it comes back from `JSON.parse(JSON.stringify(...))`. Its properties are stated by `Inventory.SnapshotKeepsRecords`. |
| Inventory.Snapshot | app.js:53-60 | The collection as saved and loaded again. It has one record per record of the collection; its contents are stated by `Inventory.SnapshotKeepsRecords`. |
| Inventory.SnapshotKeepsRecords | app.js:52-62 | Saving then loading keeps every record. The one change is that a NaN year comes back as `null`. Saving what was loaded stores the same thing again. |
| Inventory.NewId | app.js:255 | The id `'car' + Date.now()`. |
| Inventory.YearOf | app.js:259 | The year `parseInt` gives: a number or NaN. |
| Inventory.Truthy | app.js:262 | A string value that `\|\|` treats as true: present and non-empty. |
| Inventory.NewCar | app.js:254-263 | The new record's id is `'car' + now`. Owner, make, model and color are the form's text. The year is NaN exactly when `parseInt` fails. The mileage is absent exactly when it parses to NaN or 0. The image is kept only when truthy. |
| Store.CarStore.Add | app.js:254-267 | The new record is appended at the end. The list shows the whole collection, and the collection is saved. |
| Inventory.AddThenFind | app.js:254-265 | After adding a record whose id is new, `findIndex` finds it at the last position. |
| Inventory.FindIndex | app.js:304 | `findIndex` gives the first index holding the id. It is -1 (`None`) exactly when no record has the id. |
| Inventory.EditedCar | app.js:311-320 | The edited record keeps its id. It keeps its image unless the form supplies one. Every other field comes from the form, exactly as for a new record. |
| Inventory.Edited | app.js:304-320 | The collection after `handleEditCar`. Its properties are stated by `Inventory.EditChangesOnlyFirstMatch` and `Inventory.EditThenFind`. |
| Inventory.EditChangesOnlyFirstMatch | app.js:304-320 | An edit keeps the length. It changes only the first record with the id. An unknown id changes nothing. |
| Inventory.EditThenFind | app.js:304-320 | After an edit, the id is found at the same index, and that index holds the edited record. |
| Store.CarStore.Edit | app.js:303-323 | `found` is true exactly when the id exists, and the collection becomes the edited one. When found, the list shows everything and the collection is saved. When not found, the list and the stored entry are unchanged. |
| Inventory.Deleted | app.js:361-364 | The collection after `confirmDelete`'s splice. Its properties are stated by `Inventory.DeleteRemovesFirstMatch`, `Inventory.DeleteThenFind` and `Inventory.DeleteUndoesAdd`. |
| Inventory.DeleteRemovesFirstMatch | app.js:361-364 | The splice removes exactly the first record with the id. The records before it stay in place, the ones after it shift down by one, and the multiset loses exactly that record. An unknown id changes nothing. |
| Inventory.DeleteThenFind | app.js:361-364 | When ids are unique, a deleted id can no longer be found. |
| Inventory.DeleteUndoesAdd | app.js:361-364 | Deleting a record just added with a new id restores the collection. |
| Store.CarStore.Delete | app.js:360-366 | `found` is true exactly when the id exists, and the collection becomes the spliced one. When found, the list shows everything and the collection is saved. When not found, nothing changes. |
| View.SearchVerdict | app.js:204-208 | `matchesSearch`: owner, make, model and id are tried in turn with `\|\|`, so a later field is read only when the earlier ones fail. `None` when `toLowerCase` meets an undefined field. Stated by `View.VerdictOfComplete`. |
| View.YearVerdict | app.js:210 | `matchesYear`: an empty filter passes every record. Otherwise the year's text must equal the filter, and a `null` year throws. Stated by `View.YearFilterExact`. |
| View.MakeVerdict | app.js:211 | `matchesMake`: strict equality with the make. |
| View.ModelVerdict | app.js:212 | `matchesModel`: an empty filter passes every record. Otherwise the lowered model filter must occur in the lowered model, and an undefined model throws. |
| View.Verdict | app.js:204-214 | The filter callback. All four tests are evaluated before they are combined, so any one of them throwing makes the call throw. Stated by `View.VerdictOfComplete`. |
| View.LowerIncludes | app.js:205-208 | One `field.toLowerCase().includes(term)` test. `None` when the field is undefined, because `toLowerCase` then throws. Stated by `View.VerdictOfComplete`. |
| View.OrElse | app.js:204-208 | JavaScript `\|\|` over tests that may throw: a throw on the left throws, `true` on the left stops, and `false` on the left gives the right-hand result. Stated by `View.VerdictOfComplete`. |
| View.YearText | app.js:210 | `car.year.toString()`: the decimal text of a number, "NaN" for NaN, and a throw (`None`) on `null`. Stated by `View.YearFilterExact`. |
| View.FilterCars | app.js:203-215 | `cars.filter(callback)`. Its properties are stated by `View.FilterThrows`, `View.FilterKeeps`, `View.FilterSelects` and `View.FilterNoCriteria`. |
| View.FilterThrows | app.js:203-215 | `cars.filter` throws exactly when the callback throws on some record. |
| View.FilterKeeps | app.js:203-215 | When it does not throw, every record it returns comes from the collection, and the callback returns true for each one. |
| View.FilterSelects | app.js:203-215 | The filter's result is the ordered subsequence of exactly the records that meet every active criterion. |
| View.VerdictOfComplete | app.js:204-214 | For a record with owner, make, model and a non-null year, the callback does not throw, and its value is the conjunction of the four criteria. A search term or model filter must occur case-insensitively. The year filter must equal the year's text exactly. The make filter is compared case-sensitively. Each empty input imposes no constraint. |
| View.FilterCompleteSucceeds | app.js:203-215 | Filtering a collection of such complete records never throws. |
| View.FilterNoCriteria | app.js:198-215 | With every input empty, the filter returns the whole collection in order. |
| View.YearFilterExact | app.js:210 | For a record whose year is not `null`, a year filter equal to the decimal text of `n` passes the record exactly when its year is `n`; a NaN year matches no such filter. With a `null` year the test throws instead (`View.YearVerdict`). |
| View.FilterSearchFinds | app.js:198-215 | Searching "civic" finds a Honda Civic by its model, ignoring case. |
| View.FilterSearchMisses | app.js:198-215 | Searching "toyota" finds nothing in the same collection. |
| Store.CarStore.Filter | app.js:197-215 | The list becomes the filter's result, and the collection and stored entry do not change. `threw` is true exactly when the callback throws on some record, and then the list stays as it was. |
| JsText.Lower | app.js:198-212 | `toLowerCase` on ASCII letters. It keeps the length. |
| JsText.Includes | app.js:205-211 | `includes` is true exactly when the needle occurs as a contiguous substring. |
| View.LocaleCompare | app.js:231-234 | A code-point stand-in for `localeCompare` (see Left out). It gives -1, 0 or 1, and 0 exactly for equal strings. That last fact belongs to the stand-in, not to locale collation. |
| View.LocaleCompareCase | app.js:231-234 | In the code-point stand-in, "audi" compares after "BMW", as the upper-case "B" comes first. Locale collation would order them the other way (see Left out). |
| View.LocaleCompareAntisymmetric | app.js:231-234 | Swapping the two strings negates the comparison. |
| View.LocaleCompareTransitive | app.js:231-234 | The string comparison is transitive. |
| View.ParseSortOption | app.js:223-236 | The `switch` of `sortCars`. Any option other than the four cases matches nothing. |
| View.SortCompare | app.js:224-235 | The four comparators. A NaN result is read as 0. `None` means `localeCompare` was called on an undefined make. An undefined argument compares as the text "undefined". Stated by `View.CompareAgrees` and `View.SwapNeedsDistinctKeys`. |
| View.SwapNeedsDistinctKeys | app.js:224-235 | The comparator asks to swap two records only when their sort values differ, so ties are never exchanged. |
| View.CompareAgrees | app.js:223-235 | On comparable records the comparator does not throw. It asks to swap a pair exactly when the pair is out of the key's order, and the order is total. |
| View.OrderedTransitive | app.js:223-235 | The order of each sort key is transitive on comparable records. |
| View.SortInPlace | app.js:223-236 | The array always ends as a permutation of itself. The sort is stable: every group of records with the same sort value keeps its relative order. When a comparison throws the array is left exactly as it was, and some record was not comparable. When every record is comparable, the array ends sorted by the key. |
| View.StableSortDetermined | app.js:223-236 | For comparable records a stable sort has exactly one possible result. Two permutations that are both in the key's order and both keep every group of equal values in order are equal. |
| View.YearNumber | app.js:225-228 | The number `a.year - b.year` reads: a number as itself, `null` as 0, and NaN as no number at all, which makes the comparator return NaN. Stated by `View.CompareAgrees`. |
| View.MakeArgument | app.js:231-234 | The argument `localeCompare` receives: an undefined make becomes the text "undefined". Stated by `View.SortCompare` and `View.CompareAgrees`. |
| View.InsertionSort | app.js:223-236 | The sort of the copy. It ends as a permutation that keeps every group of equal sort values in order. It reports a throw only when some record is not comparable. It is in the key's order when every record is comparable. |
| View.YearAscReversesYearDesc | app.js:225-228 | A list sorted by `year-desc` in which all years differ, when sorted again by `year-asc`, comes out exactly reversed. |
| View.Reverse | app.js:225-228 | The reversed sequence used by `View.YearAscReversesYearDesc`: element k is the element at the mirrored index. |
| Store.CarStore.Sort | app.js:220-236 | Only the list is changed, in place, as a stable permutation. An unknown option leaves it unchanged, and so does a comparison that throws. For comparable records it ends in the selected order. |
| JsText.Join | app.js:487 | `join` with a one-character separator. Stated by `JsText.SplitJoin` and `JsText.Split`. |
| JsText.SplitJoin | app.js:513-518 | Splitting the join of separator-free pieces gives back the pieces. |
| JsText.Split | app.js:513 | `split` gives at least one piece, no piece contains the separator, and joining the pieces gives back the text. |
| JsText.Trim | app.js:517 | `trim()`. Stated by `JsText.TrimStartShape`, `JsText.TrimEndShape` and `JsText.TrimEmptyIffBlank`. |
| JsText.TrimStartShape | app.js:517 | The leading-whitespace removal drops a blank prefix and leaves a text that does not start with whitespace. `parseInt` uses the same removal. |
| JsText.TrimEndShape | app.js:517 | The trailing-whitespace removal drops a blank suffix and leaves a text that does not end with whitespace. |
| JsText.TrimEmptyIffBlank | app.js:517 | `trim()` is empty exactly when the line is all whitespace. |
| JsText.ParseInt | app.js:524-526 | `parseInt` with no radix. It skips leading whitespace, reads one optional sign and a `0x` prefix, and then reads the longest run of digits; no digits is NaN. Stated by `JsText.ParseIntDecimal`. |
| JsText.ParseIntDecimal | app.js:524-526 | `parseInt` of an integer's decimal text gives back the integer. |
| JsText.IntToDecimal | app.js:210 | `year.toString()` for an integer year. Stated by `JsText.DecimalInjective` and `JsText.ParseIntDecimal`. |
| JsText.DecimalInjective | app.js:210 | Different integers have different decimal texts. |
| JsText.NatToDecimal | app.js:255 | The decimal text of `Date.now()` is made of digits, has no leading zero and denotes the number. |
| Inventory.OrNull | app.js:261 | `n \|\| null` is absent exactly for NaN and 0, and otherwise it is `n`. |
| Csv.StringCell | app.js:479-482 | A text property as `join` renders it: an undefined property is empty. |
| Csv.YearCell | app.js:483 | The year as `join` renders it: its decimal text, "NaN", or empty for `null`. |
| Csv.ColorCell | app.js:484 | `car.color \|\| ''`. |
| Csv.MileageCell | app.js:485 | `car.mileage \|\| ''`: 0 and `null` are both empty. |
| Csv.Cells | app.js:478-486 | The seven cells of a record's line, in column order. Stated by `Csv.RowCells`. |
| Csv.Row | app.js:487 | A record's line, `row.join(',')`. Stated by `Csv.RowCells` and `Csv.RowHasNoNewline`. |
| Csv.ExportCsv | app.js:476-487 | The whole export text. Stated by `Csv.ExportLines` and `Csv.ExportImportRoundTrip`. |
| Csv.Rows | app.js:478-487 | One export line per record, in order: there are as many lines as records. Their contents are stated by `Csv.ExportLines`. |
| Csv.RowHasNoNewline | app.js:478-487 | A record with no newline in its text cells exports to a line with no newline. Commas do not matter. |
| Csv.ExportLines | app.js:476-487 | When no text cell holds a newline, the export splits into the header followed by one line per record, in order. |
| Csv.RowCells | app.js:476-487 | When no text cell holds a comma, each record's line splits back into its seven cells, in column order. Newlines in a cell do not matter here. |
| Csv.ExportExample | app.js:476-487 | A record without a color and with mileage 0 exports both of those cells empty. |
| Csv.At | app.js:520-526 | `values[k]`, which is undefined past the end of the split line. |
| Csv.ParseRow | app.js:518-528 | The record built from one non-blank line. Stated by `Csv.ParseRowOfRow`, `Csv.ImportedRecordsShape` and `Csv.ImportExample`. |
| Csv.LineRecords | app.js:517-530 | What one line adds: nothing when its `trim()` is empty, else its record. |
| Csv.ImportRows | app.js:516-531 | The records the loop appends for the lines before `n`. Stated by `Csv.ImportedRecordsShape` and `Store.CarStore.AppendLines`. |
| Csv.ImportedCars | app.js:513-531 | Every record one import appends. Stated by `Csv.ExportImportRoundTrip` and `Csv.ImportExample`. |
| Csv.Reimported | app.js:476-531 | A record as it survives an export and an import. Its id, owner, make, model, numeric year, non-empty color and non-zero mileage are kept. |
| Csv.YearCellRoundTrip | app.js:524 | The year cell, read back by `parseInt`, gives the year. NaN and `null` give NaN. |
| Csv.MileageCellRoundTrip | app.js:526 | The mileage cell, read back by `parseInt(...) \|\| null`, gives `mileage \|\| null`. |
| Csv.ParseRowOfRow | app.js:516-528 | For a record with a non-empty id and no comma or newline in a text cell, the exported line is not blank, and parsing it back gives the record as it survives the round trip. |
| Csv.ImportedRecordsShape | app.js:516-531 | Every imported record has a non-empty id, no image, and a color that is either absent or non-empty. |
| Csv.ImportExample | app.js:513-531 | Parsing a short line with an empty id generates the id from the clock and the line number. Its missing columns stay undefined and its year is NaN. Blank lines and the empty last line are skipped. |
| Csv.ExportImportRoundTrip | app.js:476-531 | Importing an export appends, in order, each record with its id, owner, make and model and any numeric year. The exceptions: a non-empty color and a non-zero mileage are kept, undefined text comes back empty, any other year comes back as NaN, and the image is lost. This requires that no text cell holds a comma or newline and that every id is non-empty. |
| Store.CopyOf | app.js:266 | `[...cars]`: a new array holding the records, in order. |
| Store.CarStore.AppendLines | app.js:516-531 | The loop appends the records of the non-blank lines after the header, in order. |
| Store.CarStore.ImportCsv | app.js:513-534 | The collection becomes the old one followed by the imported records. The list shows everything, and the collection is saved. |
| Store.CarStore.ShowAllAndSave | app.js:266-267 | `filteredCars = [...cars]; saveToLocalStorage();`, shared by add, edit, delete and import. The list becomes a fresh copy of the whole collection and the collection is saved; the collection itself is unchanged. |

## Left out

- The DOM and the UI are left out: rendering, navigation, the delete modal, toasts, keyboard navigation, image preview, settings and themes. They only show state or collect the form's raw text, which is an input here (`CarForm`, `Criteria`, the sort option).
- The file objects are left out: `FileReader`, `Blob`, the download link and the file picker. The import starts from the text the reader produced; the export ends with the text.
- JSON as text is left out. The stored entry is held as the records `JSON.parse` returns, with the NaN-to-`null` rule. A corrupted entry that makes `JSON.parse` throw is not modelled.
- The `try`/`catch` of `importCSV` is not modelled. Nothing the modelled loop does can throw on a string: short rows give `undefined` columns and no error.
- `localStorage.setItem` is assumed to succeed. A QuotaExceededError (large image data URIs) would throw after `cars` and `filteredCars` had changed and leave the stored entry as it was; that path is not modelled.
- `Date.now()` is the parameter `now`. One import uses a single `now` for every generated id.
- `toLowerCase` is modelled for ASCII letters only. `localeCompare` is modelled as code-point order, not as locale collation. On ordinary input the two differ: every upper-case letter comes before every lower-case one, so `LocaleCompare("audi", "BMW")` is 1 (`View.LocaleCompareCase`) while English collation puts "audi" first. The order that `Store.CarStore.Sort` promises under `make-asc` and `make-desc` is therefore code-point order, not the order a browser shows.
- Numbers are integers. Doubles, exponent notation in `String(n)` and precision loss for large values are not modelled.
- `populateEditForm`, `find` and `generateCarId` only feed the UI or are not called by the modelled handlers.
- Store.CarStore.Sort: ECMAScript fixes the result of a stable sort with a consistent comparator, but not the pairs an engine compares. The model sorts by swapping neighbours with the same comparator. For comparable records its result is the one ECMAScript requires (`View.StableSortDetermined`). When the comparator is inconsistent (a NaN year under a year key), ECMAScript leaves the order to the implementation, and the model promises only a stable permutation.
- View.SortInPlace: same as Store.CarStore.Sort. Key order is promised only when every record is comparable under the key.
- Csv.ExportImportRoundTrip: the format does no quoting, so the round trip is stated only for records whose text cells hold no comma or newline and whose id is non-empty.
