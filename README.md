# eatsense backend: the importers and the stall API

The eatsense backend keeps Singapore's healthier-eatery data in a SQLite file,
`hpb_food_stalls.db`. Three Python scripts make up its core, and this project
models each of them in Dafny and proves what each promises.

- **`backend/data/load_data.py`**, the first importer. For every GeoJSON feature
  it inserts one `stalls` row. Nine columns of that row are pulled out of the
  feature's `Description` HTML with the regular expression
  `<th>FIELD<\/th>\s*<td>([^<]*)<\/td>`. The GeoJSON `[longitude, latitude]` pair
  is swapped into the row. The script then inserts one placeholder
  `stall_attributes` row that points at the new stall through `cursor.lastrowid`.
  It never clears the tables, so a second run appends.
- **`backend/data/load_data2.py`**, the second importer. It drops and recreates
  both tables.
  - It keeps the features within 5 km of Bras Basah, sorts them by distance
    (a stable sort), and truncates the list to 100.
  - Without `stall_data.csv` it writes a CSV template, one row per selected
    stall keyed `str(idx + 1)`, and stops.
  - With the CSV it reads the file into a dictionary keyed by `id`, where a
    later row wins. It then inserts every selected stall that has a CSV row:
    a stall row, and an attribute row built from the CSV row, with `int()`
    applied to the calorie count. The stall's name is the description's
    `NAME` cell when that is non-empty. Otherwise it is the `Name` property,
    even when that is `''`, and `'Unknown Eatery'` when the property is absent.
- **`backend/main.py`**, the FastAPI handlers.
  - `GET /stalls` builds a parameterised SQL query from the filters: equality
    on cuisine and price, and `LIKE '%dietary%'` on the dietary requirements.
    It runs the query over the join of the two tables. When a location is
    given it drops the rows farther than `radius`, adds the distance rounded
    to two decimals, and sorts by that distance. Every row has its four
    attribute columns nested under `attributes`.
  - How `get_stalls` reads its arguments (`backend/main.py:84-111`):
    - an empty filter (`''`) is treated like an absent one, because the test is Python truthiness;
    - a latitude or longitude of `0.0` counts as no location, for the same reason;
    - the radius has no bounds;
    - cuisine and price filters compare the stored text exactly, so a price range is plain text, not a number.
  - `GET /stalls/{id}` returns one joined row, or a 404 error.
  - `GET /filters` returns the distinct values of each attribute column,
    leaving out `'Unknown'`.

## Modules

| module | file | contents |
|---|---|---|
| `Wrappers` | `wrappers.dfy` | `Option` (with Python's `dict.get` default) and `Result` |
| `HtmlExtract` | `html_extract.dfy` | `re.search` for the field pattern as a leftmost-match scan, with its meaning stated as an `Occurrence` of the pattern |
| `StableSort` | `stable_sort.dfy` | Python's `list.sort(key=...)` as a stable insertion sort, with its characterisation proved (sorted, a permutation, equal keys in their original order, unique) |
| `Tables` | `tables.dfy` | GeoJSON features, the two row types, and the database as a class whose inserts assign `lastrowid` |
| `StallFields` | `stall_fields.dfy` | the nine description lookups both importers share |
| `Chars` | `chars.dfy` | Python's `\s` whitespace class |
| `Numbers` | `numbers.dfy` | `str(n)` and `int(text)` |
| `LoadData` | `load_data.dfy` | the first importer |
| `LoadData2` | `load_data2.dfy` | the second importer |
| `SqlLike` | `sql_like.dfy` | SQLite's `LIKE` |
| `StallQuery` | `stall_query.dfy` | the query text of `get_stalls`, what its `WHERE` clause means, and the join |
| `Api` | `api.dfy` | the three request handlers |

## Model

| member | source | states |
|---|---|---|
| `HtmlExtract.SearchFrom` | backend/data/load_data2.py:32 | the position found is the first at or after `i` where the pattern matches; `None` means it matches nowhere from `i` on |
| `HtmlExtract.CaptureAtIsOccurrence` | backend/data/load_data2.py:31 | the staged match at `i` (header cell, whitespace run, cell) succeeds with capture `v` exactly when the text holds an occurrence of the pattern at `i` capturing `v` |
| `HtmlExtract.Extract` | backend/data/load_data2.py:29-33 | the `extract_field` value; its meaning is stated by `HtmlExtract.ExtractLeftmost`, `HtmlExtract.ExtractNoMatch` and `HtmlExtract.ExtractIsCellText` |
| `HtmlExtract.ExtractLeftmost` | backend/data/load_data2.py:29-33 | the value returned is the capture of the leftmost occurrence of the field's pattern |
| `HtmlExtract.ExtractNoMatch` | backend/data/load_data2.py:33 | with no occurrence of the pattern the value is `''` |
| `HtmlExtract.ExtractIsCellText` | backend/data/load_data2.py:31 | the value contains no `<` and, when non-empty, sits between `<td>` and `</td>` in the description |
| `HtmlExtract.ExtractIsLeftmostCapture` | backend/data/load_data2.py:29-33 | a non-empty value is the capture of some leftmost occurrence |
| `StableSort.SortByIsStableSort` | backend/data/load_data2.py:94 | the sort's result is ordered by key, is a permutation of the input, and keeps equal-key elements in input order |
| `StableSort.SortBySameElements` | backend/main.py:130 | sorting neither adds nor removes an element |
| `StableSort.StableSortUnique` | backend/data/load_data2.py:94 | two key-ordered sequences with the same equal-key subsequences are equal, so a stable sort has one possible result |
| `StableSort.SortedPrefixBelow` | backend/data/load_data2.py:97 | in a key-ordered sequence, everything in a prefix has a key no greater than anything outside it |
| `Tables.NextRowId` | backend/data/load_data.py:108 | the id SQLite assigns is at least 1 and larger than every id in the table, so ids keep increasing |
| `Tables.Database.constructor` | backend/data/load_data.py:11-39 | a new database file has both tables empty |
| `Tables.Database.Recreate` | backend/data/load_data2.py:40-75 | dropping and recreating leaves both tables empty |
| `Tables.Database.InsertStall` | backend/data/load_data.py:86-108 | the row is appended with the next row id, that id is returned as `lastrowid`, and the other table is unchanged |
| `Tables.Database.InsertAttributes` | backend/data/load_data.py:112-122 | the same for `stall_attributes` |
| `StallFields.ExtractAllAt` | backend/data/load_data2.py:176-184 | lookup `k` is the field lookup for name `k` |
| `StallFields.FieldIsLeftmostCapture` | backend/data/load_data2.py:176-209 | each of the nine text columns of the row holds its field's leftmost capture, and `''` when there is none |
| `LoadData.NameIgnoresDescription` | backend/data/load_data.py:81-93 | the first importer's name is the `Name` property when present and `''` without it; the description is never consulted |
| `LoadData.CoordinatesSwapped` | backend/data/load_data.py:82-83 | latitude is `coordinates[1]` and longitude is `coordinates[0]`; there is no distance column |
| `LoadData.ColumnIsLeftmostCapture` | backend/data/load_data.py:54-79 | each of the nine columns is the leftmost capture of its pattern, or `''` |
| `LoadData.ImportedRowsAt` | backend/data/load_data.py:46-122 | stall row `k` comes from feature `k`; attribute row `k` is the placeholder (`'Unknown'` three times and `0`) for stall row `k`'s id |
| `LoadData.ImportedRowsAppend` | backend/data/load_data.py:86-122 | one iteration extends the imported rows by one feature |
| `LoadData.ImportFeatures` | backend/data/load_data.py:46-122 | existing rows are kept (a rerun appends), and the new rows are exactly one stall row and one attribute row per feature, in order |
| `Numbers.NatToString` | backend/data/load_data2.py:158 | `str(n)` is a non-empty string of decimal digits |
| `Numbers.DigitsValueOfNatToString` | backend/data/load_data2.py:158 | the digits of `str(n)` denote `n` |
| `Numbers.IntValue` | backend/data/load_data2.py:231 | the value `int()` gives a text it accepts; stated by `Numbers.NatToStringRoundTrip` and `LoadData2.DefaultCaloriesReadable` |
| `Numbers.NatToStringRoundTrip` | backend/data/load_data2.py:231 | `int(str(n)) == n` |
| `Numbers.NatToStringInjective` | backend/data/load_data2.py:158 | different positions get different CSV keys |
| `LoadData2.InRangeMembers` | backend/data/load_data2.py:83-91 | a feature is a candidate exactly when its distance from Bras Basah is at most 5 km, and it carries that distance |
| `LoadData2.Nearby` | backend/data/load_data2.py:83-97 | every selected feature has a position; its meaning is stated by `LoadData2.NearbyWithinRange`, `LoadData2.NearbyIsSortedPrefix` and `LoadData2.NearbyAreNearest` |
| `LoadData2.NearbyWithinRange` | backend/data/load_data2.py:83-97 | every selected stall is an input feature within 5 km, with its own distance |
| `LoadData2.NearbyIsSortedPrefix` | backend/data/load_data2.py:93-97 | the selection is ordered by distance, holds `min(100, candidates)` stalls, and keeps ties in input order |
| `LoadData2.NearbyAreNearest` | backend/data/load_data2.py:93-97 | a selected stall is never farther than a candidate left out by the cut at 100 |
| `LoadData2.SelectNearby` | backend/data/load_data2.py:82-97 | the filter loop, sort and slice compute the selection |
| `LoadData2.CsvIndexLastWins` | backend/data/load_data2.py:140-145 | the dictionary's keys are the ids in the file, and each maps to the last row with that id |
| `LoadData2.CsvIndexUniqueKey` | backend/data/load_data2.py:145 | a row whose id no other row has is what its id maps to |
| `LoadData2.LoadCsv` | backend/data/load_data2.py:140-145 | the reading loop builds that dictionary |
| `LoadData2.StallName` | backend/data/load_data2.py:171-173 | the stall name rule; stated by `LoadData2.StallNameFromDescription` and `LoadData2.StallNameFallback` |
| `LoadData2.StallNameFromDescription` | backend/data/load_data2.py:171-173 | a non-empty `NAME` cell is the name |
| `LoadData2.StallNameFallback` | backend/data/load_data2.py:171-173 | otherwise the name is the `Name` property, even `''`, and `'Unknown Eatery'` without it |
| `LoadData2.WriteTemplate` | backend/data/load_data2.py:112-131 | one template row per selected stall, in order, with key `str(idx + 1)` and the default values |
| `LoadData2.TemplateCoversSelection` | backend/data/load_data2.py:112-131 | read back, the template maps every selected stall's key to that stall's row, with a calorie count `int()` accepts and SQLite can store |
| `LoadData2.DefaultCaloriesReadable` | backend/data/load_data2.py:130 | `int('500') == 500` |
| `LoadData2.Kept` | backend/data/load_data2.py:157-161 | the positions kept are below the selection's length and have a CSV row |
| `LoadData2.KeptMembers` | backend/data/load_data2.py:157-161 | exactly the positions with a CSV row are kept, each once, in increasing order |
| `LoadData2.InsertedFromStep` | backend/data/load_data2.py:159-161 | a stall without a CSV row is skipped and adds no row |
| `LoadData2.InsertedFromAppend` | backend/data/load_data2.py:163-232 | a stall with a CSV row adds its stall row, then an attribute row with the CSV values that points at the new stall id |
| `LoadData2.InsertSelected` | backend/data/load_data2.py:157-232 | the insert loop adds, in order and for each kept stall only, its stall row (name, nine columns, swapped coordinates, distance) and its attribute row |
| `LoadData2.ImportNearby` | backend/data/load_data2.py:39-232 | without a CSV the template is produced and the tables are left empty; with one, the recreated tables hold exactly the inserted rows of the selection |
| `SqlLike.Like` | backend/main.py:93-94 | SQLite's `LIKE` with `%` and `_`; stated by the `SqlLike.Like*` lemmas below |
| `SqlLike.LikeAnything` | backend/main.py:94 | `%` matches every text |
| `SqlLike.LikeLeadingPercent` | backend/main.py:94 | a leading `%` matches when the rest of the pattern matches some suffix |
| `SqlLike.LikeLiteralPrefix` | backend/main.py:94 | a wildcard-free prefix of the pattern must equal the text's prefix up to ASCII case |
| `SqlLike.LikeSubstring` | backend/main.py:92-94 | `text LIKE '%d%'` holds exactly when `d` occurs in the text up to ASCII case, for `d` without wildcards |
| `StallQuery.CuisineClause` | backend/main.py:85 | the cuisine condition's text is `" AND sa.cuisine_type = ?"` |
| `StallQuery.PriceClause` | backend/main.py:89 | the price condition's text is `" AND sa.price_range = ?"` |
| `StallQuery.DietaryClause` | backend/main.py:93 | the dietary condition's text is `" AND sa.dietary_requirements LIKE ?"` |
| `StallQuery.AddCondition` | backend/main.py:84-94 | appending one clause and its argument keeps query and parameters in step with the conditions |
| `StallQuery.BuildQuery` | backend/main.py:76-94 | the query is the base query followed by one clause per given filter, in the order cuisine, price, dietary; the parameters are those filters' values, with the dietary one as `%dietary%` |
| `StallQuery.BaseQueryHasNoPlaceholder` | backend/main.py:76-81 | the base query has no `?` |
| `StallQuery.ClauseHasOnePlaceholder` | backend/main.py:84-94 | each clause has exactly one `?` |
| `StallQuery.PlaceholdersMatchArguments` | backend/main.py:84-96 | after any clauses, the query's `?` count equals the number of parameters |
| `StallQuery.QueryPlaceholders` | backend/main.py:76-96 | the query sent has as many `?` as parameters, one per non-empty filter |
| `StallQuery.ArgumentsLength` | backend/main.py:82-94 | one parameter per condition |
| `StallQuery.FiltersMeaning` | backend/main.py:84-96 | a row passes the `WHERE` clause exactly when it equals the given cuisine and price and its dietary text matches `%dietary%`; an absent or empty filter admits every row |
| `StallQuery.DietaryIsSubstring` | backend/main.py:92-94 | a wildcard-free dietary filter is a case-insensitive substring test |
| `StallQuery.AttributeColumns` | backend/main.py:77 | the four selected attribute columns |
| `StallQuery.JoinRow` | backend/main.py:77-79 | a joined row has the four attribute columns and real `latitude` and `longitude`, with the stall's coordinates and the attribute row's values |
| `StallQuery.PairsOfMembers` | backend/main.py:79-80 | the pairs for one stall are its attribute rows that pass the `WHERE` clause |
| `StallQuery.MatchingMembers` | backend/main.py:78-80 | a pair is joined exactly when its attribute row points at its stall and passes the `WHERE` clause |
| `StallQuery.Select` | backend/main.py:76-96 | the rows the join returns; stated by `StallQuery.SelectMembers` and `StallQuery.SelectRowsAreQueryRows` |
| `StallQuery.SelectMembers` | backend/main.py:76-96 | a row is in the result exactly when it joins a stall with one of its attribute rows that passes the `WHERE` clause |
| `StallQuery.SelectRowsAreQueryRows` | backend/main.py:104-122 | every result row has the columns the handler reads and pops |
| `Api.Round2` | backend/main.py:115 | `round(d, 2)`; stated by `Api.Round2Close` and `Api.Round2Monotone` |
| `Api.Round2Close` | backend/main.py:115 | `round(d, 2)` is within 0.005 of `d` |
| `Api.Round2Monotone` | backend/main.py:115 | rounding keeps the order of distances |
| `Api.Nest` | backend/main.py:118-125 | moving the attribute columns under `attributes`; stated by `Api.NestMovesAttributes` |
| `Api.NestMovesAttributes` | backend/main.py:118-125 | the four attribute columns move, unchanged, under `attributes`; every other key keeps its value |
| `Api.StallsResponse` | backend/main.py:99-130 | the `GET /stalls` response for the query rows; stated by `Api.ResponseWithinRadius`, `Api.RowsInRadiusReturned`, `Api.NoLocationKeepsRows` and `Api.ResponseSortedStable` |
| `Api.ShapeRows` | backend/main.py:99-130 | the loop and the sort compute the response for the query rows |
| `Api.GetStalls` | backend/main.py:64-133 | `GET /stalls` returns the response for the rows of the filtered join, all of which have the columns the loop reads |
| `Api.ShapedMembers` | backend/main.py:99-126 | a dict is in the loop's output exactly when it is the shape of a row that was not skipped |
| `Api.ResponseWithinRadius` | backend/main.py:104-115 | with a location every returned stall has a `distance`; it is the rounded distance of a row within `radius`, so at most `radius + 0.005` |
| `Api.RowsInRadiusReturned` | backend/main.py:104-112 | with a location every row within `radius`, the boundary included, is returned |
| `Api.NoLocationKeepsRows` | backend/main.py:99-126 | without a location every row is returned in query order, with no `distance` |
| `Api.ResponseSortedStable` | backend/main.py:128-130 | with a location the stalls are ordered by rounded distance, are a permutation of the kept rows, and keep query order on ties |
| `Api.GetStall` | backend/main.py:135-165 | an id outside SQLite's 64-bit range fails with status 500 (`OverflowError` when it is bound at line 146); for any other id the only failure is `HTTPException(404, "Stall not found")` |
| `Api.GetStallFound` | backend/main.py:135-165 | the request fails exactly when the id is outside the 64-bit range or no stall with that id has an attribute row; otherwise it returns such a stall joined with its attributes, nested |
| `Api.DistinctExcept` | backend/main.py:173-185 | `SELECT DISTINCT ... WHERE column != 'Unknown'` gives each value other than `'Unknown'` once, and only values in the column |
| `Api.ColumnValuesMembers` | backend/main.py:173-192 | a value is read from a column exactly when some attribute row holds it there |
| `Api.GetFilters` | backend/main.py:167-193 | each list holds exactly the values of its column, over all attribute rows, other than `'Unknown'`, each once |

## Left out

- The haversine formula. Both `calculate_distance` functions are the parameter `Tables.DistanceFn`, so the model makes no claim about distances beyond what the code does with them. Floating-point arithmetic is not modelled: coordinates and distances are exact reals.
- `Api.Round2`: Python's `round(x, 2)` on binary floats can round a decimal tie either way. The model rounds exact reals, with ties to even.
- Opening files, `json.load`, the `print` progress messages, `exit()` and closing connections are left out. The GeoJSON features and the CSV rows are inputs; the CSV template is an output.
- `LoadData2.InsertSelected`: the `conn.commit()` every 10 stalls is left out, because the model has no transactions or crash states. The model's database is always in its committed state.
- `LoadData2.ImportNearby`: a missing CSV file is `csvFile == None`. A CSV that raises while being read (the `except Exception` branch) is not modelled, and neither is a row with missing columns.
- `LoadData2.ImportNearby` and `LoadData2.InsertSelected` require that every joined CSV row's calorie count is text `int()` accepts, with a value in SQLite's 64-bit `INTEGER` range (`CaloriesReadable`). Otherwise the script raises `ValueError` at `backend/data/load_data2.py:231`, or `OverflowError` when the INSERT at lines 219-232 binds a value outside the range. That happens after the current stall's row is inserted (lines 190-210), so that stall has no attribute row. The script then exits without committing, and every row inserted since the last `commit()` (lines 235-237) is rolled back. This failure path is not modelled. The template produced without a CSV always meets the requirement (`LoadData2.TemplateCoversSelection`).
- `Numbers.IntValue` accepts ASCII digits, `_` separators, a sign and surrounding whitespace. Python's `int()` also accepts other Unicode digits, which are not modelled.
- GeoJSON features are assumed well formed: `coordinates` has at least two numbers, and `Name` and `Description` are absent or strings. A JSON `null` name, a missing `geometry` and other malformed features would make Python raise, and they are not modelled.
- `StallQuery.Select`: SQLite does not promise an order for a join without `ORDER BY`. The model fixes one, stall by stall in table order and then the attribute rows in table order. The properties about membership (`StallQuery.SelectMembers`, `Api.GetStallFound`) do not depend on that choice, but the order of a location-less `GET /stalls` and which row `get_stall`'s `fetchone` picks do.
- `StallQuery.Select` is specified by the meaning of the `WHERE` clause, not by parsing the query text. `StallQuery.BuildQuery` ties the text to the conditions, and `StallQuery.FiltersMeaning` gives the conditions' meaning.
- `SqlLike.Like` folds ASCII letters only, as SQLite's default `LIKE` does. The `case_sensitive_like` pragma and ICU collations are left out.
- `Api.GetStalls` takes `radius` as a number. FastAPI supplies the default of 1.0 km (`backend/main.py:68`) before the handler runs, so the default is not part of the model. An explicit `radius=None` would make `distance > radius` raise `TypeError`, and that is not modelled either.
- `StallQuery.StallColumns` includes `distance_from_bras_basah` only for rows that have a value for it. When the second importer created the tables and the first importer added rows afterwards, `s.*` returns that column as `None` for the added rows; the model omits the key instead, because it does not record which script created the schema. FastAPI's `Stall` response model drops the field in either case.
- `Api.GetStall`: for an id outside the 64-bit range, `sqlite3` raises `OverflowError` at `backend/main.py:146`, which FastAPI turns into a 500 response. The model returns status 500 with the detail `"Internal Server Error"`; the exception handling itself is not modelled.
- `Tables.NextRowId` is SQLite's `max(rowid) + 1`. Once the largest id is 2^63-1, SQLite instead tries random unused ids, and fails with `SQLITE_FULL` when none is found. That fallback is not modelled, so ids are unbounded in the model.
- `Api.DistinctExcept`: without `ORDER BY`, SQLite does not promise an order for `SELECT DISTINCT` in `get_filters`. The model fixes first-appearance order in the table. `Api.GetFilters` and `Api.ColumnValuesMembers` state membership and uniqueness only, which hold for any order.
- `Api.DistanceKey`: the sort's default `float('inf')` is replaced by `0.0`, because keys are reals. It never takes effect: with a location every dict has a `distance` (`Api.ResponseWithinRadius`).
- `Api.GetStalls` and `Api.GetStall` return the handler's dicts. FastAPI's serialisation through the `Stall` response model is left out, along with the fields it drops (`distance`, `address_block`, `address_type`, `last_updated`, `distance_from_bras_basah`) and the validation errors it can raise.
- Python dictionaries keep insertion order. The model's records are maps, so key order in the JSON output is not captured.
- `read_root`, the CORS middleware and `get_db_connection` have no logic to model.
