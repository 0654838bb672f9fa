# NEO database: a Dafny model

This project models the `neo` package: an in-memory data set of near-Earth
objects (NEOs) and their recorded close approaches to Earth. Two flat
collections are extracted from a CSV table of NEOs and a JSON document of
close approaches. `NEODatabase` groups the approaches by designation, indexes
the NEOs by designation and by name, and links the two collections both ways.
It answers exact-key lookups and a conjunctive filter query. The query
results are written out as CSV rows or as a JSON list.

Modules, one per source file plus two helpers:

- `Wrappers` (wrappers.dfy): `Option` (Python's `None`-or-value) and `Result`
  (a value, or the exception the source would raise).
- `Timestamps` (timestamps.dfy): approach times to the minute. `Format` is
  `strftime('%Y-%m-%d %H:%M')`, and `Parse` reads that text back.
- `Models` (models.dfy): the two entities, their constructors, `fullname`,
  and both `serialize` methods. It also holds a JSON value type and the
  decoders that read serialised records back.
- `Database` (database.dfy): the `NEODatabase` class. Each of its three
  construction loops is a method, proved against a function that defines the
  index it builds. Lookups and `query` are methods too. Lemmas state what the
  indices, the links and the query mean.
- `Extract` (extract.dfy): `load_neos` and `load_approaches`, from rows of
  text fields to entities.
- `Write` (write.dfy): the row building of `write_to_csv` and the list built
  by `write_to_json`.

Representation choices:

- Entities are values. An NEO's `approaches` is `None` or a list of handles:
  positions in the database's sequence of close approaches. A close
  approach's `neo` holds the linked NEO value itself. Nothing changes after
  construction, so this gives the same views as the source's mutual object
  references, without a cycle.
- Floats are `Float = Num(real) | NaN`. NaN is the unknown-diameter sentinel.
  No float arithmetic is modelled.
- Python's `float(text)` is a parameter of type `string -> Option<Float>`.
  `helpers.cd_to_datetime` is a parameter of type
  `string -> Option<Timestamp>`. `None` from either stands for the exception
  it raises.
- Construction of the database can fail, so `NEODatabase.Create` returns a
  `Result`. The source's link loop indexes `designation_to_neos[...]`
  directly, which raises `KeyError` for an approach whose designation names
  no NEO: such an approach is never left unlinked. The model reports the
  first such approach in storage order.
- An NEO with no close approaches gets `None` for its approaches, not an
  empty collection, because the link step takes `.get(designation, None)`.

## Model

| member | source | states |
|---|---|---|
| `Timestamps.Format` | neo/models.py:106 | the `%Y-%m-%d %H:%M` text of a time is always sixteen characters: no seconds |
| `Timestamps.ParseFormat` | neo/models.py:106 | every valid datetime survives formatting and reading back |
| `Timestamps.FormatParse` | neo/models.py:106 | any text that reads back as a time is exactly the formatted form of that time |
| `Timestamps.ValueOfDigits` | neo/models.py:106 | a zero-padded field reads back as the number written, when the number fits its width |
| `Timestamps.DigitsOfValue` | neo/models.py:106 | a field of digits is the zero-padded form of the number it denotes |
| `Timestamps.Digits` | neo/models.py:106 | a padded field has exactly its width, all decimal digits |
| `Models.NewNearEarthObject` | neo/models.py:35-50 | designation and hazard flag are kept. The name is None exactly when the argument is absent or empty, otherwise verbatim. The diameter may be text, a number or None: a false one (None, empty text, zero) is NaN, a number is kept, other text is `float` of it, and a bad text raises. The approaches start as a fresh empty collection |
| `Models.FullName` | neo/models.py:61-63 | the designation alone exactly when there is no name. Otherwise the designation, then " (", the name and ")" |
| `Models.NewCloseApproach` | neo/models.py:89-102 | time, then distance, then velocity are converted, and the first failure is raised. On success the given designation and the converted values are stored, and the approach is not linked (`neo` is None) |
| `Models.GetFirst` | neo/models.py:52-58 | a key looked up in a serialised dict yields the value at its first position |
| `Models.SerializeNeo` | neo/models.py:52-58 | exactly the keys `designation`, `name`, `diameter_km`, `potentially_hazardous`, in that order. The name is null exactly when absent |
| `Models.SerializeApproach` | neo/models.py:104-110 | exactly the keys `datetime_utc`, `distance_au`, `velocity_km_s`, `neo`. `neo` is null exactly when unlinked, and the time text has no seconds |
| `Models.DecodeSerializedNeo` | neo/models.py:52-58 | reading a serialised NEO back gives its designation, name, diameter and hazard flag |
| `Models.DecodeSerializedApproach` | neo/models.py:104-110 | reading a serialised close approach back gives its time, distance, velocity, and the nested NEO's fields or null |
| `Database.GroupedSpec` | neo/database.py:52-56 | the grouping map has a key exactly for each designation that occurs. Its group lists exactly the positions carrying it, in increasing (input) order, and is never empty |
| `Database.IndexedSpec` | neo/database.py:61 | the designation index has a key exactly for each designation that occurs. It points at the last NEO with that designation: a duplicate overwrites |
| `Database.IndexedKeys` | neo/database.py:61 | the designation index's keys are exactly the designations that occur |
| `Database.NameIndexedSpec` | neo/database.py:62-63 | the name index has a key exactly for each non-empty name that occurs, never for "". It points at the last NEO with that name |
| `Database.SameNeosKeys` | neo/database.py:59-63 | linking leaves every NEO's designation and name as given |
| `Database.SameApproachesKeys` | neo/database.py:66-67 | linking leaves every close approach's designation as given |
| `Database.NeoApproaches` | neo/database.py:59-60 | after linking, an NEO's `approaches` is None exactly when no close approach carries its designation. Otherwise it lists exactly those approaches, in storage order |
| `Database.LinksAgree` | neo/database.py:59-67 | after linking, each close approach's NEO carries the approach's designation, lists the approach among its own, and is the last NEO with that designation |
| `Database.PassesAppend` | neo/database.py:122 | passing a concatenation of filter lists is passing each list |
| `Database.SelectMembers` | neo/database.py:121-123 | an approach is in the query result exactly when it is stored and passes every filter |
| `Database.SelectAppend` | neo/database.py:121-123 | the query keeps storage order: it distributes over concatenation of the stored sequence |
| `Database.SelectNoFilters` | neo/database.py:106-123 | with no filters the query yields every stored approach, in order |
| `Database.SelectSameTest` | neo/database.py:121-123 | filter lists that accept the same approaches give the same query result |
| `Database.SelectConjunction` | neo/database.py:121-123 | querying with two filter lists together is querying with the first and filtering that by the second |
| `Database.FilterOrderIrrelevant` | neo/database.py:121-123 | `query([f1, f2])` equals `query([f2, f1])`, and equals `query([f1])` filtered by `f2`. An approach is in it exactly when it is in both single-filter results |
| `Database.NEODatabase.constructor` | neo/database.py:42-49 | the database takes both collections as given, with three empty indices |
| `Database.NEODatabase.Create` | neo/database.py:24-67 | fails, with the first unknown designation in storage order, exactly when some approach names no NEO. On success the database is valid: indices as defined, links as defined. Its collections equal the given ones in length, order and every non-link field |
| `Database.NEODatabase.GroupApproaches` | neo/database.py:51-56 | fills the grouping map with the grouping of the approach designations and changes nothing else |
| `Database.NEODatabase.LinkNeos` | neo/database.py:58-63 | each NEO gets the group of its designation or None. Fills the designation and name indices, and changes nothing else about the NEOs |
| `Database.NEODatabase.LinkApproaches` | neo/database.py:65-67 | each approach gets the indexed NEO of its designation. Otherwise reports the first designation that is not indexed, where the source raises KeyError |
| `Database.NEODatabase.GetNeoByDesignation` | neo/database.py:72-87 | returns an NEO exactly when one has exactly this designation: the last such NEO. Otherwise None |
| `Database.NEODatabase.GetNeoByName` | neo/database.py:89-104 | returns an NEO exactly when the name is present, non-empty and carried by some NEO: the last such NEO. None for None, for "" and for unknown names |
| `Database.NEODatabase.Query` | neo/database.py:106-123 | yields the stored approaches that pass every filter, in storage order |
| `Extract.IndexOf` | neo/extract.py:33-36 | `list.index`: the first position of the item. Raises exactly when the item does not occur |
| `Extract.NeoColumnsOf` | neo/extract.py:32-36 | finds `pdes`, `name`, `pha`, `diameter` by header name, each at its first occurrence. The first missing name, in that order, raises |
| `Extract.NeoFromRow` | neo/extract.py:38-43 | designation comes from `pdes`, the name from `name` (empty: None), the diameter from `diameter` (empty: NaN). Hazardous exactly when `pha` is "Y". A row too short for a column raises IndexError for the first such column, in reading order; a diameter text `float` rejects raises ValueError |
| `Extract.LoadNeos` | neo/extract.py:21-44 | the first row is the header and yields no NEO. Every later row yields one NEO, in row order. No rows yield none. The first error raised is the result |
| `Extract.ApproachColumnsOf` | neo/extract.py:59-62 | finds `des`, `cd`, `dist`, `v_rel` in `fields`, each at its first occurrence. The first missing name raises |
| `Extract.ApproachFromRow` | neo/extract.py:64-68 | one close approach per entry, with the designation from `des` and time, distance and velocity converted from `cd`, `dist`, `v_rel`. The first failure raises: a short row's IndexError, else a bad date, else a bad distance, else a bad velocity |
| `Extract.LoadApproaches` | neo/extract.py:47-70 | each entry of `data` yields one close approach, in order. The first error raised is the result |
| `Write.CsvRecord` | neo/write.py:44-52 | the row has exactly the seven output fields. Without an NEO, designation, name and diameter are '' and the hazard flag is 'False'. With one, they carry the NEO's fields and `str(hazardous)` |
| `Write.ReadWrittenRow` | neo/write.py:40-53 | reading a written line back against its field names gives the dict's value (or '') under each name |
| `Write.CsvRowRoundTrip` | neo/write.py:32-53 | every CSV line puts each value under the header naming it: reading a line back gives its row dict |
| `Write.Header` | neo/write.py:32-41 | the header line is `datetime_utc, distance_au, velocity_km_s, designation, name, diameter_km, potentially_hazardous`, in that order |
| `Write.WriteToCsv` | neo/write.py:39-53 | the header line first, then one line per result, in result order |
| `Write.WriteToJson` | neo/write.py:68 | one serialised record per result: same length and order |
| `Write.JsonRoundTrip` | neo/write.py:68 | reading the JSON list back gives each result's time, distance, velocity and NEO fields, in result order |

## Left out

- bikeshare/bikeshare_2.py: an interactive report script over data frames. It has no state or cross-referencing to model.
- File handling, `csv.reader`, `csv.DictWriter`'s file output, `json.load` and `json.dump`. The NEO table is its rows of text fields. The approach document is its `fields` list and `data` rows. The outputs are their rows or their list of records. A document without a `fields` or `data` key is not modelled.
- Text rendering of values: `str(float)`, NaN written as `nan`/`NaN`, `None` written by the csv writer as the empty string, JSON indentation. Output cells and JSON values stay Python values.
- Float parsing and arithmetic. `float` is a parameter and floats are opaque, so infinities are not told apart from other numbers.
- `helpers.cd_to_datetime` and `helpers.datetime_to_str`: the helpers module is not part of this model. The first is a parameter. The second is behind `time_str`, which is not modelled.
- `Timestamps.Format`: pads the year to four digits. Python's `%Y` on some platforms does not pad years below 1000. Such years do not occur in the data.
- `Timestamps.ParseFormat`: holds for the field ranges a `datetime` enforces. It ignores month lengths, which `Format` and `Parse` never check.
- `__str__` and `__repr__`: their wording is not a contract.
- The shared default `approaches=set()`: each NEO starts with its own empty collection, which the database overwrites anyway.
- Generator laziness of `query`: the model yields the whole matching sequence, and a caller that stops early is not modelled. Filters are total, side-effect-free functions of a close approach, so evaluation order and short-circuiting do not affect the result.
- Object identity and aliasing: entities are values, so the same NEO object appearing twice in the input is not distinguished from two equal NEOs. The partial linking the source leaves behind when it raises KeyError is not modelled.
- `CloseApproach`'s optional arguments: `designation=None` and a caller-supplied `neo`. The extractor always passes a designation text and never a `neo`.
- `Database.NEODatabase.Create`: does not promise anything about the given collections on failure. The source mutates them partially before raising.
