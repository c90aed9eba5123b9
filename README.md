# GerryDB Census loaders: the row transforms, modelled in Dafny

This project models the data-shaping core of the two Census load scripts of the GerryDB
ETL tooling:

- `load_geo` (load_test_geo.py) turns a TIGER geography layer into path-safe,
  deduplicated, uniquely keyed records and a county-to-geography index. It escapes every
  '/' in string cells as "--". It then drops identical rows and groups the geoids by
  county. Finally it rewrites the geoids level by level:
  - an auxiliary level gets a `level:` prefix;
  - an `aiannh` (American Indian / Alaska Native / Native Hawaiian area) row is classified
    as trust or reservation, loses its trailing r/t letters and gets a `:fips<state>`
    suffix;
  - two parts of one `aiannh` area that then share a geoid are merged into one row.
- `load_tables` (load_test_pop.py) turns a PL 94-171 population table into a table keyed
  by geography id:
  - it checks for a missing dataset and a missing state code, then sanitizes the cells;
  - it looks up the id columns of the level and concatenates them into `id`;
  - it lower-cases the column names and keys the table by `id`;
  - it keeps the aliases of the column set that name a column of the table.
- Both scripts' `main` functions parse fips, level, year and hash or table out of a file
  name.

Each loader is a value-level pipeline: a layer or frame goes in, and `Result` comes out
holding what the database calls would receive, or the error the script raises. The two
places where the source mutates a dictionary in a loop stay imperative:
- the `aiannh` collision merge, the `Collisions.CollapseCollisions` method;
- the alias table, the `ColumnAliases.BuildAliasMap` method.

The escape is not injective: a geoid holding '/' and one holding "--" in its place become
equal, so two such rows can collapse into one when duplicates are dropped
(`GeoRows.SanitizeMergesGeoids`).

Each method is proved equal to a fold, and the fold's properties are proved as lemmas.
The collision fold is also proved equal to an independent per-geoid reference.

Modules, following the program's structure:
- `Wrappers`: `Option` and `Result`.
- `Text`: the '/' escape, `rstrip`, `lower`, `split`, `join` and `basename`.
- `Tables`: cells and `drop_duplicates`.
- `GeoRows`: layer rows, the sanitizer, the county index, the trust/reservation class and
  the id rewrites.
- `Collisions`: the `aiannh` merge.
- `GeoLoad`: the `load_geo` pipeline and its file-name parsing.
- `ColumnAliases`: the alias table.
- `PopLoad`: the `load_tables` pipeline and its file-name parsing.

## Model

| member | source | states |
|---|---|---|
| Text.EscapeSlashes | load_test_geo.py:83-85 | the escaped string holds no '/', and is one character longer per '/' of the input |
| Text.EscapeFixesSlashFree | load_test_geo.py:83-85 | the escape leaves a string unchanged exactly when it holds no '/' |
| Text.EscapeIdempotent | load_test_geo.py:83-85 | escaping twice is escaping once |
| Text.EscapeConcat | load_test_geo.py:83-85 | the escape distributes over concatenation |
| Text.EscapeMergesSeparators | load_test_geo.py:83-85 | the escape is not injective: two distinct strings, one with '/' where the other has "--", escape alike |
| Text.UnescapeEscape | load_test_geo.py:83-85 | on strings without '-', reading "--" back as '/' recovers the original, so the escape loses nothing |
| Tables.SanitizeCell | load_test_geo.py:83-85 | a string cell becomes the escaped string and a number is unchanged; the result holds no '/', a string without '-' can be recovered, and a '/'-free cell is unchanged |
| GeoRows.SanitizeRow | load_test_geo.py:83-85 | geoid, county, name and internal-point strings become their escapes, and so does every string attribute; areas, geometry and numeric attributes are unchanged; the row is '/'-free, and a '/'-free row is unchanged |
| GeoRows.Sanitize | load_test_geo.py:82-85 | the layer keeps its shape and row count; every row is '/'-free and is the sanitized input row |
| GeoRows.SanitizeMergesGeoids | load_test_geo.py:80-85 | two rows that differ only by a '/' in one geoid where the other has "--" become the same row |
| GeoRows.SanitizeIdempotent | load_test_geo.py:82-85 | sanitizing a sanitized layer changes nothing |
| PopLoad.SanitizeFrame | load_test_pop.py:82-84 | same column names and row count; every row is the cell-wise sanitized input row |
| Tables.DropDuplicates | load_test_geo.py:115-116 | the result repeats no row, holds exactly the rows of the input, and is no longer |
| Tables.DropDuplicatesKeepsFirstOccurrenceOrder | load_test_geo.py:116 | the survivors appear in the order of their first occurrence in the input |
| Tables.DropDuplicatesOfDistinct | load_test_geo.py:116 | a layer without repeated rows is returned unchanged |
| Tables.DropDuplicatesIdempotent | load_test_geo.py:116 | dropping duplicates again changes nothing |
| Tables.DroppedCountZero | load_test_geo.py:115-118 | the reported count `n_rows - len(result)` is zero exactly when no row repeats |
| GeoRows.CountyIndexSpec | load_test_geo.py:120-121 | the index's keys are exactly the county values of the rows, and county c lists exactly the geoids of the rows in c |
| GeoRows.CountyIndexGroups | load_test_geo.py:120-121 | each county lists its rows' geoids in row order, one entry per row |
| GeoRows.GeoidsInAbsent | load_test_geo.py:120-121 | a value that is not a key of the index is the county of no row |
| GeoRows.CountyIndexWithoutCountyColumn | load_test_geo.py:120-124 | a layer without a county column has an empty index |
| GeoRows.Classify | load_test_geo.py:134-140 | a last character t/T gives trust, r/R gives reservation (both iff); any other last character is a ValueError naming the geoid, and an empty geoid is an error |
| GeoRows.ClassifyRows | load_test_geo.py:142-147 | succeeds iff every raw geoid is classifiable; each row then gets its class and the rewritten `aiannh` geoid; on failure the error is that of the first unclassifiable row |
| GeoRows.AiannhGeoidExample | load_test_geo.py:145-147 | "1680R" in state "04" becomes "aiannh:1680:fips04" |
| GeoRows.AiannhGeoidStripsAll | load_test_geo.py:146 | every trailing r/t/R/T letter is stripped, not only the last |
| GeoRows.AiannhGeoidCollision | load_test_geo.py:145-151 | within one state two raw geoids collide exactly when they agree after stripping their trailing r/t letters |
| GeoRows.AiannhGeoidQualifiedByState | load_test_geo.py:146 | the same raw geoid in two states gets two geoids, one per state |
| Collisions.Absorb | load_test_geo.py:154-188 | one iteration keeps the table of first-seen rows consistent: insertion order and keys agree, and every entry is stored under its own geoid |
| Collisions.CollapseCollisions | load_test_geo.py:152-192 | the loop over the dictionary updated in place yields exactly the fold `Collapse` |
| Collisions.Collapse | load_test_geo.py:152-192 | on success the merged rows have unique geoids |
| Collisions.CollapseErrorPersists | load_test_geo.py:163-188 | once the walk has raised, later rows do not change the outcome |
| Collisions.Emit | load_test_geo.py:190-192 | the emitted rows are the stored rows in insertion order |
| Collisions.EmitIds | load_test_geo.py:190-192 | the emitted rows carry the geoids in insertion order |
| Collisions.CollapseStateMatchesBuckets | load_test_geo.py:152-188 | after any prefix the state lists the geoids in order of first occurrence, and each entry holds its group's reduction with the group size less one; a raised error is the error of a failing group |
| Collisions.CollapseMatchesBuckets | load_test_geo.py:152-192 | the merge succeeds exactly when every per-geoid group reduces, and then equals the reference: the reduced groups in order of first occurrence; a failure carries the error of a failing group |
| Collisions.ReduceErrorExtends | load_test_geo.py:161-188 | a group that fails keeps failing, with the same error, as it grows |
| Collisions.NoSharedGeoidPassesThrough | load_test_geo.py:151 | rows with pairwise distinct geoids pass through unmerged |
| Collisions.AtMostTwoPerGeoid | load_test_geo.py:161-165 | after a successful merge no geoid had more than two input rows |
| Collisions.TwoWayCollision | load_test_geo.py:155-173 | two parts of one area become one row: areas added, geometry unioned, class `union`, first-seen name and other fields kept |
| Collisions.TwoWayNameMismatch | load_test_geo.py:175-188 | two parts with different names fail, unless the geoid is aiannh:1075:fips32 or aiannh:1070:fips32 |
| Collisions.ThreeWayCollision | load_test_geo.py:161-165 | a third part of the same area raises the three-way collision error |
| Collisions.AbsorbPreserves | load_test_geo.py:154-173 | one iteration adds the row's land and water area and its geometry to the emitted rows' totals |
| Collisions.CollapsePreservesAreaAndGeometry | load_test_geo.py:152-192 | the merged rows have the input rows' total land area and total water area, and cover the same geometry |
| GeoRows.Reprefix | load_test_geo.py:206-209 | the index keeps its keys and list lengths and every entry gets the `level:` prefix |
| GeoRows.PrefixedGeoidInjective | load_test_geo.py:205 | within one level the prefix rewrite maps distinct geoids to distinct geoids |
| GeoLoad.PrefixRows | load_test_geo.py:205 | every row gets the `level:` prefix on its geoid and keeps every other field |
| GeoLoad.PrefixRowsKeepsIdsDistinct | load_test_geo.py:204-205 | rows with distinct raw geoids keep distinct geoids after the prefix |
| GeoLoad.MapColumnsSpec | load_test_geo.py:213-217 | a source column is mapped iff it is configured and present in the frame, and then to its last configured target |
| GeoLoad.YearSuffix | load_test_geo.py:108-109 | `year[2:]`: the year is its first two characters followed by the suffix |
| GeoLoad.LoadGeo | load_test_geo.py:91-93 | the load does nothing exactly when the dataset is listed as unpublished |
| GeoLoad.LoadGeoUnknownLayer | load_test_geo.py:107 | a level/year pair that is not a key of `LAYER_URLS` fails with that lookup error |
| GeoLoad.LoadGeoBaseLevel | load_test_geo.py:111-124 | a level that is not auxiliary loads the deduplicated sanitized rows with all their columns; the county index covers those rows (empty without a county column), and the column map is over the layer's columns |
| GeoLoad.LoadGeoAuxiliaryLevel | load_test_geo.py:204-217 | another auxiliary level loads every row with the `level:` prefix on its geoid and every other column kept; the county index has the same keys with every entry prefixed; the column map is the configured pairs whose source is a column of the full layer |
| GeoLoad.LoadGeoStages | load_test_geo.py:107-209 | a successful load is the level stage applied to the deduplicated, sanitized rows and their county index |
| GeoLoad.LoadGeoPathSafe | load_test_geo.py:80-85 | for every level, no loaded geoid and no county-index key or entry holds a '/' (given a '/'-free state code) |
| GeoLoad.AiannhStageSafe | load_test_geo.py:145-192 | the `aiannh` geoids are '/'-free when the rows and the state code are |
| GeoLoad.EmittedIdsOccur | load_test_geo.py:190-192 | every merged geoid is the geoid of some input row |
| GeoLoad.AiannhGeoidsUnique | load_test_geo.py:150-202 | the loaded `aiannh` records have pairwise distinct geoids |
| GeoLoad.AiannhUnclassifiableFails | load_test_geo.py:139-144 | one unclassifiable raw geoid makes the `aiannh` branch fail |
| GeoLoad.AiannhGuardIsShortcut | load_test_geo.py:151 | the guard only skips work: the branch equals classify, rewrite, always merge, project |
| GeoLoad.ParseGeoFileNameRoundTrip | load_test_geo.py:264-268 | parsing `<fips>_<level>_<year>--<hash>.parquet`, in any directory or none, gives back the four fields when they hold none of `_ - / .` |
| GeoLoad.GeoNameFields | load_test_geo.py:265-267 | the split on '_' yields fips, level and the rest, whose part before "--" is the year |
| GeoLoad.GeoNameHalves | load_test_geo.py:268 | the split on "--" has a second piece whose part before '.' is the hash |
| Text.RStrip | load_test_geo.py:146 | `rstrip` removes a suffix made only of stripped characters and stops at a character outside the set |
| Text.JoinSplit | load_test_geo.py:265-268 | joining the pieces of a split with its separator gives back the string |
| Text.SplitAfterField | load_test_geo.py:265-266 | a leading field free of the separator's characters is the first piece |
| Text.Basename | load_test_geo.py:264 | the base name holds no '/' |
| Text.BasenameAfterDirectory | load_test_geo.py:264 | a directory part is dropped, whatever it holds |
| Text.Lower | load_test_pop.py:111 | `lower` keeps the length, turns each letter A-Z into the corresponding letter a-z and changes nothing else |
| Text.LowerIdempotent | load_test_pop.py:129 | lower-casing twice is lower-casing once |
| PopLoad.LoadTables | load_test_pop.py:70-118 | nothing to do iff the dataset is listed as unpublished; otherwise a missing state code is an error, then an unknown level, then a column set not registered under the lower-cased table name, then the first absent id column |
| PopLoad.IdColumns | load_test_pop.py:86-107 | exactly the nine known levels have id columns, at least one each |
| PopLoad.ParentIdColumns | load_test_pop.py:86-101 | every level but `state` and `aiannh` uses its parent level's id columns followed by one more |
| PopLoad.LevelIdExtendsParent | load_test_pop.py:86-118 | a row's id at a level is its id at the parent level followed by the added column's cell |
| PopLoad.ColumnIndex | load_test_pop.py:118 | a column is found iff the frame has it, at its first position |
| PopLoad.IdIndices | load_test_pop.py:118 | succeeds iff every id column is present, giving their first positions in order; otherwise a missing column is named |
| PopLoad.RowId | load_test_pop.py:118 | a row has an id iff all of its id cells are strings |
| PopLoad.RowIdConcat | load_test_pop.py:118 | the id over two column lists is the id over the first followed by the id over the second |
| PopLoad.TableIds | load_test_pop.py:118 | succeeds iff every row has an id, and then lists each row's id in row order; otherwise a type error |
| PopLoad.RowIdSlashFree | load_test_pop.py:82-84 | an id built from '/'-free cells is '/'-free |
| PopLoad.PrefixIdUnused | load_test_pop.py:43-48 | with this loader's empty set of auxiliary levels, ids are left unprefixed |
| PopLoad.PrefixIdMatchesGeography | load_test_pop.py:120-127 | were a level auxiliary, its table id would equal the geoid the geography loader gives that area |
| PopLoad.SetColumn | load_test_pop.py:118 | an existing column is overwritten in place, otherwise the column is appended; every row gets its value and keeps its other cells |
| PopLoad.LowerColumns | load_test_pop.py:129 | rows unchanged, every column name lower-cased |
| PopLoad.Without | load_test_pop.py:130 | the sequence without one position, every other element kept in order |
| PopLoad.SetIndex | load_test_pop.py:130 | succeeds iff the key names exactly one column; that column becomes the index and leaves the columns and every row; a missing key is a KeyError |
| PopLoad.FilterAliases | load_test_pop.py:132-134 | exactly the aliases that name a column are kept, each with its column |
| PopLoad.LoadTablesLoaded | load_test_pop.py:82-134 | a table with a known level, column set and id columns loads iff every id cell is a string; the index is then each sanitized row's concatenated id, the columns are the own names lower-cased, the rows are the sanitized rows, and the aliases are those naming a column |
| PopLoad.KeyedByAppendedId | load_test_pop.py:118-130 | keying by the appended id column takes it back off and leaves the rows as they were |
| PopLoad.LoadTablesIndexSafe | load_test_pop.py:80-84 | no id of a loaded table holds a '/' |
| PopLoad.LoadTablesAliasesPresent | load_test_pop.py:129-134 | every kept alias is a data column of the keyed table, and none is the id |
| PopLoad.IndexIsWrittenColumn | load_test_pop.py:118-130 | when keying succeeds, the index is the column written under "id" |
| PopLoad.ParsePopFileNameRoundTrip | load_test_pop.py:199-203 | parsing `<fips>_<level>_<year>_<table>.parquet`, in any directory or none, gives back the four fields when they hold none of `_ / .` |
| PopLoad.PopNameFields | load_test_pop.py:200-203 | the split on '_' yields the four fields, the last of which the split on '.' cuts back to the table |
| ColumnAliases.BuildAliasMap | load_test_pop.py:113-116 | the nested loop that writes the dictionary yields exactly the fold `AliasMap` |
| ColumnAliases.AddAliasesSpec | load_test_pop.py:115-116 | writing one column's aliases maps each of them to the column and leaves every other key alone |
| ColumnAliases.AliasMapSpec | load_test_pop.py:113-116 | the keys are exactly the aliases of the set's columns, and each maps to the last column that lists it |
| ColumnAliases.UniqueAliasMapsToItsColumn | load_test_pop.py:113-116 | an alias that no later column lists maps to its column |
| GeoRows.CountyIndex | load_test_geo.py:120-124 | no ensures of its own: the county index of the rows; `GeoRows.CountyIndexSpec` and `GeoRows.CountyIndexGroups` state what it holds |
| GeoRows.PrefixedGeoid | load_test_geo.py:205-208 | no ensures of its own: the level prefix on a raw geoid; `GeoRows.PrefixedGeoidInjective` and `GeoLoad.LoadGeoAuxiliaryLevel` state its effect |
| GeoRows.AiannhGeoid | load_test_geo.py:145-147 | no ensures of its own: the `aiannh` geoid; `GeoRows.AiannhGeoidExample`, `GeoRows.AiannhGeoidStripsAll`, `GeoRows.AiannhGeoidCollision` and `GeoRows.AiannhGeoidQualifiedByState` state what it is |
| Collisions.NamesAgree | load_test_geo.py:175-188 | no ensures of its own: the name check with its allow-list; `Collisions.TwoWayNameMismatch` states its effect |
| Collisions.Merge | load_test_geo.py:167-173 | no ensures of its own: a second part folded into the first; `Collisions.TwoWayCollision` and `Collisions.AbsorbPreserves` state its effect |
| Collisions.CollapseState | load_test_geo.py:152-188 | the state after the walk is consistent: insertion order and keys agree and each entry is stored under its geoid; `Collisions.CollapseStateMatchesBuckets` states its content |
| GeoLoad.KnownLayer | load_test_geo.py:107 | no ensures of its own: the keys of `LAYER_URLS`; `GeoLoad.LoadGeoUnknownLayer` states the failed lookup |
| GeoLoad.MapColumns | load_test_geo.py:213-217 | no ensures of its own: the configured column map; `GeoLoad.MapColumnsSpec` states what it holds |
| GeoLoad.AiannhStage | load_test_geo.py:132-202 | no ensures of its own: the `aiannh` branch; `GeoLoad.AiannhGeoidsUnique`, `GeoLoad.AiannhUnclassifiableFails`, `GeoLoad.AiannhGuardIsShortcut` and `GeoLoad.AiannhStageSafe` state what it yields |
| GeoLoad.Stage | load_test_geo.py:126-209 | no ensures of its own: the level-dependent rewrite; `GeoLoad.LoadGeoBaseLevel`, `GeoLoad.LoadGeoAuxiliaryLevel` and `GeoLoad.StageSafe` state what it yields |
| GeoLoad.StageSafe | load_test_geo.py:126-209 | for '/'-free rows, state code and index, every staged geoid and index entry is '/'-free |
| GeoLoad.ParseGeoFileName | load_test_geo.py:264-268 | no ensures of its own: the file-name parser; `GeoLoad.ParseGeoFileNameRoundTrip` states that it reads back a stored name |
| Text.Find | load_test_geo.py:265-268 | the first position at which the separator occurs, or the length when it does not occur |
| Text.Split | load_test_geo.py:265-268 | at least one piece; `Text.JoinSplit`, `Text.SplitPiecesAvoidSeparator`, `Text.SplitWithoutSeparator` and `Text.SplitAfterField` state what the pieces are |
| Text.SplitWithoutSeparator | load_test_geo.py:265-268 | a string without the separator's characters splits into itself alone |
| PopLoad.LevelId | load_test_pop.py:86-118 | no ensures of its own: the id of one row at a level; `PopLoad.LevelIdExtendsParent` states how ids of levels relate |
| PopLoad.PrefixId | load_test_pop.py:120-127 | no ensures of its own: the prefix rule; `PopLoad.PrefixIdUnused` and `PopLoad.PrefixIdMatchesGeography` state its effect |
| PopLoad.ParsePopFileName | load_test_pop.py:199-203 | no ensures of its own: the file-name parser; `PopLoad.ParsePopFileNameRoundTrip` states that it reads back a stored name |
| ColumnAliases.AddAliases | load_test_pop.py:115-116 | no ensures of its own: the inner loop as a fold; `ColumnAliases.AddAliasesSpec` states what it writes |
| ColumnAliases.AliasMap | load_test_pop.py:113-116 | no ensures of its own: the nested loop as a fold; `ColumnAliases.AliasMapSpec` states what it holds |
| Text.SplitPiecesAvoidSeparator | load_test_geo.py:265-268 | no piece of a split holds the separator anywhere |
| GeoLoad.PlainRecord | load_test_geo.py:211 | no ensures of its own: a row indexed by its geoid with every other column kept; `GeoLoad.LoadGeoBaseLevel` and `GeoLoad.LoadGeoAuxiliaryLevel` state the records it yields |
| GeoLoad.PlainRecords | load_test_geo.py:211 | one plain record per row, in the rows' order |
| GeoLoad.AiannhRecord | load_test_geo.py:193-202 | no ensures of its own: the projection onto name, geoid, geometry, internal point and trust class; `GeoLoad.LoadGeoAiannhLevel` states where it is used |
| GeoLoad.AiannhRecords | load_test_geo.py:193-202 | one projected record per row, in the rows' order |
| GeoLoad.PlainColumns | load_test_geo.py:211-217 | no ensures of its own: the columns left after the geoid becomes the index; `GeoLoad.LoadGeoBaseLevel` and `GeoLoad.LoadGeoAuxiliaryLevel` state the column map over them |
| GeoLoad.AiannhColumns | load_test_geo.py:193-217 | no ensures of its own: the columns of the `aiannh` projection other than the geoid; `GeoLoad.LoadGeoAiannhLevel` and `GeoLoad.AiannhAreasNotMapped` state the column map over them |
| GeoLoad.LoadGeoAiannhLevel | load_test_geo.py:126-217 | the `aiannh` level loads as its stage does on the sanitized deduplicated rows, or fails with the stage's error; the column map is over the projected columns and the county index is prefixed |
| GeoLoad.AiannhAreasNotMapped | load_test_geo.py:193-217 | the summed land and water areas are never in the `aiannh` column map, whatever the configuration |
| Tables.SanitizeCells | load_test_geo.py:82-85 | same number of cells, and each is the sanitized input cell |

## Left out

- Database and client calls are not modelled. These are `GerryDB`, `db.context`, `load_dataframe`, `map_locality`, the transaction context, `crud` and SQLAlchemy. Each pipeline returns the values those calls would receive. One exception: the model's county index is keyed by the county code alone, while the source prefixes the state code to each key just before `map_locality` (load_test_geo.py:240-241).
- The namespace argument, `census.{year}`, is not modelled. It only reaches the database calls.
- Reading parquet, YAML and Jinja configuration is left out. The rendered geography column configuration is a list of (source, target) pairs passed to `GeoLoad.LoadGeo`.
- `AUXILIARY_LEVELS` and `MISSING_DATASETS` of the shared configuration module are parameters, because that module is not part of this model. The population loader's own empty `AUXILIARY_LEVELS` is the constant `PopLoad.PopAuxiliaryLevels`.
- The URL text of `LAYER_URLS` is left out. Only its key set matters to the data, and a missing key is the `UnknownLayer` error.
- Geometry is a set of polygon identifiers: `unary_union` is set union, and nothing else of shapely is modelled.
- Internal points are left out. Parsing `INTPTLAT`/`INTPTLON` as floats and building the `Point` (load_test_geo.py:219-223) is floating point, so the two strings are carried through unchanged.
- The `astype(int)` conversion loop (load_test_pop.py:135-136) is left out. It is numeric coercion on the database-bound frame.
- The environment-variable check (`GERRYDB_BULK_IMPORT`), `exit()`, logging and `print` are I/O.
- The NumPy-version error branch around `applymap` (load_test_geo.py:86-89) is library behaviour.
- `Text.Lower` lower-cases ASCII letters only. Python's `str.lower` also folds other Unicode letters.
- Integer widths are not modelled. Areas and numeric cells are unbounded integers rather than int64.
- A missing value (NaN) is not a cell kind, so an absent county value or id cell cannot be expressed.
- Column assignments, the `rename` and the `set_index` work on frame values here, not in place on a shared frame. Aliasing between frames is therefore not captured.
- `PopLoad.SetIndex` models keying a frame that has two columns named "id" after lower-casing as the `AmbiguousIndexColumn` error. pandas would build a two-column index there.
- `PopLoad.LoadTablesLoaded` assumes that no input column lower-cases to "id" (`NoIdColumn`), as the Census API's columns do not. Its weaker sibling `LoadTablesIndexSafe` holds without that assumption.
- `PopLoad.WellFormed`: an input frame is taken to have distinct column names, as a table read from parquet does.
- pandas' result for `agg("".join, axis=1)` on a table without rows is not modelled. The model gives such a table an empty id column.
- In the `aiannh` branch the county index gets the `aiannh:` prefix on the raw, unstripped geoid, as the code does (load_test_geo.py:206-209). TIGER `aiannh` layers have no county column, so that index is empty in practice.
- The `aiannh` projection (load_test_geo.py:193-202) drops the summed `ALAND`/`AWATER` columns, as the code does. `Collisions.CollapsePreservesAreaAndGeometry` states the sums for the merged rows before the projection.
- uvicorn_runner.py, gerrydb_init.py, make_views.py, make_tx_views.py and load_test_graph.py are not part of this model. They are an HTTP runner, schema setup, database benchmarks and a graph upload.
