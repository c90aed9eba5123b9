/** `load_tables` (load_test_pop.py:52-136) on a table of the Census API as one value-level
    pipeline, and the file-name parsing of its `main` (load_test_pop.py:199-203). The
    database calls that consume the result are not modelled: the pipeline returns what
    they would be given, which is the id index, the table keyed by it and the aliases to
    load. */
module PopLoad {
  import opened Wrappers
  import opened Text
  import opened Tables
  import opened ColumnAliases
  import GeoRows
  import GeoLoad

  // ---------------------------------------------------------------------------
  // Frames
  // ---------------------------------------------------------------------------

  /** A table as pandas holds it: named columns and rows of cells, one per column. */
  datatype Frame = Frame(columns: seq<string>, rows: seq<seq<Cell>>)

  predicate Rectangular(f: Frame)
  {
    forall k :: 0 <= k < |f.rows| ==> |f.rows[k]| == |f.columns|
  }

  /** A table as it is read: rectangular, with distinct column names. */
  predicate WellFormed(f: Frame)
  {
    Rectangular(f) && Distinct(f.columns)
  }

  /** The errors `load_tables` raises before it reaches the database. */
  datatype PopError =
    | FipsRequired(level: string)        // ValueError: the level needs a state code
    | UnknownLevel(level: string)        // ValueError("Unknown level.")
    | UnknownColumnSet(name: string)     // KeyError on db.column_sets
    | MissingIdColumn(name: string)      // KeyError: an id column is absent
    | IdNotAString                       // TypeError in "".join
    | MissingIndexColumn(name: string)   // KeyError in set_index
    | AmbiguousIndexColumn(name: string) // set_index on a name held by two columns

  /** What `load_tables` leaves for the database calls, or the early exit for a dataset
      the Census did not publish. */
  datatype PopOutcome =
    | NothingToDo
    | Loaded(index: seq<Cell>, data: Frame, aliases: map<string, ColumnRef>)

  /** The sanitizer of load_test_pop.py:82-84: the '/' escape on every string cell. */
  function SanitizeFrame(f: Frame): (s: Frame)
    ensures s.columns == f.columns && |s.rows| == |f.rows|
    ensures forall k :: 0 <= k < |f.rows| ==> s.rows[k] == SanitizeCells(f.rows[k])
  {
    Frame(f.columns, seq(|f.rows|, k requires 0 <= k < |f.rows| => SanitizeCells(f.rows[k])))
  }

  /** The position of a column, when the frame has it. */
  function ColumnIndex(columns: seq<string>, name: string): (r: Option<nat>)
    ensures r.Some? <==> name in columns
    ensures r.Some? ==> r.value < |columns| && columns[r.value] == name && name !in columns[..r.value]
  {
    if name in columns then Some(FirstIndex(columns, name)) else None
  }

  // ---------------------------------------------------------------------------
  // The id columns of each level
  // ---------------------------------------------------------------------------

  /** Lines 86-107: the columns whose concatenation identifies a row of the level. */
  function IdColumns(level: string): (r: Option<seq<string>>)
    ensures r.Some? <==> level in GeoLoad.Levels
    ensures r.Some? ==> |r.value| >= 1
  {
    if level == "block" then Some(["state", "county", "tract", "block"])
    else if level == "bg" then Some(["state", "county", "tract", "block group"])
    else if level == "tract" then Some(["state", "county", "tract"])
    else if level == "county" then Some(["state", "county"])
    else if level == "state" then Some(["state"])
    else if level == "vtd" then Some(["state", "county", "voting district"])
    else if level == "place" then Some(["state", "place"])
    else if level == "cousub" then Some(["state", "county", "county subdivision"])
    else if level == "aiannh" then
      Some(["american indian area/alaska native area/hawaiian home land (or part)"])
    else None
  }

  /** The level whose id a level's id extends, and the column it adds. */
  function Parent(level: string): Option<(string, string)>
  {
    if level == "block" then Some(("tract", "block"))
    else if level == "bg" then Some(("tract", "block group"))
    else if level == "tract" then Some(("county", "tract"))
    else if level == "county" then Some(("state", "county"))
    else if level == "vtd" then Some(("county", "voting district"))
    else if level == "place" then Some(("state", "place"))
    else if level == "cousub" then Some(("county", "county subdivision"))
    else None
  }

  /** The levels form a hierarchy: every level but `state` and `aiannh` identifies its rows
      by its parent's columns and one more. */
  lemma ParentIdColumns(level: string)
    requires IdColumns(level).Some? && level != "state" && level != "aiannh"
    ensures Parent(level).Some?
    ensures IdColumns(Parent(level).value.0).Some?
    ensures IdColumns(level).value == IdColumns(Parent(level).value.0).value + [Parent(level).value.1]
  {
  }

  /** The positions of the id columns; a missing one is a KeyError naming it. */
  function IdIndices(columns: seq<string>, idCols: seq<string>): (r: Result<seq<nat>, PopError>)
    ensures r.Ok? <==> forall k :: 0 <= k < |idCols| ==> idCols[k] in columns
    ensures r.Ok? ==> |r.value| == |idCols|
    ensures r.Ok? ==> forall k :: 0 <= k < |idCols| ==> idCols[k] in columns && r.value[k] == FirstIndex(columns, idCols[k])
    ensures r.Err? ==> exists k :: 0 <= k < |idCols| && idCols[k] !in columns && r.error == MissingIdColumn(idCols[k])
  {
    if idCols == [] then Ok([])
    else
      match ColumnIndex(columns, idCols[0])
      case None => Err(MissingIdColumn(idCols[0]))
      case Some(i) =>
        var rest := IdIndices(columns, idCols[1..]);
        assert forall k :: 1 <= k < |idCols| ==> idCols[k] == idCols[1..][k - 1];
        if rest.Err? then Err(rest.error)
        else Ok([i] + rest.value)
  }

  /** `"".join` over the id cells of one row; a cell that is not a string is a TypeError. */
  function RowId(row: seq<Cell>, idx: seq<nat>): (r: Option<string>)
    requires forall k :: 0 <= k < |idx| ==> idx[k] < |row|
    ensures r.Some? <==> forall k :: 0 <= k < |idx| ==> row[idx[k]].Str?
  {
    if idx == [] then Some("")
    else
      var p := RowId(row, idx[..|idx| - 1]);
      var c := row[idx[|idx| - 1]];
      if p.Some? && c.Str? then Some(p.value + c.s) else None
  }

  /** The id of a row is the concatenation of the ids over any split of its columns. */
  lemma {:induction false} RowIdConcat(row: seq<Cell>, a: seq<nat>, b: seq<nat>)
    requires forall k :: 0 <= k < |a| ==> a[k] < |row|
    requires forall k :: 0 <= k < |b| ==> b[k] < |row|
    ensures forall k :: 0 <= k < |a + b| ==> (a + b)[k] < |row|
    ensures RowId(row, a + b).Some? ==>
      && RowId(row, a).Some? && RowId(row, b).Some?
      && RowId(row, a + b).value == RowId(row, a).value + RowId(row, b).value
  {
    if b == [] {
      assert a + b == a;
    } else {
      var init := b[..|b| - 1];
      assert (a + b)[..|a + b| - 1] == a + init;
      RowIdConcat(row, a, init);
      if RowId(row, a + b).Some? {
        assert RowId(row, b).Some?;
        assert RowId(row, init).Some?;
      }
    }
  }

  /** The id column of the whole table, row by row. */
  function TableIds(rows: seq<seq<Cell>>, idx: seq<nat>): (r: Result<seq<string>, PopError>)
    requires forall j, k :: 0 <= j < |rows| && 0 <= k < |idx| ==> idx[k] < |rows[j]|
    ensures r.Ok? <==> forall j :: 0 <= j < |rows| ==> RowId(rows[j], idx).Some?
    ensures r.Ok? ==> |r.value| == |rows| && forall j :: 0 <= j < |rows| ==> RowId(rows[j], idx) == Some(r.value[j])
    ensures r.Err? ==> r.error == IdNotAString
  {
    if forall j :: 0 <= j < |rows| ==> RowId(rows[j], idx).Some? then
      Ok(seq(|rows|, j requires 0 <= j < |rows| => RowId(rows[j], idx).value))
    else Err(IdNotAString)
  }

  /** The id the loader computes for one row of a level, before any prefix. */
  function LevelId(columns: seq<string>, row: seq<Cell>, level: string): Option<string>
    requires |row| == |columns|
  {
    match IdColumns(level)
    case None => None
    case Some(idCols) =>
      match IdIndices(columns, idCols)
      case Err(_) => None
      case Ok(idx) => RowId(row, idx)
  }

  /** The id of a row extends the id of the same row at the parent level by the one column
      the level adds: a block id begins with its tract id, which begins with its county id,
      which begins with its state code. */
  lemma LevelIdExtendsParent(columns: seq<string>, row: seq<Cell>, level: string)
    requires |row| == |columns|
    requires LevelId(columns, row, level).Some? && Parent(level).Some?
    ensures var (parent, extra) := Parent(level).value;
      && LevelId(columns, row, parent).Some?
      && extra in columns && row[FirstIndex(columns, extra)].Str?
      && LevelId(columns, row, level).value
         == LevelId(columns, row, parent).value + row[FirstIndex(columns, extra)].s
  {
    ParentIdColumns(level);
    ExtendedId(columns, row, IdColumns(Parent(level).value.0).value, Parent(level).value.1);
  }

  /** Adding one id column appends that column's cell to the id. */
  lemma ExtendedId(columns: seq<string>, row: seq<Cell>, pcols: seq<string>, extra: string)
    requires |row| == |columns|
    requires IdIndices(columns, pcols + [extra]).Ok?
    requires RowId(row, IdIndices(columns, pcols + [extra]).value).Some?
    ensures IdIndices(columns, pcols).Ok? && extra in columns
    ensures RowId(row, IdIndices(columns, pcols).value).Some? && row[FirstIndex(columns, extra)].Str?
    ensures RowId(row, IdIndices(columns, pcols + [extra]).value).value
      == RowId(row, IdIndices(columns, pcols).value).value + row[FirstIndex(columns, extra)].s
  {
    var cols := pcols + [extra];
    var idx := IdIndices(columns, cols).value;
    assert cols[|pcols|] == extra;
    assert forall k :: 0 <= k < |pcols| ==> pcols[k] == cols[k];
    var pidx := IdIndices(columns, pcols).value;
    assert idx == pidx + [FirstIndex(columns, extra)];
    RowIdConcat(row, pidx, [FirstIndex(columns, extra)]);
  }

  // ---------------------------------------------------------------------------
  // The id column, the prefix, the renaming and the index
  // ---------------------------------------------------------------------------

  /** `AUXILIARY_LEVELS` as this loader defines it for itself (lines 43-48): every
      entry is commented out, so the prefix rule never applies. */
  const PopAuxiliaryLevels: set<string> := {}

  /** Lines 120-127: an auxiliary level gets the level prefix, and `aiannh` also the state
      code that disambiguates areas crossing state lines. */
  function PrefixId(level: string, fips: string, id: string, auxiliary: set<string>): string
  {
    if level !in auxiliary then id
    else if level == "aiannh" then level + ":" + id + ":fips" + fips
    else level + ":" + id
  }

  /** With this loader's empty set of auxiliary levels the ids are left alone. */
  lemma PrefixIdUnused(level: string, fips: string, id: string)
    ensures PrefixId(level, fips, id, PopAuxiliaryLevels) == id
  {
  }

  /** Were a level auxiliary, its table ids would be the ids its geography loader gives:
      the level prefix, and for `aiannh` the geography's id with its trust/reservation
      letter stripped and the state code added. */
  lemma PrefixIdMatchesGeography(level: string, fips: string, id: string, suffix: string, auxiliary: set<string>)
    requires level in auxiliary
    requires |id| == 0 || id[|id| - 1] !in GeoRows.TrustReservationSuffix
    requires forall k :: 0 <= k < |suffix| ==> suffix[k] in GeoRows.TrustReservationSuffix
    ensures level != "aiannh" ==> PrefixId(level, fips, id, auxiliary) == GeoRows.PrefixedGeoid(level, id)
    ensures level == "aiannh" ==> PrefixId(level, fips, id, auxiliary) == GeoRows.AiannhGeoid(id + suffix, fips)
  {
    RStripSuffix(id, suffix, GeoRows.TrustReservationSuffix);
  }

  /** Assigning a column (load_test_pop.py:118): an existing column is overwritten in place, otherwise a
      new column is added at the end. */
  function SetColumn(f: Frame, name: string, values: seq<Cell>): (r: Frame)
    requires Rectangular(f) && |values| == |f.rows|
    ensures Rectangular(r) && |r.rows| == |f.rows|
    ensures name in f.columns ==> r.columns == f.columns
    ensures name !in f.columns ==> r.columns == f.columns + [name]
    ensures forall k :: 0 <= k < |f.rows| ==> r.rows[k][ColumnIndex(r.columns, name).value] == values[k]
    ensures name in f.columns ==> forall k :: 0 <= k < |f.rows| ==>
      r.rows[k] == f.rows[k][ColumnIndex(f.columns, name).value := values[k]]
    ensures name !in f.columns ==> forall k :: 0 <= k < |f.rows| ==> r.rows[k] == f.rows[k] + [values[k]]
  {
    match ColumnIndex(f.columns, name)
    case Some(c) =>
      Frame(f.columns, seq(|f.rows|, k requires 0 <= k < |f.rows| => f.rows[k][c := values[k]]))
    case None =>
      assert ColumnIndex(f.columns + [name], name) == Some(|f.columns|) by {
        assert (f.columns + [name])[..|f.columns|] == f.columns;
      }
      Frame(f.columns + [name], seq(|f.rows|, k requires 0 <= k < |f.rows| => f.rows[k] + [values[k]]))
  }

  /** Line 129: every column name lower-cased. */
  function LowerColumns(f: Frame): (r: Frame)
    ensures r.rows == f.rows && |r.columns| == |f.columns|
    ensures forall c :: 0 <= c < |f.columns| ==> r.columns[c] == Lower(f.columns[c])
  {
    Frame(seq(|f.columns|, c requires 0 <= c < |f.columns| => Lower(f.columns[c])), f.rows)
  }

  /** `s` without its element at `c`. */
  function Without<T>(s: seq<T>, c: nat): (r: seq<T>)
    requires c < |s|
    ensures |r| == |s| - 1
    ensures forall k :: 0 <= k < c ==> r[k] == s[k]
    ensures forall k :: c <= k < |r| ==> r[k] == s[k + 1]
  {
    s[..c] + s[c + 1..]
  }

  /** `set_index(key)`: the column becomes the index and leaves the columns. */
  function SetIndex(f: Frame, key: string): (r: Result<(seq<Cell>, Frame), PopError>)
    requires Rectangular(f)
    ensures r.Ok? <==> key in f.columns && key !in f.columns[FirstIndex(f.columns, key) + 1..]
    ensures r.Err? && key !in f.columns ==> r.error == MissingIndexColumn(key)
    ensures r.Ok? ==>
      var c := FirstIndex(f.columns, key);
      var (index, data) := r.value;
      && Rectangular(data) && key !in data.columns
      && data.columns == Without(f.columns, c)
      && |index| == |f.rows| == |data.rows|
      && forall k :: 0 <= k < |f.rows| ==> index[k] == f.rows[k][c] && data.rows[k] == Without(f.rows[k], c)
  {
    if key !in f.columns then Err(MissingIndexColumn(key))
    else
      var c := FirstIndex(f.columns, key);
      if key in f.columns[c + 1..] then Err(AmbiguousIndexColumn(key))
      else
        var data := Frame(Without(f.columns, c),
                          seq(|f.rows|, k requires 0 <= k < |f.rows| => Without(f.rows[k], c)));
        assert key !in data.columns by {
          assert data.columns == f.columns[..c] + f.columns[c + 1..];
        }
        Ok((seq(|f.rows|, k requires 0 <= k < |f.rows| => f.rows[k][c]), data))
  }

  /** Lines 132-134: the aliases whose name is a column of the keyed table. */
  function FilterAliases(aliases: map<string, ColumnRef>, columns: seq<string>): (r: map<string, ColumnRef>)
    ensures forall a :: a in r ==> a in aliases && a in columns && r[a] == aliases[a]
    ensures forall a :: a in aliases && a in columns ==> a in r
  {
    map a | a in aliases && a in columns :: aliases[a]
  }

  // ---------------------------------------------------------------------------
  // The pipeline
  // ---------------------------------------------------------------------------

  /** `load_tables` up to the database calls: exit for a missing dataset, demand a state
      code, sanitize, look the id columns of the level up, build the alias table of the
      column set, compute the id column, prefix it for auxiliary levels, lower-case the
      column names, key the table by id and keep the aliases the table has. The column
      sets of the database and the missing datasets are parameters. */
  function LoadTables(year: string, table: string, level: string, fips: Option<string>, frame: Frame,
                      columnSets: map<string, seq<ColumnRef>>, missing: set<MissingDataset>): (res: Result<PopOutcome, PopError>)
    requires WellFormed(frame)
    ensures res == Ok(NothingToDo) <==> MissingDataset(fips, level, year) in missing
    ensures MissingDataset(fips, level, year) !in missing && fips.None? ==> res == Err(FipsRequired(level))
    ensures MissingDataset(fips, level, year) !in missing && fips.Some? && IdColumns(level).None? ==>
      res == Err(UnknownLevel(level))
    ensures (MissingDataset(fips, level, year) !in missing && fips.Some? && IdColumns(level).Some?
             && Lower(table) !in columnSets) ==> res == Err(UnknownColumnSet(Lower(table)))
    ensures (MissingDataset(fips, level, year) !in missing && fips.Some? && IdColumns(level).Some?
             && Lower(table) in columnSets && IdIndices(frame.columns, IdColumns(level).value).Err?) ==>
            res == Err(IdIndices(frame.columns, IdColumns(level).value).error)
  {
    if MissingDataset(fips, level, year) in missing then Ok(NothingToDo)
    else if fips.None? then Err(FipsRequired(level))
    else
      var clean := SanitizeFrame(frame);
      match IdColumns(level)
      case None => Err(UnknownLevel(level))
      case Some(idCols) =>
        var setName := Lower(table);
        if setName !in columnSets then Err(UnknownColumnSet(setName))
        else
          var aliases := AliasMap(columnSets[setName]);
          var idx :- IdIndices(clean.columns, idCols);
          var ids :- TableIds(clean.rows, idx);
          var prefixed := seq(|ids|, k requires 0 <= k < |ids| => Str(PrefixId(level, fips.value, ids[k], PopAuxiliaryLevels)));
          var keyed :- SetIndex(LowerColumns(SetColumn(clean, "id", prefixed)), "id");
          Ok(Loaded(keyed.0, keyed.1, FilterAliases(aliases, keyed.1.columns)))
  }

  // ---------------------------------------------------------------------------
  // What the pipeline yields
  // ---------------------------------------------------------------------------

  /** The column names of a table whose names do not turn into "id" when lower-cased, as
      the Census API's do not. */
  predicate NoIdColumn(f: Frame)
  {
    forall c :: 0 <= c < |f.columns| ==> Lower(f.columns[c]) != "id"
  }

  function LowerAll(columns: seq<string>): (r: seq<string>)
    ensures |r| == |columns| && forall c :: 0 <= c < |columns| ==> r[c] == Lower(columns[c])
  {
    seq(|columns|, c requires 0 <= c < |columns| => Lower(columns[c]))
  }

  /** A table whose level, column set, id columns and id cells are all in order loads: its
      index holds the concatenated id of every sanitized row in row order, its columns are
      its own names lower-cased, its rows are the sanitized rows, and the aliases are those
      of the column set that name one of its columns. */
  lemma LoadTablesLoaded(year: string, table: string, level: string, fips: string, frame: Frame,
                         columnSets: map<string, seq<ColumnRef>>, missing: set<MissingDataset>)
    requires WellFormed(frame) && NoIdColumn(frame)
    requires MissingDataset(Some(fips), level, year) !in missing
    requires IdColumns(level).Some? && Lower(table) in columnSets
    requires forall k :: 0 <= k < |IdColumns(level).value| ==> IdColumns(level).value[k] in frame.columns
    ensures
      var clean := SanitizeFrame(frame);
      var idx := IdIndices(frame.columns, IdColumns(level).value).value;
      var res := LoadTables(year, table, level, Some(fips), frame, columnSets, missing);
      && (res.Ok? <==> forall j :: 0 <= j < |frame.rows| ==> RowId(clean.rows[j], idx).Some?)
      && (res.Err? ==> res.error == IdNotAString)
      && (res.Ok? ==>
        && res.value.Loaded?
        && |res.value.index| == |frame.rows|
        && (forall j :: 0 <= j < |frame.rows| ==> res.value.index[j] == Str(RowId(clean.rows[j], idx).value))
        && res.value.data == Frame(LowerAll(frame.columns), clean.rows)
        && res.value.aliases == FilterAliases(AliasMap(columnSets[Lower(table)]), LowerAll(frame.columns)))
  {
    var clean := SanitizeFrame(frame);
    var idx := IdIndices(frame.columns, IdColumns(level).value).value;
    var ids := TableIds(clean.rows, idx);
    if ids.Ok? {
      var prefixed := seq(|ids.value|, k requires 0 <= k < |ids.value| =>
        Str(PrefixId(level, fips, ids.value[k], PopAuxiliaryLevels)));
      var withId := SetColumn(clean, "id", prefixed);
      var lowered := LowerColumns(withId);
      KeyedByAppendedId(clean, prefixed, withId, lowered);
    }
  }

  /** Keying by the appended id column takes that column back off, leaving the rows as
      they were. */
  lemma KeyedByAppendedId(clean: Frame, values: seq<Cell>, withId: Frame, lowered: Frame)
    requires Rectangular(clean) && NoIdColumn(clean) && |values| == |clean.rows|
    requires withId == SetColumn(clean, "id", values) && lowered == LowerColumns(withId)
    ensures SetIndex(lowered, "id") == Ok((values, Frame(LowerAll(clean.columns), clean.rows)))
  {
    var names := LowerAll(clean.columns);
    NoIdColumnAbsent(clean);
    LowerOfId();
    assert lowered.columns == names + ["id"];
    KeyedByLastColumn(lowered, names, "id");
    var n := |names|;
    assert (seq(|lowered.rows|, k requires 0 <= k < |lowered.rows| => lowered.rows[k][n])) == values;
    assert (seq(|lowered.rows|, k requires 0 <= k < |lowered.rows| => lowered.rows[k][..n])) == clean.rows by {
      forall k | 0 <= k < |clean.rows| ensures lowered.rows[k][..n] == clean.rows[k] {
        assert lowered.rows[k] == clean.rows[k] + [values[k]];
      }
    }
  }

  /** Keying by a last column that holds the key alone splits each row into its cells
      before it and its last cell. */
  lemma KeyedByLastColumn(f: Frame, names: seq<string>, key: string)
    requires Rectangular(f) && f.columns == names + [key] && key !in names
    ensures SetIndex(f, key) == Ok((seq(|f.rows|, k requires 0 <= k < |f.rows| => f.rows[k][|names|]),
                                    Frame(names, seq(|f.rows|, k requires 0 <= k < |f.rows| => f.rows[k][..|names|]))))
  {
    var n := |names|;
    FirstIndexOfNew(names, key);
    assert f.columns[n + 1..] == [];
    var r := SetIndex(f, key).value;
    WithoutLast(names, key);
    forall k | 0 <= k < |f.rows| ensures r.1.rows[k] == f.rows[k][..n] {
      assert f.rows[k] == f.rows[k][..n] + [f.rows[k][n]];
      WithoutLast(f.rows[k][..n], f.rows[k][n]);
    }
    assert FirstIndex(f.columns, key) == n;
    assert r.1.columns == names;
    assert r.0 == seq(|f.rows|, k requires 0 <= k < |f.rows| => f.rows[k][n]);
    assert r.1.rows == seq(|f.rows|, k requires 0 <= k < |f.rows| => f.rows[k][..n]);
  }

  /** No name of such a table is "id", and none lower-cases to it. */
  lemma NoIdColumnAbsent(f: Frame)
    requires NoIdColumn(f)
    ensures "id" !in f.columns && "id" !in LowerAll(f.columns)
  {
    LowerOfId();
  }

  lemma WithoutLast<T>(s: seq<T>, x: T)
    ensures Without(s + [x], |s|) == s
  {
    assert (s + [x])[..|s|] == s;
  }

  lemma LowerOfId()
    ensures Lower("id") == "id"
  {
    assert Lower("id")[0] == 'i' && Lower("id")[1] == 'd';
  }

  /** The sanitizer's purpose: no id of a loaded table can break a `namespace/geoid` path,
      since every id is a concatenation of sanitized strings. */
  lemma LoadTablesIndexSafe(year: string, table: string, level: string, fips: Option<string>, frame: Frame,
                            columnSets: map<string, seq<ColumnRef>>, missing: set<MissingDataset>)
    requires WellFormed(frame)
    requires LoadTables(year, table, level, fips, frame, columnSets, missing).Ok?
    ensures var out := LoadTables(year, table, level, fips, frame, columnSets, missing).value;
      out.Loaded? ==> forall j :: 0 <= j < |out.index| ==> SlashFree(out.index[j])
  {
    var out := LoadTables(year, table, level, fips, frame, columnSets, missing).value;
    if out.Loaded? {
      var clean := SanitizeFrame(frame);
      var idx := IdIndices(clean.columns, IdColumns(level).value).value;
      var ids := TableIds(clean.rows, idx).value;
      forall j | 0 <= j < |ids| ensures '/' !in ids[j] {
        RowIdSlashFree(clean.rows[j], idx);
      }
      var prefixed := seq(|ids|, k requires 0 <= k < |ids| => Str(PrefixId(level, fips.value, ids[k], PopAuxiliaryLevels)));
      var withId := SetColumn(clean, "id", prefixed);
      IndexIsWrittenColumn(withId, prefixed);
      forall j | 0 <= j < |out.index| ensures SlashFree(out.index[j]) {
        assert out.index[j] == prefixed[j];
      }
    }
  }

  /** Every alias kept for loading is a data column of the keyed table, never the id. */
  lemma LoadTablesAliasesPresent(year: string, table: string, level: string, fips: Option<string>, frame: Frame,
                                 columnSets: map<string, seq<ColumnRef>>, missing: set<MissingDataset>)
    requires WellFormed(frame)
    requires LoadTables(year, table, level, fips, frame, columnSets, missing).Ok?
    ensures var out := LoadTables(year, table, level, fips, frame, columnSets, missing).value;
      out.Loaded? ==>
        && (forall a :: a in out.aliases ==> a in out.data.columns && a != "id")
        && "id" !in out.data.columns
  {
  }

  /** When keying succeeds, the index is the column written under "id": its name is the
      only one that lower-cases to "id". */
  lemma IndexIsWrittenColumn(withId: Frame, values: seq<Cell>)
    requires Rectangular(withId) && |values| == |withId.rows| && "id" in withId.columns
    requires forall k :: 0 <= k < |withId.rows| ==> withId.rows[k][ColumnIndex(withId.columns, "id").value] == values[k]
    requires SetIndex(LowerColumns(withId), "id").Ok?
    ensures SetIndex(LowerColumns(withId), "id").value.0 == values
  {
    var lowered := LowerColumns(withId);
    var p := ColumnIndex(withId.columns, "id").value;
    var c := FirstIndex(lowered.columns, "id");
    LowerOfId();
    assert lowered.columns[p] == "id";
  }

  lemma {:induction false} RowIdSlashFree(row: seq<Cell>, idx: seq<nat>)
    requires forall k :: 0 <= k < |idx| ==> idx[k] < |row|
    requires forall k :: 0 <= k < |row| ==> SlashFree(row[k])
    requires RowId(row, idx).Some?
    ensures '/' !in RowId(row, idx).value
  {
    if idx != [] {
      var init := idx[..|idx| - 1];
      RowIdSlashFree(row, init);
      var c := row[idx[|idx| - 1]];
      assert SlashFree(c);
      GeoLoad.ConcatSlashFree(RowId(row, init).value, c.s);
    }
  }

  // ---------------------------------------------------------------------------
  // The file name of a stored table
  // ---------------------------------------------------------------------------

  /** The fields of `<fips>_<level>_<year>_<table>.parquet`. */
  datatype PopFileName = PopFileName(fips: string, level: string, year: string, table: string)

  /** Lines 199-203: basename, fields 0 to 3 of the split on '_', the last cut at '.'; a
      missing field is an IndexError. */
  function ParsePopFileName(path: string): Option<PopFileName>
  {
    var fields := Split(Basename(path), "_");
    if |fields| < 4 then None
    else Some(PopFileName(fields[0], fields[1], fields[2], Split(fields[3], ".")[0]))
  }

  /** The stored name, written as the splits take it apart. */
  function FormatPopFileName(f: PopFileName): string
  {
    f.fips + "_" + (f.level + "_" + (f.year + "_" + (f.table + "." + "parquet")))
  }

  predicate PlainFields(f: PopFileName)
  {
    Avoids(f.fips, "_/.") && Avoids(f.level, "_/.") && Avoids(f.year, "_/.") && Avoids(f.table, "_/.")
  }

  /** Parsing the stored name of a table, in any directory, gives back its fields. */
  lemma ParsePopFileNameRoundTrip(dir: string, f: PopFileName)
    requires PlainFields(f)
    ensures ParsePopFileName(dir + "/" + FormatPopFileName(f)) == Some(f)
    ensures ParsePopFileName(FormatPopFileName(f)) == Some(f)
  {
    PopNameSlashFree(f);
    BasenameAfterDirectory(dir, FormatPopFileName(f));
    PopNameFields(f);
  }

  lemma PopNameFields(f: PopFileName)
    requires PlainFields(f)
    ensures Split(FormatPopFileName(f), "_")
      == [f.fips] + ([f.level] + ([f.year] + [f.table + "." + "parquet"]))
    ensures Split(f.table + "." + "parquet", ".")[0] == f.table
  {
    var last := f.table + "." + "parquet";
    AvoidsWeaken(f.fips, "_/.", "_");
    AvoidsWeaken(f.level, "_/.", "_");
    AvoidsWeaken(f.year, "_/.", "_");
    SplitAfterField(f.fips, "_", f.level + "_" + (f.year + "_" + last));
    SplitAfterField(f.level, "_", f.year + "_" + last);
    SplitAfterField(f.year, "_", last);
    LastPopField(f.table);
  }

  lemma LastPopField(table: string)
    requires Avoids(table, "_/.")
    ensures Split(table + "." + "parquet", "_") == [table + "." + "parquet"]
    ensures Split(table + "." + "parquet", ".")[0] == table
  {
    AvoidsWeaken(table, "_/.", "_");
    AvoidsWeaken(table, "_/.", ".");
    AvoidsConcat(table, ".", "_");
    AvoidsConcat(table + ".", "parquet", "_");
    SplitWithoutSeparator(table + "." + "parquet", "_");
    SplitAfterField(table, ".", "parquet");
  }

  lemma PopNameSlashFree(f: PopFileName)
    requires PlainFields(f)
    ensures '/' !in FormatPopFileName(f)
  {
    AvoidsWeaken(f.fips, "_/.", "/");
    AvoidsWeaken(f.level, "_/.", "/");
    AvoidsWeaken(f.year, "_/.", "/");
    AvoidsWeaken(f.table, "_/.", "/");
    var last := f.table + "." + "parquet";
    AvoidsConcat(f.table, ".", "/");
    AvoidsConcat(f.table + ".", "parquet", "/");
    AvoidsConcat(f.year, "_", "/");
    AvoidsConcat(f.year + "_", last, "/");
    AvoidsConcat(f.level, "_", "/");
    AvoidsConcat(f.level + "_", f.year + "_" + last, "/");
    AvoidsConcat(f.fips, "_", "/");
    AvoidsConcat(f.fips + "_", f.level + "_" + (f.year + "_" + last), "/");
  }
}
