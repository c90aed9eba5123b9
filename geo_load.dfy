/** `load_geo` (load_test_geo.py:63-223) as one value-level pipeline over a layer, and the
    file-name parsing of its `main` (load_test_geo.py:264-268). The database calls that
    consume the result are not modelled: the pipeline returns what they would be given,
    which is the records to load, the column map and the county index. */
module GeoLoad {
  import opened Wrappers
  import opened Text
  import opened Tables
  import opened GeoRows
  import opened Collisions

  // ---------------------------------------------------------------------------
  // Layers, columns and results
  // ---------------------------------------------------------------------------

  const Levels: set<string> :=
    {"block", "bg", "tract", "county", "state", "vtd", "place", "cousub", "aiannh"}

  const Years: set<string> := {"2010", "2020"}

  /** The keys `<level>/<year>` of `LAYER_URLS`: nine levels in two vintages. */
  predicate KnownLayer(level: string, year: string)
  {
    level in Levels && year in Years
  }

  /** The year without its first two digits, the suffix of the year-specific column names
      (load_test_geo.py:108-109). */
  function YearSuffix(year: string): (yr: string)
    ensures |year| >= 2 ==> year[..2] + yr == year
    ensures |year| < 2 ==> yr == ""
  {
    if |year| >= 2 then year[2..] else ""
  }

  /** The columns a loaded record carries besides identifier, name, geometry and internal
      point: the full attribute set for an ordinary layer, only the class for `aiannh`. */
  datatype Rest =
    | Attributes(county: Option<string>, aland: int, awater: int, attrs: seq<Cell>)
    | Classified(cls: Class)

  /** One row of the frame handed to `load_dataframe`, keyed by its geoid. */
  datatype GeoRecord = GeoRecord(
    geoid: string,
    name: string,
    geometry: Geometry,
    intptLat: string,
    intptLon: string,
    rest: Rest)

  /** A row of an ordinary layer keeps all of its columns. */
  function PlainRecord(r: GeoRow): GeoRecord
  {
    GeoRecord(r.geoid, r.name, r.geometry, r.intptLat, r.intptLon,
              Attributes(r.county, r.aland, r.awater, r.attrs))
  }

  /** The projection of lines 193-202: name, id, geometry, internal point and class. */
  function AiannhRecord(c: ClassedRow): GeoRecord
  {
    GeoRecord(c.row.geoid, c.row.name, c.row.geometry, c.row.intptLat, c.row.intptLon,
              Classified(c.cls))
  }

  function PlainRecords(rows: seq<GeoRow>): (rs: seq<GeoRecord>)
    ensures |rs| == |rows|
    ensures forall i :: 0 <= i < |rows| ==> rs[i] == PlainRecord(rows[i])
  {
    seq(|rows|, i requires 0 <= i < |rows| => PlainRecord(rows[i]))
  }

  function AiannhRecords(rows: seq<ClassedRow>): (rs: seq<GeoRecord>)
    ensures |rs| == |rows|
    ensures forall i :: 0 <= i < |rows| ==> rs[i] == AiannhRecord(rows[i])
  {
    seq(|rows|, i requires 0 <= i < |rows| => AiannhRecord(rows[i]))
  }

  /** The columns of an ordinary layer once GEOID has become the index. */
  function PlainColumns(layer: GeoLayer, yr: string): set<string>
  {
    {"NAME" + yr, "ALAND" + yr, "AWATER" + yr, "INTPTLAT" + yr, "INTPTLON" + yr, "geometry"}
    + (if layer.hasCounty then {"COUNTYFP" + yr} else {})
    + (set i | 0 <= i < |layer.attrNames| :: layer.attrNames[i])
  }

  /** The columns of the projected `aiannh` frame once GEOID has become the index. */
  function AiannhColumns(yr: string): set<string>
  {
    {"NAME" + yr, "geometry", "INTPTLAT" + yr, "INTPTLON" + yr, "res_trust_class"}
  }

  /** One entry of the rendered column configuration. */
  datatype ColumnPair = ColumnPair(source: string, target: string)

  /** The comprehension of lines 213-217 (a dict comprehension over the configured
      columns, in order). */
  function MapColumns(config: seq<ColumnPair>, present: set<string>): map<string, string>
  {
    if config == [] then map[]
    else
      var p := MapColumns(config[..|config| - 1], present);
      var c := config[|config| - 1];
      if c.source in present then p[c.source := c.target] else p
  }

  /** Source `s` is configured at position `i` and nowhere after it. */
  predicate LastConfigured(config: seq<ColumnPair>, s: string, i: int)
  {
    0 <= i < |config| && config[i].source == s && forall j :: i < j < |config| ==> config[j].source != s
  }

  /** Every configured source column present in the frame is mapped, nothing else is, and
      a source configured twice maps to its last target. */
  lemma {:induction false} MapColumnsSpec(config: seq<ColumnPair>, present: set<string>, s: string)
    ensures s in MapColumns(config, present) <==>
      s in present && exists i :: 0 <= i < |config| && config[i].source == s
    ensures s in MapColumns(config, present) ==>
      exists i :: LastConfigured(config, s, i) && MapColumns(config, present)[s] == config[i].target
  {
    if config != [] {
      var n := |config| - 1;
      var init := config[..n];
      MapColumnsSpec(init, present, s);
      assert forall i :: 0 <= i < n ==> init[i] == config[i];
      if config[n].source != s || config[n].source !in present {
        if s in MapColumns(config, present) {
          var i :| LastConfigured(init, s, i) && MapColumns(init, present)[s] == init[i].target;
          assert LastConfigured(config, s, i);
        }
        if s in present && exists i :: 0 <= i < |config| && config[i].source == s {
          var i :| 0 <= i < |config| && config[i].source == s;
          if i < n {
            assert init[i].source == s;
          }
        }
      } else {
        assert LastConfigured(config, s, n);
      }
    }
  }

  /** What `load_geo` leaves for the database calls, or the early exit for a dataset the
      Census did not publish. */
  datatype GeoOutcome =
    | NothingToDo
    | Loaded(records: seq<GeoRecord>, columns: map<string, string>, countyIndex: map<string, seq<string>>)

  // ---------------------------------------------------------------------------
  // The pipeline
  // ---------------------------------------------------------------------------

  /** Every row's geoid given the level prefix (load_test_geo.py:205). */
  function PrefixRows(level: string, rows: seq<GeoRow>): (rs: seq<GeoRow>)
    ensures |rs| == |rows|
    ensures forall i :: 0 <= i < |rows| ==> rs[i] == rows[i].(geoid := PrefixedGeoid(level, rows[i].geoid))
  {
    seq(|rows|, i requires 0 <= i < |rows| => rows[i].(geoid := PrefixedGeoid(level, rows[i].geoid)))
  }

  /** The `aiannh` branch (lines 132-202): classify, rewrite the ids, merge collisions
      only when the rewritten ids repeat, and project. */
  function AiannhStage(fips: string, rows: seq<GeoRow>): Result<seq<GeoRecord>, GeoError>
  {
    var classed :- ClassifyRows(rows, fips);
    var merged :- if Distinct(Ids(classed)) then Ok(classed) else Collapse(classed);
    Ok(AiannhRecords(merged))
  }

  /** Lines 126-209: the records and county index of a deduplicated layer. */
  function Stage(fips: string, level: string, rows: seq<GeoRow>, index: map<string, seq<string>>,
                 auxiliary: set<string>): Result<(seq<GeoRecord>, map<string, seq<string>>), GeoError>
  {
    if level !in auxiliary then Ok((PlainRecords(rows), index))
    else if level == "aiannh" then
      var records :- AiannhStage(fips, rows);
      Ok((records, Reprefix(level, index)))
    else Ok((PlainRecords(PrefixRows(level, rows)), Reprefix(level, index)))
  }

  /** `load_geo` on a layer: sanitize, exit for a missing dataset, look the layer up,
      drop duplicate rows, index the rows by county, rewrite the ids and map the columns.
      The auxiliary levels and the missing datasets are parameters. */
  function LoadGeo(fips: string, level: string, year: string, layer: GeoLayer,
                   config: seq<ColumnPair>, auxiliary: set<string>,
                   missing: set<MissingDataset>): (res: Result<GeoOutcome, GeoError>)
    requires WellFormed(layer)
    ensures res == Ok(NothingToDo) <==> MissingDataset(Some(fips), level, year) in missing
  {
    var clean := Sanitize(layer);
    if MissingDataset(Some(fips), level, year) in missing then Ok(NothingToDo)
    else if !KnownLayer(level, year) then Err(UnknownLayer(level, year))
    else
      var yr := YearSuffix(year);
      var rows := DropDuplicates(clean.rows);
      var index := if clean.hasCounty then CountyIndex(rows) else map[];
      var staged :- Stage(fips, level, rows, index, auxiliary);
      var present := if level in auxiliary && level == "aiannh" then AiannhColumns(yr) else PlainColumns(clean, yr);
      Ok(Loaded(staged.0, MapColumns(config, present), staged.1))
  }

  // ---------------------------------------------------------------------------
  // What the pipeline yields
  // ---------------------------------------------------------------------------

  /** A layer not among the keys of `LAYER_URLS` fails the lookup, before any row work.
      This and the three lemmas below unfold `LoadGeo` and so state its order of stages. */
  lemma LoadGeoUnknownLayer(fips: string, level: string, year: string, layer: GeoLayer,
                            config: seq<ColumnPair>, auxiliary: set<string>, missing: set<MissingDataset>)
    requires WellFormed(layer)
    requires MissingDataset(Some(fips), level, year) !in missing && !KnownLayer(level, year)
    ensures LoadGeo(fips, level, year, layer, config, auxiliary, missing) == Err(UnknownLayer(level, year))
  {
  }

  /** A base level loads every distinct sanitized row once, in order of first occurrence,
      with all its columns, and the county index of those rows (an unfolding of `LoadGeo`). */
  lemma LoadGeoBaseLevel(fips: string, level: string, year: string, layer: GeoLayer,
                         config: seq<ColumnPair>, auxiliary: set<string>, missing: set<MissingDataset>)
    requires WellFormed(layer)
    requires MissingDataset(Some(fips), level, year) !in missing && KnownLayer(level, year)
    requires level !in auxiliary
    ensures
      var res := LoadGeo(fips, level, year, layer, config, auxiliary, missing);
      var rows := DropDuplicates(Sanitize(layer).rows);
      && res.Ok? && res.value.Loaded?
      && res.value.records == PlainRecords(rows)
      && res.value.countyIndex == (if layer.hasCounty then CountyIndex(rows) else map[])
      && res.value.columns == MapColumns(config, PlainColumns(layer, YearSuffix(year)))
  {
  }

  /** Every loaded record and every index entry is free of '/', and so is every key. */
  predicate PathSafe(out: GeoOutcome)
  {
    out.Loaded? ==>
      && (forall i :: 0 <= i < |out.records| ==> '/' !in out.records[i].geoid)
      && IndexSafe(out.countyIndex)
  }

  lemma SanitizedRowsSafe(layer: GeoLayer)
    requires WellFormed(layer)
    ensures forall r :: r in DropDuplicates(Sanitize(layer).rows) ==> RowSlashFree(r)
  {
  }

  lemma CountyIndexSafe(rows: seq<GeoRow>)
    requires forall r :: r in rows ==> RowSlashFree(r)
    ensures forall c :: c in CountyIndex(rows) ==> '/' !in c
    ensures forall c, k :: c in CountyIndex(rows) && 0 <= k < |CountyIndex(rows)[c]| ==> '/' !in CountyIndex(rows)[c][k]
  {
    var m := CountyIndex(rows);
    forall c | c in m ensures '/' !in c {
      CountyIndexSpec(rows, c, "");
      var i :| 0 <= i < |rows| && rows[i].county == Some(c);
      assert rows[i] in rows;
    }
    forall c, k | c in m && 0 <= k < |m[c]| ensures '/' !in m[c][k] {
      var g := m[c][k];
      assert g in m[c];
      CountyIndexSpec(rows, c, g);
      var i :| 0 <= i < |rows| && rows[i].county == Some(c) && rows[i].geoid == g;
      assert rows[i] in rows;
    }
  }

  lemma ConcatSlashFree(a: string, b: string)
    ensures '/' !in a + b <==> '/' !in a && '/' !in b
  {
    if '/' in a + b {
      var i :| 0 <= i < |a + b| && (a + b)[i] == '/';
      if i < |a| { assert a[i] == '/'; } else { assert b[i - |a|] == '/'; }
    }
  }

  lemma PrefixedGeoidSafe(level: string, raw: string)
    requires '/' !in level && '/' !in raw
    ensures '/' !in PrefixedGeoid(level, raw)
  {
    ConcatSlashFree(level, ":");
    ConcatSlashFree(level + ":", raw);
  }

  /** An index whose keys and entries are free of '/'. */
  predicate IndexSafe(index: map<string, seq<string>>)
  {
    && (forall c :: c in index ==> '/' !in c)
    && (forall c, k :: c in index && 0 <= k < |index[c]| ==> '/' !in index[c][k])
  }

  lemma ReprefixSafe(level: string, index: map<string, seq<string>>)
    requires '/' !in level && IndexSafe(index)
    ensures IndexSafe(Reprefix(level, index))
  {
    var m := Reprefix(level, index);
    forall c, k | c in m && 0 <= k < |m[c]| ensures '/' !in m[c][k] {
      PrefixedGeoidSafe(level, index[c][k]);
    }
  }

  /** A successful load is the stage applied to the sanitized, deduplicated rows (an
      unfolding of `LoadGeo`, used by `LoadGeoPathSafe`). */
  lemma LoadGeoStages(fips: string, level: string, year: string, layer: GeoLayer,
                      config: seq<ColumnPair>, auxiliary: set<string>, missing: set<MissingDataset>)
    requires WellFormed(layer)
    requires LoadGeo(fips, level, year, layer, config, auxiliary, missing).Ok?
    requires LoadGeo(fips, level, year, layer, config, auxiliary, missing).value.Loaded?
    ensures KnownLayer(level, year)
    ensures
      var out := LoadGeo(fips, level, year, layer, config, auxiliary, missing).value;
      var rows := DropDuplicates(Sanitize(layer).rows);
      var index := if layer.hasCounty then CountyIndex(rows) else map[];
      Stage(fips, level, rows, index, auxiliary) == Ok((out.records, out.countyIndex))
  {
  }

  lemma StageSafe(fips: string, level: string, rows: seq<GeoRow>, index: map<string, seq<string>>,
                  auxiliary: set<string>)
    requires '/' !in fips && '/' !in level && IndexSafe(index)
    requires forall r :: r in rows ==> RowSlashFree(r)
    requires Stage(fips, level, rows, index, auxiliary).Ok?
    ensures var out := Stage(fips, level, rows, index, auxiliary).value;
      && IndexSafe(out.1)
      && forall i :: 0 <= i < |out.0| ==> '/' !in out.0[i].geoid
  {
    var out := Stage(fips, level, rows, index, auxiliary).value;
    if level !in auxiliary {
      forall i | 0 <= i < |out.0| ensures '/' !in out.0[i].geoid {
        assert rows[i] in rows;
      }
    } else {
      ReprefixSafe(level, index);
      if level == "aiannh" {
        AiannhStageSafe(fips, rows);
      } else {
        forall i | 0 <= i < |out.0| ensures '/' !in out.0[i].geoid {
          assert rows[i] in rows;
          PrefixedGeoidSafe(level, rows[i].geoid);
        }
      }
    }
  }

  /** The sanitizer's purpose: whatever the level, no loaded geoid and no county index
      entry or key can break a `namespace/layer/geoid` path (the `aiannh` geoid embeds
      the state code, which must itself be free of '/'). */
  lemma LoadGeoPathSafe(fips: string, level: string, year: string, layer: GeoLayer,
                        config: seq<ColumnPair>, auxiliary: set<string>, missing: set<MissingDataset>)
    requires WellFormed(layer) && '/' !in fips
    requires LoadGeo(fips, level, year, layer, config, auxiliary, missing).Ok?
    ensures PathSafe(LoadGeo(fips, level, year, layer, config, auxiliary, missing).value)
  {
    var out := LoadGeo(fips, level, year, layer, config, auxiliary, missing).value;
    if out.Loaded? {
      LoadGeoStages(fips, level, year, layer, config, auxiliary, missing);
      var rows := DropDuplicates(Sanitize(layer).rows);
      SanitizedRowsSafe(layer);
      StagedOutcomeSafe(fips, level, rows, layer.hasCounty, auxiliary, out);
    }
  }

  lemma StagedOutcomeSafe(fips: string, level: string, rows: seq<GeoRow>, hasCounty: bool,
                          auxiliary: set<string>, out: GeoOutcome)
    requires '/' !in fips && level in Levels && out.Loaded?
    requires forall r :: r in rows ==> RowSlashFree(r)
    requires Stage(fips, level, rows, if hasCounty then CountyIndex(rows) else map[], auxiliary)
      == Ok((out.records, out.countyIndex))
    ensures PathSafe(out)
  {
    var index := if hasCounty then CountyIndex(rows) else map[];
    CountyIndexSafe(rows);
    assert IndexSafe(index);
    StageSafe(fips, level, rows, index, auxiliary);
  }

  lemma AiannhGeoidSafe(raw: string, fips: string)
    requires '/' !in raw && '/' !in fips
    ensures '/' !in AiannhGeoid(raw, fips)
  {
    var stripped := RStrip(raw, TrustReservationSuffix);
    assert '/' !in stripped by {
      forall k | 0 <= k < |stripped| ensures stripped[k] != '/' {
        assert stripped[k] == raw[k];
      }
    }
    ConcatSlashFree("aiannh:", stripped);
    ConcatSlashFree("aiannh:" + stripped, ":fips");
    ConcatSlashFree("aiannh:" + stripped + ":fips", fips);
  }

  lemma AiannhStageSafe(fips: string, rows: seq<GeoRow>)
    requires '/' !in fips && forall r :: r in rows ==> RowSlashFree(r)
    requires AiannhStage(fips, rows).Ok?
    ensures forall i :: 0 <= i < |AiannhStage(fips, rows).value| ==> '/' !in AiannhStage(fips, rows).value[i].geoid
  {
    var classed := ClassifyRows(rows, fips).value;
    forall i | 0 <= i < |classed| ensures '/' !in classed[i].row.geoid {
      assert rows[i] in rows;
      AiannhGeoidSafe(rows[i].geoid, fips);
    }
    if !Distinct(Ids(classed)) {
      var merged := Collapse(classed).value;
      CollapseMatchesBuckets(classed);
      forall i | 0 <= i < |merged| ensures '/' !in merged[i].row.geoid {
        EmittedIdsOccur(classed, i);
      }
    }
  }

  /** Every geoid of the merged rows is the geoid of some input row. */
  lemma EmittedIdsOccur(rows: seq<ClassedRow>, i: nat)
    requires Collapse(rows).Ok? && i < |Collapse(rows).value|
    ensures exists j :: 0 <= j < |rows| && rows[j].row.geoid == Collapse(rows).value[i].row.geoid
  {
    var acc := CollapseState(rows).value;
    EmitIds(acc);
    CollapseStateMatchesBuckets(rows);
    var k := acc.order[i];
    assert Ids(Emit(acc))[i] == k;
    assert k in Ids(rows);
  }

  /** For `aiannh` the loaded geoids are unique: with repeats the merge runs, and without
      them there is nothing to merge. */
  lemma AiannhGeoidsUnique(fips: string, rows: seq<GeoRow>)
    requires AiannhStage(fips, rows).Ok?
    ensures forall i, j :: 0 <= i < j < |AiannhStage(fips, rows).value| ==>
      AiannhStage(fips, rows).value[i].geoid != AiannhStage(fips, rows).value[j].geoid
  {
    var classed := ClassifyRows(rows, fips).value;
    var merged := if Distinct(Ids(classed)) then classed else Collapse(classed).value;
    assert Distinct(Ids(merged));
    assert AiannhStage(fips, rows).value == AiannhRecords(merged);
    forall i, j | 0 <= i < j < |merged|
      ensures AiannhRecords(merged)[i].geoid != AiannhRecords(merged)[j].geoid
    {
      DistinctIdsProject(merged, i, j);
    }
  }

  lemma DistinctIdsProject(merged: seq<ClassedRow>, i: nat, j: nat)
    requires Distinct(Ids(merged)) && i < j < |merged|
    ensures AiannhRecords(merged)[i].geoid != AiannhRecords(merged)[j].geoid
  {
    ProjectedGeoid(merged, i);
    ProjectedGeoid(merged, j);
  }

  lemma ProjectedGeoid(merged: seq<ClassedRow>, i: nat)
    requires i < |merged|
    ensures AiannhRecords(merged)[i].geoid == Ids(merged)[i]
  {
  }

  /** A raw `aiannh` identifier that is neither trust nor reservation stops the load. */
  lemma AiannhUnclassifiableFails(fips: string, rows: seq<GeoRow>)
    requires exists i :: 0 <= i < |rows| && Classify(rows[i].geoid).Err?
    ensures AiannhStage(fips, rows).Err?
  {
  }

  /** The guard of line 151 only skips work: merging collision-free rows would leave them
      unchanged, so the stage always equals "classify, rewrite, merge, project". */
  lemma AiannhGuardIsShortcut(fips: string, rows: seq<GeoRow>)
    requires ClassifyRows(rows, fips).Ok?
    ensures
      var classed := ClassifyRows(rows, fips).value;
      AiannhStage(fips, rows) == (match Collapse(classed)
        case Ok(merged) => Ok(AiannhRecords(merged))
        case Err(e) => Err(e))
  {
    var classed := ClassifyRows(rows, fips).value;
    if Distinct(Ids(classed)) {
      NoSharedGeoidPassesThrough(classed);
    }
  }

  /** For other auxiliary levels the prefix cannot create collisions: distinct raw ids stay
      distinct. */
  lemma PrefixRowsKeepsIdsDistinct(level: string, rows: seq<GeoRow>, i: nat, j: nat)
    requires i < |rows| && j < |rows| && rows[i].geoid != rows[j].geoid
    ensures PrefixRows(level, rows)[i].geoid != PrefixRows(level, rows)[j].geoid
  {
    PrefixedGeoidInjective(level, rows[i].geoid, rows[j].geoid);
  }

  /** Other auxiliary levels: every geoid gets the level prefix, every row keeps every
      other column, and the county index is the index of the raw ids with the prefix
      added to every entry under the same keys (an unfolding of `LoadGeo`). */
  lemma LoadGeoAuxiliaryLevel(fips: string, level: string, year: string, layer: GeoLayer,
                              config: seq<ColumnPair>, auxiliary: set<string>, missing: set<MissingDataset>)
    requires WellFormed(layer)
    requires MissingDataset(Some(fips), level, year) !in missing && KnownLayer(level, year)
    requires level in auxiliary && level != "aiannh"
    ensures
      var res := LoadGeo(fips, level, year, layer, config, auxiliary, missing);
      var rows := DropDuplicates(Sanitize(layer).rows);
      var index := if layer.hasCounty then CountyIndex(rows) else map[];
      && res.Ok? && res.value.Loaded?
      && |res.value.records| == |rows|
      && (forall i :: 0 <= i < |rows| ==>
        res.value.records[i] == PlainRecord(rows[i]).(geoid := level + ":" + rows[i].geoid))
      && res.value.countyIndex.Keys == index.Keys
      && (forall c, k :: c in index && 0 <= k < |index[c]| ==>
        |res.value.countyIndex[c]| == |index[c]| && res.value.countyIndex[c][k] == level + ":" + index[c][k])
      && res.value.columns == MapColumns(config, PlainColumns(layer, YearSuffix(year)))
  {
  }

  /** The `aiannh` level: the load is the `aiannh` stage on the sanitized, deduplicated
      rows, its error if it raises; the column map is over the projected columns, and the
      county index gets the level prefix (an unfolding of `LoadGeo`). */
  lemma LoadGeoAiannhLevel(fips: string, year: string, layer: GeoLayer,
                           config: seq<ColumnPair>, auxiliary: set<string>, missing: set<MissingDataset>)
    requires WellFormed(layer)
    requires MissingDataset(Some(fips), "aiannh", year) !in missing && KnownLayer("aiannh", year)
    requires "aiannh" in auxiliary
    ensures
      var rows := DropDuplicates(Sanitize(layer).rows);
      var index := if layer.hasCounty then CountyIndex(rows) else map[];
      LoadGeo(fips, "aiannh", year, layer, config, auxiliary, missing) ==
        match AiannhStage(fips, rows)
        case Ok(rs) => Ok(Loaded(rs, MapColumns(config, AiannhColumns(YearSuffix(year))), Reprefix("aiannh", index)))
        case Err(e) => Err(e)
  {
  }

  /** The projection drops the summed areas, so a configured area column is never mapped
      for `aiannh`, whatever the configuration says. */
  lemma AiannhAreasNotMapped(config: seq<ColumnPair>, yr: string)
    ensures "ALAND" + yr !in MapColumns(config, AiannhColumns(yr))
    ensures "AWATER" + yr !in MapColumns(config, AiannhColumns(yr))
  {
    MapColumnsSpec(config, AiannhColumns(yr), "ALAND" + yr);
    MapColumnsSpec(config, AiannhColumns(yr), "AWATER" + yr);
    assert ("ALAND" + yr)[0] == 'A' && ("AWATER" + yr)[1] == 'W' && ("ALAND" + yr)[1] == 'L';
    assert ("NAME" + yr)[0] == 'N' && ("INTPTLAT" + yr)[0] == 'I' && ("INTPTLON" + yr)[0] == 'I';
    assert ("geometry")[0] == 'g' && ("res_trust_class")[0] == 'r';
  }

  // ---------------------------------------------------------------------------
  // The file name of a stored layer
  // ---------------------------------------------------------------------------

  /** The fields of `<fips>_<level>_<year>--<hash>.parquet`. */
  datatype GeoFileName = GeoFileName(fips: string, level: string, year: string, layerHash: string)

  /** Lines 264-268: basename, then fields 0, 1 and 2 of the split on '_' (the year cut at
      "--"), and the hash after "--" cut at '.'; a missing field is an IndexError. */
  function ParseGeoFileName(path: string): Option<GeoFileName>
  {
    var name := Basename(path);
    var fields := Split(name, "_");
    var halves := Split(name, "--");
    if |fields| < 3 || |halves| < 2 then None
    else
      Some(GeoFileName(fields[0], fields[1], Split(fields[2], "--")[0], Split(halves[1], ".")[0]))
  }

  /** The stored name, written as the splits take it apart. */
  function FormatGeoFileName(f: GeoFileName): string
  {
    f.fips + "_" + (f.level + "_" + (f.year + "--" + HashPart(f)))
  }

  function HashPart(f: GeoFileName): string
  {
    f.layerHash + "." + "parquet"
  }

  /** A field that holds none of the separators. */
  predicate PlainField(s: string)
  {
    Avoids(s, "_-/.")
  }

  predicate PlainFields(f: GeoFileName)
  {
    PlainField(f.fips) && PlainField(f.level) && PlainField(f.year) && PlainField(f.layerHash)
  }

  /** Parsing the stored name of a layer, in any directory, gives back its fields. */
  lemma ParseGeoFileNameRoundTrip(dir: string, f: GeoFileName)
    requires PlainFields(f)
    ensures ParseGeoFileName(dir + "/" + FormatGeoFileName(f)) == Some(f)
    ensures ParseGeoFileName(FormatGeoFileName(f)) == Some(f)
  {
    var name := FormatGeoFileName(f);
    GeoNameSlashFree(f);
    BasenameAfterDirectory(dir, name);
    GeoNameFields(f);
    GeoNameHalves(f);
  }

  lemma GeoNameSlashFree(f: GeoFileName)
    requires PlainFields(f)
    ensures '/' !in FormatGeoFileName(f)
  {
    AvoidsWeaken(f.fips, "_-/.", "/");
    AvoidsWeaken(f.level, "_-/.", "/");
    AvoidsWeaken(f.year, "_-/.", "/");
    AvoidsWeaken(f.layerHash, "_-/.", "/");
    AvoidsConcat(f.layerHash, ".", "/");
    AvoidsConcat(f.layerHash + ".", "parquet", "/");
    AvoidsConcat(f.year, "--", "/");
    AvoidsConcat(f.year + "--", HashPart(f), "/");
    AvoidsConcat(f.level, "_", "/");
    AvoidsConcat(f.level + "_", f.year + "--" + HashPart(f), "/");
    AvoidsConcat(f.fips, "_", "/");
    AvoidsConcat(f.fips + "_", f.level + "_" + (f.year + "--" + HashPart(f)), "/");
  }

  /** The split on '_' yields fips, level and the rest, whose part before "--" is the year. */
  lemma GeoNameFields(f: GeoFileName)
    requires PlainFields(f)
    ensures Split(FormatGeoFileName(f), "_") == [f.fips] + ([f.level] + [f.year + "--" + HashPart(f)])
    ensures Split(f.year + "--" + HashPart(f), "--")[0] == f.year
  {
    var tail := f.year + "--" + HashPart(f);
    AvoidsWeaken(f.fips, "_-/.", "_");
    AvoidsWeaken(f.level, "_-/.", "_");
    AvoidsWeaken(f.year, "_-/.", "-");
    SplitAfterField(f.fips, "_", f.level + "_" + tail);
    SplitAfterField(f.level, "_", tail);
    TailAvoidsUnderscore(f);
    SplitWithoutSeparator(tail, "_");
    SplitAfterField(f.year, "--", HashPart(f));
  }

  lemma TailAvoidsUnderscore(f: GeoFileName)
    requires PlainFields(f)
    ensures Avoids(f.year + "--" + HashPart(f), "_")
  {
    AvoidsWeaken(f.year, "_-/.", "_");
    AvoidsWeaken(f.layerHash, "_-/.", "_");
    AvoidsConcat(f.layerHash, ".", "_");
    AvoidsConcat(f.layerHash + ".", "parquet", "_");
    AvoidsConcat(f.year, "--", "_");
    AvoidsConcat(f.year + "--", HashPart(f), "_");
  }

  lemma HeadAvoidsDash(f: GeoFileName)
    requires PlainFields(f)
    ensures Avoids(f.fips + "_" + f.level + "_" + f.year, "-")
  {
    AvoidsWeaken(f.fips, "_-/.", "-");
    AvoidsWeaken(f.level, "_-/.", "-");
    AvoidsWeaken(f.year, "_-/.", "-");
    AvoidsConcat(f.fips, "_", "-");
    AvoidsConcat(f.fips + "_", f.level, "-");
    AvoidsConcat(f.fips + "_" + f.level, "_", "-");
    AvoidsConcat(f.fips + "_" + f.level + "_", f.year, "-");
  }

  lemma Reassociate(fips: string, level: string, year: string, tail: string)
    ensures fips + "_" + (level + "_" + (year + "--" + tail))
         == fips + "_" + level + "_" + year + "--" + tail
  {
  }

  /** The split on "--" yields a second piece whose part before '.' is the hash. */
  lemma GeoNameHalves(f: GeoFileName)
    requires PlainFields(f)
    ensures |Split(FormatGeoFileName(f), "--")| >= 2
    ensures Split(Split(FormatGeoFileName(f), "--")[1], ".")[0] == f.layerHash
  {
    Reassociate(f.fips, f.level, f.year, HashPart(f));
    HeadAvoidsDash(f);
    HashPartFields(f);
    TwoHalves(f.fips + "_" + f.level + "_" + f.year, HashPart(f));
  }

  lemma TwoHalves(head: string, tail: string)
    requires Avoids(head, "-") && Avoids(tail, "-")
    ensures Split(head + "--" + tail, "--") == [head] + [tail]
  {
    SplitAfterField(head, "--", tail);
    SplitWithoutSeparator(tail, "--");
  }

  lemma HashPartFields(f: GeoFileName)
    requires PlainField(f.layerHash)
    ensures Avoids(HashPart(f), "-")
    ensures Split(HashPart(f), ".")[0] == f.layerHash
  {
    HashAvoidsDash(f.layerHash);
    HashBeforeDot(f.layerHash);
  }

  lemma HashAvoidsDash(hash: string)
    requires Avoids(hash, "_-/.")
    ensures Avoids(hash + "." + "parquet", "-")
  {
    AvoidsWeaken(hash, "_-/.", "-");
    AvoidsConcat(hash, ".", "-");
    AvoidsConcat(hash + ".", "parquet", "-");
  }

  lemma HashBeforeDot(hash: string)
    requires Avoids(hash, "_-/.")
    ensures Split(hash + "." + "parquet", ".")[0] == hash
  {
    AvoidsWeaken(hash, "_-/.", ".");
    SplitAfterField(hash, ".", "parquet");
  }
}
