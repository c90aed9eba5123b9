/** The rows of one Census geography layer and the row-wise steps of `load_geo`
    (load_test_geo.py): the '/' sanitizer, the county index, the trust/reservation
    classification and the level-dependent rewrite of the identifier column. */
module GeoRows {
  import opened Wrappers
  import opened Text
  import opened Tables

  /** Geometry is abstract: the set of polygons it covers, so `unary_union` is set union. */
  type Geometry = set<nat>

  /** One row of a TIGER layer. The year-suffixed columns GEOID, COUNTYFP, NAME, ALAND,
      AWATER, INTPTLAT and INTPTLON get their own fields; `attrs` holds the remaining
      attribute columns in the order of the layer's `attrNames`. */
  datatype GeoRow = GeoRow(
    geoid: string,
    county: Option<string>,
    name: string,
    aland: int,
    awater: int,
    intptLat: string,
    intptLon: string,
    geometry: Geometry,
    attrs: seq<Cell>)

  /** A layer: whether it has a county column, the names of its other attribute columns
      and its rows. */
  datatype GeoLayer = GeoLayer(hasCounty: bool, attrNames: seq<string>, rows: seq<GeoRow>)

  /** Every row has the layer's columns. */
  predicate WellFormed(layer: GeoLayer)
  {
    forall i :: 0 <= i < |layer.rows| ==>
      layer.rows[i].county.Some? == layer.hasCounty && |layer.rows[i].attrs| == |layer.attrNames|
  }

  /** The errors `load_geo` raises on data. */
  datatype GeoError =
    | UnknownLayer(level: string, year: string)      // KeyError on LAYER_URLS
    | EmptyGeoid                                     // IndexError on x[-1]
    | NotTrustOrReservation(geoid: string)           // ValueError in categorize_trust_res
    | TripleCollision(geoid: string)                 // ValueError: collision of 3 geoids
    | NameMismatch(geoid: string)                    // ValueError: NAME does not match

  // ---------------------------------------------------------------------------
  // The '/' sanitizer
  // ---------------------------------------------------------------------------

  /** No string cell of the row holds a path separator. */
  predicate RowSlashFree(r: GeoRow)
  {
    && '/' !in r.geoid
    && (r.county.Some? ==> '/' !in r.county.value)
    && '/' !in r.name
    && '/' !in r.intptLat
    && '/' !in r.intptLon
    && forall k :: 0 <= k < |r.attrs| ==> SlashFree(r.attrs[k])
  }

  function SanitizeRow(r: GeoRow): (s: GeoRow)
    ensures RowSlashFree(s)
    ensures s.aland == r.aland && s.awater == r.awater && s.geometry == r.geometry
    ensures s.county.Some? == r.county.Some? && |s.attrs| == |r.attrs|
    ensures s.geoid == EscapeSlashes(r.geoid) && s.name == EscapeSlashes(r.name)
    ensures s.intptLat == EscapeSlashes(r.intptLat) && s.intptLon == EscapeSlashes(r.intptLon)
    ensures r.county.Some? ==> s.county == Some(EscapeSlashes(r.county.value))
    ensures s.attrs == SanitizeCells(r.attrs)
    ensures forall k :: 0 <= k < |r.attrs| ==> r.attrs[k].Num? ==> s.attrs[k] == r.attrs[k]
    ensures forall k :: 0 <= k < |r.attrs| ==> r.attrs[k].Str? ==> s.attrs[k] == Str(EscapeSlashes(r.attrs[k].s))
    ensures RowSlashFree(r) ==> s == r
  {
    EscapeFixesSlashFree(r.geoid);
    EscapeFixesSlashFree(r.name);
    EscapeFixesSlashFree(r.intptLat);
    EscapeFixesSlashFree(r.intptLon);
    EscapeFixesPresent(r.county);
    var attrs := SanitizeCells(r.attrs);
    assert RowSlashFree(r) ==> attrs == r.attrs;
    r.(geoid := EscapeSlashes(r.geoid),
       county := if r.county.Some? then Some(EscapeSlashes(r.county.value)) else None,
       name := EscapeSlashes(r.name),
       intptLat := EscapeSlashes(r.intptLat),
       intptLon := EscapeSlashes(r.intptLon),
       attrs := attrs)
  }

  lemma EscapeFixesPresent(o: Option<string>)
    ensures o.Some? && '/' !in o.value ==> EscapeSlashes(o.value) == o.value
  {
    if o.Some? {
      EscapeFixesSlashFree(o.value);
    }
  }

  /** The sanitizer of load_test_geo.py:82-85: every '/' in every string cell of the layer
      is escaped, and cells of other kinds are left as they are. */
  function Sanitize(layer: GeoLayer): (s: GeoLayer)
    requires WellFormed(layer)
    ensures WellFormed(s)
    ensures s.hasCounty == layer.hasCounty && s.attrNames == layer.attrNames
    ensures |s.rows| == |layer.rows|
    ensures forall i :: 0 <= i < |s.rows| ==> RowSlashFree(s.rows[i])
    ensures forall i :: 0 <= i < |s.rows| ==>
      s.rows[i].aland == layer.rows[i].aland && s.rows[i].awater == layer.rows[i].awater
      && s.rows[i].geometry == layer.rows[i].geometry
    ensures forall i :: 0 <= i < |s.rows| ==> s.rows[i] == SanitizeRow(layer.rows[i])
  {
    var rows := seq(|layer.rows|, i requires 0 <= i < |layer.rows| => SanitizeRow(layer.rows[i]));
    layer.(rows := rows)
  }

  /** Sanitizing is idempotent: a sanitized layer is left alone. */
  lemma SanitizeIdempotent(layer: GeoLayer)
    requires WellFormed(layer)
    ensures Sanitize(Sanitize(layer)) == Sanitize(layer)
  {
    var s := Sanitize(layer);
    var t := Sanitize(s);
    assert t.rows == s.rows by {
      forall i | 0 <= i < |s.rows| ensures t.rows[i] == s.rows[i] {
        assert RowSlashFree(s.rows[i]);
      }
    }
  }

  /** Rows whose geoids differ only by a '/' where the other has "--" are distinct before
      the sanitizer and identical after it, so duplicate dropping keeps one of them. */
  lemma SanitizeMergesGeoids(r: GeoRow, a: string, b: string)
    ensures r.(geoid := a + "/" + b) != r.(geoid := a + "--" + b)
    ensures SanitizeRow(r.(geoid := a + "/" + b)) == SanitizeRow(r.(geoid := a + "--" + b))
  {
    EscapeMergesSeparators(a, b);
  }

  // ---------------------------------------------------------------------------
  // The county index (load_test_geo.py:120-124)
  // ---------------------------------------------------------------------------

  /** Each county value maps to the identifiers of its rows, in row order. Rows without
      a county (a layer without the column) contribute nothing. */
  function CountyIndex(rows: seq<GeoRow>): map<string, seq<string>>
  {
    if rows == [] then map[]
    else
      var m := CountyIndex(rows[..|rows| - 1]);
      var last := rows[|rows| - 1];
      match last.county
      case None => m
      case Some(c) => m[c := (if c in m then m[c] else []) + [last.geoid]]
  }

  /** The keys of the index are the county values of the rows, and a county lists exactly
      the identifiers of its rows. */
  lemma {:induction false} CountyIndexSpec(rows: seq<GeoRow>, c: string, g: string)
    ensures c in CountyIndex(rows) <==> exists i :: 0 <= i < |rows| && rows[i].county == Some(c)
    ensures c in CountyIndex(rows) && g in CountyIndex(rows)[c] <==>
      exists i :: 0 <= i < |rows| && rows[i].county == Some(c) && rows[i].geoid == g
  {
    if rows != [] {
      var n := |rows| - 1;
      var p := rows[..n];
      CountyIndexSpec(p, c, g);
      assert forall i :: 0 <= i < n ==> rows[i] == p[i];
      if exists i :: 0 <= i < |rows| && rows[i].county == Some(c) {
        var i :| 0 <= i < |rows| && rows[i].county == Some(c);
        if i < n { assert p[i].county == Some(c); }
      }
      if exists i :: 0 <= i < |rows| && rows[i].county == Some(c) && rows[i].geoid == g {
        var i :| 0 <= i < |rows| && rows[i].county == Some(c) && rows[i].geoid == g;
        if i < n { assert p[i].county == Some(c) && p[i].geoid == g; }
      }
    }
  }

  /** A layer without a county column has an empty index. */
  lemma CountyIndexWithoutCountyColumn(layer: GeoLayer)
    requires WellFormed(layer) && !layer.hasCounty
    ensures CountyIndex(layer.rows) == map[]
  {
    var m := CountyIndex(layer.rows);
    forall c | c in m ensures false {
      CountyIndexSpec(layer.rows, c, "");
    }
  }

  /** The rows of one county, in order. */
  function GeoidsIn(rows: seq<GeoRow>, c: string): (g: seq<string>)
    ensures |g| <= |rows|
  {
    if rows == [] then []
    else
      GeoidsIn(rows[..|rows| - 1], c)
      + (if rows[|rows| - 1].county == Some(c) then [rows[|rows| - 1].geoid] else [])
  }

  /** Each group lists its members in row order, each row once. */
  lemma {:induction false} CountyIndexGroups(rows: seq<GeoRow>, c: string)
    requires c in CountyIndex(rows)
    ensures CountyIndex(rows)[c] == GeoidsIn(rows, c)
  {
    var p := rows[..|rows| - 1];
    var last := rows[|rows| - 1];
    assert forall i :: 0 <= i < |p| ==> rows[i] == p[i];
    if c in CountyIndex(p) {
      CountyIndexGroups(p, c);
    } else {
      assert GeoidsIn(p, c) == [] by { GeoidsInAbsent(p, c); }
    }
  }

  lemma {:induction false} GeoidsInAbsent(rows: seq<GeoRow>, c: string)
    requires c !in CountyIndex(rows)
    ensures GeoidsIn(rows, c) == []
  {
    if rows != [] {
      var p := rows[..|rows| - 1];
      assert forall i :: 0 <= i < |p| ==> rows[i] == p[i];
      assert rows[|rows| - 1].county != Some(c);
      GeoidsInAbsent(p, c);
    }
  }

  /** The county index of an auxiliary level (load_test_geo.py:206-209): the same keys,
      every listed geoid given the level prefix. */
  function Reprefix(level: string, index: map<string, seq<string>>): (m: map<string, seq<string>>)
    ensures m.Keys == index.Keys
    ensures forall c :: c in m ==> |m[c]| == |index[c]|
    ensures forall c, k :: c in m && 0 <= k < |m[c]| ==> m[c][k] == PrefixedGeoid(level, index[c][k])
  {
    map c | c in index :: seq(|index[c]|, k requires 0 <= k < |index[c]| => PrefixedGeoid(level, index[c][k]))
  }

  // ---------------------------------------------------------------------------
  // Identifier rewrite for auxiliary levels
  // ---------------------------------------------------------------------------

  /** The geoid of an auxiliary level other than `aiannh` (load_test_geo.py:205): the
      level name and a colon in front of the raw geoid. */
  function PrefixedGeoid(level: string, raw: string): string
  {
    level + ":" + raw
  }

  /** Within one level the prefix rewrite is injective: it cannot make two identifiers
      collide, which is why only `aiannh` needs the collision merge. */
  lemma PrefixedGeoidInjective(level: string, a: string, b: string)
    ensures PrefixedGeoid(level, a) == PrefixedGeoid(level, b) <==> a == b
  {
    if PrefixedGeoid(level, a) == PrefixedGeoid(level, b) {
      var n := |level + ":"|;
      assert a == PrefixedGeoid(level, a)[n..];
      assert b == PrefixedGeoid(level, b)[n..];
    }
  }

  /** The `res_trust_class` column. */
  datatype Class = Trust | Reservation | Union

  const TrustReservationSuffix: set<char> := {'r', 't', 'R', 'T'}

  /** `categorize_trust_res`: the last character of the raw identifier, read
      case-insensitively, decides; an empty identifier has no last character. */
  function Classify(raw: string): (r: Result<Class, GeoError>)
    ensures r.Ok? <==> |raw| > 0 && raw[|raw| - 1] in TrustReservationSuffix
    ensures r == Ok(Trust) <==> |raw| > 0 && raw[|raw| - 1] in {'t', 'T'}
    ensures r == Ok(Reservation) <==> |raw| > 0 && raw[|raw| - 1] in {'r', 'R'}
    ensures |raw| == 0 ==> r == Err(EmptyGeoid)
    ensures r.Err? && |raw| > 0 ==> r == Err(NotTrustOrReservation(raw))
  {
    if |raw| == 0 then Err(EmptyGeoid)
    else if LowerChar(raw[|raw| - 1]) == 't' then Ok(Trust)
    else if LowerChar(raw[|raw| - 1]) == 'r' then Ok(Reservation)
    else Err(NotTrustOrReservation(raw))
  }

  /** The `aiannh` geoid (load_test_geo.py:145-147): the level name, the raw geoid without
      its trailing trust/reservation letters, and the state code. */
  function AiannhGeoid(raw: string, fips: string): string
  {
    "aiannh:" + RStrip(raw, TrustReservationSuffix) + ":fips" + fips
  }

  /** The worked example: "1680R" in state "04". */
  lemma AiannhGeoidExample()
    ensures AiannhGeoid("1680R", "04") == "aiannh:1680:fips04"
  {
    RStripSuffix("1680", "R", TrustReservationSuffix);
    assert "1680" + "R" == "1680R";
  }

  /** All trailing r/t letters go, not just the classifying one. */
  lemma AiannhGeoidStripsAll(base: string, suffix: string, fips: string)
    requires |base| == 0 || base[|base| - 1] !in TrustReservationSuffix
    requires forall k :: 0 <= k < |suffix| ==> suffix[k] in TrustReservationSuffix
    ensures AiannhGeoid(base + suffix, fips) == "aiannh:" + base + ":fips" + fips
  {
    RStripSuffix(base, suffix, TrustReservationSuffix);
  }

  /** Within one state two raw identifiers get the same `aiannh` geoid exactly when
      they agree once their trailing r/t letters are stripped: the trust part and the
      reservation part of one area collide, and nothing else does. */
  lemma AiannhGeoidCollision(a: string, b: string, fips: string)
    ensures AiannhGeoid(a, fips) == AiannhGeoid(b, fips) <==>
      RStrip(a, TrustReservationSuffix) == RStrip(b, TrustReservationSuffix)
  {
    var sa, sb := RStrip(a, TrustReservationSuffix), RStrip(b, TrustReservationSuffix);
    if AiannhGeoid(a, fips) == AiannhGeoid(b, fips) {
      var ga, gb := AiannhGeoid(a, fips), AiannhGeoid(b, fips);
      assert |sa| == |sb|;
      assert sa == ga[7..7 + |sa|];
      assert sb == gb[7..7 + |sb|];
    }
  }

  /** The same area in two states gets two geoids: the state code qualifies it. */
  lemma AiannhGeoidQualifiedByState(raw: string, fips1: string, fips2: string)
    ensures AiannhGeoid(raw, fips1) == AiannhGeoid(raw, fips2) <==> fips1 == fips2
  {
    var stem := "aiannh:" + RStrip(raw, TrustReservationSuffix) + ":fips";
    assert AiannhGeoid(raw, fips1) == stem + fips1;
    assert AiannhGeoid(raw, fips2) == stem + fips2;
    if stem + fips1 == stem + fips2 {
      assert fips1 == (stem + fips1)[|stem|..];
      assert fips2 == (stem + fips2)[|stem|..];
    }
  }

  /** A classified row: the row with its rewritten identifier and its class. */
  datatype ClassedRow = ClassedRow(row: GeoRow, cls: Class)

  /** Row `i` is the first whose raw identifier cannot be classified. */
  predicate FirstUnclassifiable(rows: seq<GeoRow>, i: int)
  {
    0 <= i < |rows| && Classify(rows[i].geoid).Err? && forall j :: 0 <= j < i ==> Classify(rows[j].geoid).Ok?
  }

  /** The two `apply` calls of the `aiannh` branch: every row is classified from its raw
      identifier (the first row that cannot be raises) and then gets its new identifier. */
  function ClassifyRows(rows: seq<GeoRow>, fips: string): (r: Result<seq<ClassedRow>, GeoError>)
    ensures r.Ok? <==> forall i :: 0 <= i < |rows| ==> Classify(rows[i].geoid).Ok?
    ensures r.Ok? ==> |r.value| == |rows|
    ensures r.Ok? ==> forall i :: 0 <= i < |rows| ==>
      r.value[i] == ClassedRow(rows[i].(geoid := AiannhGeoid(rows[i].geoid, fips)), Classify(rows[i].geoid).value)
    ensures r.Err? ==> exists i :: 0 <= i < |rows| && FirstUnclassifiable(rows, i) && Classify(rows[i].geoid) == Err(r.error)
  {
    if rows == [] then Ok([])
    else
      match Classify(rows[0].geoid)
      case Err(e) => Err(e)
      case Ok(c) =>
        match ClassifyRows(rows[1..], fips)
        case Err(e) =>
          var i :| 0 <= i < |rows[1..]| && FirstUnclassifiable(rows[1..], i) && Classify(rows[1..][i].geoid) == Err(e);
          assert forall j :: 1 <= j < i + 1 ==> rows[j] == rows[1..][j - 1];
          assert FirstUnclassifiable(rows, i + 1);
          Err(e)
        case Ok(rest) =>
          Ok([ClassedRow(rows[0].(geoid := AiannhGeoid(rows[0].geoid, fips)), c)] + rest)
  }

  /** The identifiers of a sequence of classified rows. */
  function Ids(rows: seq<ClassedRow>): (ids: seq<string>)
    ensures |ids| == |rows|
    ensures forall i :: 0 <= i < |rows| ==> ids[i] == rows[i].row.geoid
  {
    if rows == [] then [] else Ids(rows[..|rows| - 1]) + [rows[|rows| - 1].row.geoid]
  }
}
