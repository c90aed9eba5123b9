/** The collision merge of the `aiannh` branch of `load_geo` (load_test_geo.py:151-192).
    Stripping the trust/reservation letter can give the two parts of one area the same
    geoid. Rows are walked in order, the first-seen row of each geoid is kept, a second
    row is folded into it (areas added, geometry unioned, class `union`, names checked)
    and a third row is an error.

    `Collapse` states the walk as a fold, `CollapseCollisions` is the loop over a mutable
    dictionary, and `CollapseMatchesBuckets` proves the fold equal to a two-phase
    reference that groups the rows per geoid first and reduces each group on its own. */
module Collisions {
  import opened Wrappers
  import opened Tables
  import opened GeoRows

  /** The geoids whose two parts legitimately carry different names (the Fallon
      Paiute-Shoshone reservation and colony in Nevada). */
  const NameExceptions: set<string> := {"aiannh:1075:fips32", "aiannh:1070:fips32"}

  /** The name check: two parts of `geoid` may merge when their names match or the
      geoid is allow-listed. */
  predicate NamesAgree(geoid: string, first: ClassedRow, second: ClassedRow)
  {
    first.row.name == second.row.name || geoid in NameExceptions
  }

  /** The first-seen row with the second folded in; every other field of the first-seen
      row, its name included, is kept. */
  function Merge(first: ClassedRow, second: ClassedRow): ClassedRow
  {
    ClassedRow(
      first.row.(aland := first.row.aland + second.row.aland,
                 awater := first.row.awater + second.row.awater,
                 geometry := first.row.geometry + second.row.geometry),
      Union)
  }

  // ---------------------------------------------------------------------------
  // The walk as a fold
  // ---------------------------------------------------------------------------

  /** A value of `new_rows`: the accumulated row and its `collision_count`. */
  datatype Entry = Entry(row: ClassedRow, collisions: nat)

  /** `new_rows`: the geoids in insertion order and the entry of each. */
  datatype Acc = Acc(order: seq<string>, entries: map<string, Entry>)

  predicate AccValid(acc: Acc)
  {
    && Distinct(acc.order)
    && (forall k :: k in acc.entries ==> k in acc.order)
    && (forall k :: k in acc.order ==> k in acc.entries)
    && (forall k :: k in acc.entries ==> acc.entries[k].row.row.geoid == k)
  }

  /** One iteration of the merge loop (load_test_geo.py:155-188): a new geoid is stored,
      a second row is merged after the name check, and a third is an error. */
  function Absorb(acc: Acc, r: ClassedRow): (res: Result<Acc, GeoError>)
    requires AccValid(acc)
    ensures res.Ok? ==> AccValid(res.value)
  {
    var k := r.row.geoid;
    if k !in acc.entries then
      Ok(Acc(acc.order + [k], acc.entries[k := Entry(r, 0)]))
    else
      var e := acc.entries[k];
      if e.collisions + 1 > 1 then Err(TripleCollision(k))
      else if !NamesAgree(k, e.row, r) then Err(NameMismatch(k))
      else Ok(Acc(acc.order, acc.entries[k := Entry(Merge(e.row, r), e.collisions + 1)]))
  }

  /** The state after walking `rows`, or the first error raised. */
  function CollapseState(rows: seq<ClassedRow>): (res: Result<Acc, GeoError>)
    ensures res.Ok? ==> AccValid(res.value)
  {
    if rows == [] then Ok(Acc([], map[]))
    else
      match CollapseState(rows[..|rows| - 1])
      case Err(e) => Err(e)
      case Ok(acc) => Absorb(acc, rows[|rows| - 1])
  }

  /** The frame rebuilt from the dictionary (load_test_geo.py:190-192): the stored rows in
      insertion order. */
  function Emit(acc: Acc): (out: seq<ClassedRow>)
    requires AccValid(acc)
    ensures |out| == |acc.order|
    ensures forall i :: 0 <= i < |out| ==> out[i] == acc.entries[acc.order[i]].row
  {
    seq(|acc.order|, i requires 0 <= i < |acc.order| => acc.entries[acc.order[i]].row)
  }

  /** The emitted rows carry the geoids in insertion order. */
  lemma EmitIds(acc: Acc)
    requires AccValid(acc)
    ensures Ids(Emit(acc)) == acc.order
  {
    assert Ids(Emit(acc)) == acc.order;
  }

  /** The merged table, or the error the walk raises. On success the geoids are unique. */
  function Collapse(rows: seq<ClassedRow>): (res: Result<seq<ClassedRow>, GeoError>)
    ensures res.Ok? ==> Distinct(Ids(res.value))
  {
    match CollapseState(rows)
    case Err(e) => Err(e)
    case Ok(acc) => EmitIds(acc); Ok(Emit(acc))
  }

  /** Once the walk has raised, later rows change nothing. */
  lemma {:induction false} CollapseErrorPersists(rows: seq<ClassedRow>, j: nat)
    requires j <= |rows| && CollapseState(rows[..j]).Err?
    ensures CollapseState(rows) == CollapseState(rows[..j])
    decreases |rows| - j
  {
    if j < |rows| {
      assert rows[..j + 1][..j] == rows[..j];
      CollapseErrorPersists(rows, j + 1);
    } else {
      assert rows[..j] == rows;
    }
  }

  // ---------------------------------------------------------------------------
  // The loop
  // ---------------------------------------------------------------------------

  /** The loop of load_test_geo.py:152-192 over a dictionary updated in place. */
  method CollapseCollisions(rows: seq<ClassedRow>) returns (res: Result<seq<ClassedRow>, GeoError>)
    ensures res == Collapse(rows)
  {
    var order: seq<string> := [];
    var newRows: map<string, Entry> := map[];
    var i := 0;
    while i < |rows|
      invariant 0 <= i <= |rows|
      invariant CollapseState(rows[..i]) == Ok(Acc(order, newRows))
    {
      var data := rows[i];
      var k := data.row.geoid;
      assert rows[..i + 1][..i] == rows[..i];
      if k !in newRows {
        newRows := newRows[k := Entry(data, 0)];
        order := order + [k];
      } else {
        var first := newRows[k].row;
        var count := newRows[k].collisions + 1;
        if count > 1 {
          CollapseErrorPersists(rows, i + 1);
          return Err(TripleCollision(k));
        }
        newRows := newRows[k := Entry(Merge(first, data), count)];
        if !NamesAgree(k, first, data) {
          CollapseErrorPersists(rows, i + 1);
          return Err(NameMismatch(k));
        }
      }
      i := i + 1;
    }
    assert rows[..i] == rows;
    res := Ok(Emit(Acc(order, newRows)));
  }

  // ---------------------------------------------------------------------------
  // The two-phase reference: group per geoid, then reduce each group
  // ---------------------------------------------------------------------------

  /** The rows whose geoid is `k`, in row order. */
  function Bucket(rows: seq<ClassedRow>, k: string): (b: seq<ClassedRow>)
    ensures |b| > 0 <==> k in Ids(rows)
  {
    if rows == [] then []
    else
      var p := rows[..|rows| - 1];
      var last := rows[|rows| - 1];
      assert Ids(rows) == Ids(p) + [last.row.geoid];
      Bucket(p, k) + (if last.row.geoid == k then [last] else [])
  }

  /** A group of one passes through, a group of two merges when the names agree, and a
      larger group fails, on the name check of its first two rows if that fails first. */
  function Reduce(k: string, b: seq<ClassedRow>): Result<ClassedRow, GeoError>
    requires |b| > 0
  {
    if |b| == 1 then Ok(b[0])
    else if !NamesAgree(k, b[0], b[1]) then Err(NameMismatch(k))
    else if |b| == 2 then Ok(Merge(b[0], b[1]))
    else Err(TripleCollision(k))
  }

  predicate BucketsMerge(rows: seq<ClassedRow>)
  {
    forall k :: k in Ids(rows) ==> Reduce(k, Bucket(rows, k)).Ok?
  }

  /** The reduced groups, in order of first occurrence of their geoid. */
  function Reference(rows: seq<ClassedRow>): seq<ClassedRow>
    requires BucketsMerge(rows)
  {
    var ks := DropDuplicates(Ids(rows));
    seq(|ks|, i requires 0 <= i < |ks| => Reduce(ks[i], Bucket(rows, ks[i])).value)
  }

  /** A group that fails keeps failing, with the same error, when it grows. */
  lemma ReduceErrorExtends(k: string, b: seq<ClassedRow>, more: seq<ClassedRow>)
    requires |b| > 0 && Reduce(k, b).Err?
    ensures Reduce(k, b + more) == Reduce(k, b)
  {
    assert (b + more)[0] == b[0] && (b + more)[1] == b[1];
  }

  /** The entry `e` of geoid `k` after walking `rows` holds the reduction of the group of
      `k` and the group's size less one. */
  predicate EntryMatches(rows: seq<ClassedRow>, k: string, e: Entry)
  {
    && k in Ids(rows)
    && Reduce(k, Bucket(rows, k)) == Ok(e.row)
    && e.collisions == |Bucket(rows, k)| - 1
  }

  /** The state `acc` after walking `rows` lists the geoids in order of first occurrence
      and matches every group. */
  predicate Matches(rows: seq<ClassedRow>, acc: Acc)
  {
    && acc.order == DropDuplicates(Ids(rows))
    && forall k :: k in acc.entries ==> EntryMatches(rows, k, acc.entries[k])
  }

  /** Some group of `rows` fails to reduce, with error `e`. */
  predicate FailsOn(rows: seq<ClassedRow>, e: GeoError)
  {
    exists k :: k in Ids(rows) && Reduce(k, Bucket(rows, k)) == Err(e)
  }

  lemma IdsSnoc(p: seq<ClassedRow>, r: ClassedRow)
    ensures Ids(p + [r]) == Ids(p) + [r.row.geoid]
  {
    assert (p + [r])[..|p|] == p;
  }

  lemma BucketSnoc(p: seq<ClassedRow>, r: ClassedRow, k: string)
    ensures Bucket(p + [r], k) == Bucket(p, k) + (if r.row.geoid == k then [r] else [])
  {
    assert (p + [r])[..|p|] == p;
  }

  lemma DropDuplicatesSnoc(p: seq<ClassedRow>, r: ClassedRow)
    ensures r.row.geoid in Ids(p) ==> DropDuplicates(Ids(p + [r])) == DropDuplicates(Ids(p))
    ensures r.row.geoid !in Ids(p) ==>
      DropDuplicates(Ids(p + [r])) == DropDuplicates(Ids(p)) + [r.row.geoid]
  {
    IdsSnoc(p, r);
    var ids := Ids(p + [r]);
    assert ids[..|ids| - 1] == Ids(p);
  }

  /** A group the new row does not join keeps its entry. */
  lemma EntryUnaffected(p: seq<ClassedRow>, r: ClassedRow, k: string, e: Entry)
    requires k != r.row.geoid && EntryMatches(p, k, e)
    ensures EntryMatches(p + [r], k, e)
  {
    IdsSnoc(p, r);
    BucketSnoc(p, r, k);
  }

  lemma StepErr(p: seq<ClassedRow>, r: ClassedRow, e: GeoError)
    requires FailsOn(p, e)
    ensures FailsOn(p + [r], e)
  {
    var k :| k in Ids(p) && Reduce(k, Bucket(p, k)) == Err(e);
    IdsSnoc(p, r);
    BucketSnoc(p, r, k);
    ReduceErrorExtends(k, Bucket(p, k), if r.row.geoid == k then [r] else []);
    assert k in Ids(p + [r]);
  }

  lemma StepNew(p: seq<ClassedRow>, r: ClassedRow, acc: Acc)
    requires AccValid(acc) && Matches(p, acc) && r.row.geoid !in acc.entries
    ensures Matches(p + [r], Acc(acc.order + [r.row.geoid], acc.entries[r.row.geoid := Entry(r, 0)]))
  {
    var k0 := r.row.geoid;
    var entries := acc.entries[k0 := Entry(r, 0)];
    assert k0 !in Ids(p);
    DropDuplicatesSnoc(p, r);
    forall k | k in entries ensures EntryMatches(p + [r], k, entries[k]) {
      if k == k0 {
        IdsSnoc(p, r);
        BucketSnoc(p, r, k0);
        assert Bucket(p, k0) == [];
        assert Bucket(p + [r], k0) == [r];
      } else {
        EntryUnaffected(p, r, k, acc.entries[k]);
      }
    }
  }

  /** The group of an entry that has absorbed `collisions` rows has `collisions + 1` rows. */
  lemma GroupOfEntry(p: seq<ClassedRow>, k: string, e: Entry)
    requires EntryMatches(p, k, e)
    ensures |Bucket(p, k)| == e.collisions + 1
    ensures e.collisions == 0 ==> Bucket(p, k) == [e.row]
    ensures e.collisions > 0 ==> |Bucket(p, k)| == 2 && NamesAgree(k, Bucket(p, k)[0], Bucket(p, k)[1])
  {
  }

  lemma StepTriple(p: seq<ClassedRow>, r: ClassedRow, acc: Acc)
    requires AccValid(acc) && Matches(p, acc)
    requires r.row.geoid in acc.entries && acc.entries[r.row.geoid].collisions >= 1
    ensures FailsOn(p + [r], TripleCollision(r.row.geoid))
  {
    var k0 := r.row.geoid;
    assert EntryMatches(p, k0, acc.entries[k0]);
    GroupOfEntry(p, k0, acc.entries[k0]);
    IdsSnoc(p, r);
    BucketSnoc(p, r, k0);
    var b := Bucket(p, k0);
    assert Bucket(p + [r], k0) == b + [r];
    assert (b + [r])[0] == b[0] && (b + [r])[1] == b[1];
    assert Reduce(k0, Bucket(p + [r], k0)) == Err(TripleCollision(k0));
  }

  lemma StepSecond(p: seq<ClassedRow>, r: ClassedRow, first: ClassedRow)
    requires Bucket(p, r.row.geoid) == [first]
    ensures Bucket(p + [r], r.row.geoid) == [first, r]
    ensures r.row.geoid in Ids(p + [r])
  {
    IdsSnoc(p, r);
    BucketSnoc(p, r, r.row.geoid);
    assert [first] + [r] == [first, r];
  }

  lemma MergedEntryMatches(p: seq<ClassedRow>, r: ClassedRow, first: ClassedRow)
    requires Bucket(p, r.row.geoid) == [first] && NamesAgree(r.row.geoid, first, r)
    ensures EntryMatches(p + [r], r.row.geoid, Entry(Merge(first, r), 1))
  {
    StepSecond(p, r, first);
  }

  lemma StepMismatch(p: seq<ClassedRow>, r: ClassedRow, acc: Acc)
    requires AccValid(acc) && Matches(p, acc)
    requires r.row.geoid in acc.entries && acc.entries[r.row.geoid].collisions == 0
    requires !NamesAgree(r.row.geoid, acc.entries[r.row.geoid].row, r)
    ensures FailsOn(p + [r], NameMismatch(r.row.geoid))
  {
    assert EntryMatches(p, r.row.geoid, acc.entries[r.row.geoid]);
    GroupOfEntry(p, r.row.geoid, acc.entries[r.row.geoid]);
    StepSecond(p, r, acc.entries[r.row.geoid].row);
  }

  lemma StepMerge(p: seq<ClassedRow>, r: ClassedRow, acc: Acc)
    requires AccValid(acc) && Matches(p, acc)
    requires r.row.geoid in acc.entries && acc.entries[r.row.geoid].collisions == 0
    requires NamesAgree(r.row.geoid, acc.entries[r.row.geoid].row, r)
    ensures Matches(p + [r], Acc(acc.order, acc.entries[r.row.geoid := Entry(Merge(acc.entries[r.row.geoid].row, r), 1)]))
  {
    var k0 := r.row.geoid;
    var entries := acc.entries[k0 := Entry(Merge(acc.entries[k0].row, r), 1)];
    assert EntryMatches(p, k0, acc.entries[k0]);
    GroupOfEntry(p, k0, acc.entries[k0]);
    assert k0 in Ids(p);
    DropDuplicatesSnoc(p, r);
    forall k | k in entries ensures EntryMatches(p + [r], k, entries[k]) {
      if k == k0 {
        MergedEntryMatches(p, r, acc.entries[k0].row);
      } else {
        EntryUnaffected(p, r, k, acc.entries[k]);
      }
    }
  }

  /** The invariant of the walk in terms of the groups: after any prefix the state matches
      the groups, and a walk that raised did so on a group whose reduction fails with
      that error. */
  lemma {:induction false} CollapseStateMatchesBuckets(rows: seq<ClassedRow>)
    ensures CollapseState(rows).Ok? ==> Matches(rows, CollapseState(rows).value)
    ensures CollapseState(rows).Err? ==> FailsOn(rows, CollapseState(rows).error)
  {
    if rows != [] {
      var p := rows[..|rows| - 1];
      var r := rows[|rows| - 1];
      var k := r.row.geoid;
      assert rows == p + [r];
      CollapseStateMatchesBuckets(p);
      match CollapseState(p)
      case Err(e) =>
        StepErr(p, r, e);
      case Ok(acc) =>
        if k !in acc.entries {
          StepNew(p, r, acc);
        } else if acc.entries[k].collisions >= 1 {
          StepTriple(p, r, acc);
        } else if NamesAgree(k, acc.entries[k].row, r) {
          StepMerge(p, r, acc);
        } else {
          StepMismatch(p, r, acc);
        }
    }
  }

  /** The walk succeeds exactly when every group reduces, and then yields the reduced
      groups in order of first occurrence; when it fails, it fails with the error of a
      group whose reduction fails. */
  lemma CollapseMatchesBuckets(rows: seq<ClassedRow>)
    ensures Collapse(rows).Ok? <==> BucketsMerge(rows)
    ensures Collapse(rows).Ok? ==> Collapse(rows).value == Reference(rows)
    ensures Collapse(rows).Err? ==>
      exists k :: k in Ids(rows) && Reduce(k, Bucket(rows, k)) == Err(Collapse(rows).error)
  {
    CollapseStateMatchesBuckets(rows);
    match CollapseState(rows)
    case Err(e) =>
    case Ok(acc) =>
      var out := Emit(acc);
      assert out == Reference(rows);
  }

  // ---------------------------------------------------------------------------
  // Properties of the merge
  // ---------------------------------------------------------------------------

  /** Rows with one geoid each pass through unmerged (the guard at line 151 skips the walk
      in exactly this case, and the walk would change nothing). */
  lemma NoSharedGeoidPassesThrough(rows: seq<ClassedRow>)
    requires Distinct(Ids(rows))
    ensures Collapse(rows) == Ok(rows)
  {
    CollapseMatchesBuckets(rows);
    UniqueBucketsMerge(rows);
    ReferenceOfUnique(rows);
  }

  lemma UniqueBucketsMerge(rows: seq<ClassedRow>)
    requires Distinct(Ids(rows))
    ensures BucketsMerge(rows)
  {
    forall k | k in Ids(rows) ensures Reduce(k, Bucket(rows, k)).Ok? {
      var i :| 0 <= i < |rows| && Ids(rows)[i] == k;
      BucketOfUnique(rows, i);
    }
  }

  lemma ReferenceOfUnique(rows: seq<ClassedRow>)
    requires Distinct(Ids(rows)) && BucketsMerge(rows)
    ensures Reference(rows) == rows
  {
    DropDuplicatesOfDistinct(Ids(rows));
    var out := Reference(rows);
    forall i | 0 <= i < |rows| ensures out[i] == rows[i] {
      BucketOfUnique(rows, i);
    }
  }

  lemma {:induction false} BucketOfUnique(rows: seq<ClassedRow>, i: nat)
    requires Distinct(Ids(rows)) && i < |rows|
    ensures Bucket(rows, rows[i].row.geoid) == [rows[i]]
  {
    var p := rows[..|rows| - 1];
    var last := rows[|rows| - 1];
    var k := rows[i].row.geoid;
    assert rows == p + [last];
    IdsSnoc(p, last);
    BucketSnoc(p, last, k);
    assert Ids(p) == Ids(rows)[..|rows| - 1];
    if i == |rows| - 1 {
      assert k !in Ids(p);
    } else {
      assert rows[|rows| - 1].row.geoid != k by {
        assert Ids(rows)[|rows| - 1] != Ids(rows)[i];
      }
      assert p[i] == rows[i];
      BucketOfUnique(p, i);
    }
  }

  /** A successful merge leaves no geoid with more than two rows. */
  lemma AtMostTwoPerGeoid(rows: seq<ClassedRow>, k: string)
    requires Collapse(rows).Ok? && k in Ids(rows)
    ensures |Bucket(rows, k)| <= 2
  {
    CollapseMatchesBuckets(rows);
  }

  /** The walk over `p + [r]` is the walk over `p` followed by one step. */
  lemma CollapseStateSnoc(p: seq<ClassedRow>, r: ClassedRow)
    ensures CollapseState(p + [r]) == match CollapseState(p)
      case Err(e) => Err(e)
      case Ok(acc) => Absorb(acc, r)
  {
    assert (p + [r])[..|p|] == p;
  }

  lemma FirstRowState(a: ClassedRow)
    ensures CollapseState([a]) == Ok(Acc([a.row.geoid], map[a.row.geoid := Entry(a, 0)]))
  {
    var k := a.row.geoid;
    assert [a][..0] == [];
    assert CollapseState([a]) == Absorb(Acc([], map[]), a);
    var none: seq<string> := [];
    assert none + [k] == [k];
  }

  /** Two parts of one area become one row: areas added, geometry unioned, class
      `union`, the first-seen name and other fields kept. */
  lemma TwoWayCollision(a: ClassedRow, b: ClassedRow)
    requires a.row.geoid == b.row.geoid && NamesAgree(a.row.geoid, a, b)
    ensures Collapse([a, b]) == Ok([ClassedRow(
      a.row.(aland := a.row.aland + b.row.aland,
             awater := a.row.awater + b.row.awater,
             geometry := a.row.geometry + b.row.geometry),
      Union)])
  {
    var k := a.row.geoid;
    var m := Merge(a, b);
    var acc := Acc([k], map[k := Entry(m, 1)]);
    SecondRowState(a, b);
    assert Emit(acc) == [m] by {
      assert |Emit(acc)| == 1 && Emit(acc)[0] == m;
    }
    assert Collapse([a, b]) == Ok(Emit(acc));
  }

  lemma SecondRowState(a: ClassedRow, b: ClassedRow)
    requires a.row.geoid == b.row.geoid && NamesAgree(a.row.geoid, a, b)
    ensures CollapseState([a, b]) == Ok(Acc([a.row.geoid], map[a.row.geoid := Entry(Merge(a, b), 1)]))
  {
    var k := a.row.geoid;
    assert [a, b][..1] == [a];
    FirstRowState(a);
    assert CollapseState([a, b]) == Absorb(Acc([k], map[k := Entry(a, 0)]), b);
    assert map[k := Entry(a, 0)][k := Entry(Merge(a, b), 1)] == map[k := Entry(Merge(a, b), 1)];
  }

  /** Two parts whose names differ, outside the allow-list, fail the name check. */
  lemma TwoWayNameMismatch(a: ClassedRow, b: ClassedRow)
    requires a.row.geoid == b.row.geoid && !NamesAgree(a.row.geoid, a, b)
    ensures Collapse([a, b]) == Err(NameMismatch(a.row.geoid))
  {
    var k := a.row.geoid;
    assert [a, b][..1] == [a];
    FirstRowState(a);
  }

  /** A third part of the same area is an error. */
  lemma ThreeWayCollision(a: ClassedRow, b: ClassedRow, c: ClassedRow)
    requires a.row.geoid == b.row.geoid == c.row.geoid && NamesAgree(a.row.geoid, a, b)
    ensures Collapse([a, b, c]) == Err(TripleCollision(a.row.geoid))
  {
    SecondRowState(a, b);
    assert [a, b, c] == [a, b] + [c];
    CollapseStateSnoc([a, b], c);
  }

  // ---------------------------------------------------------------------------
  // Nothing is lost: area and geometry are preserved
  // ---------------------------------------------------------------------------

  function LandOf(c: ClassedRow): int { c.row.aland }
  function WaterOf(c: ClassedRow): int { c.row.awater }

  /** The sum of `f` over the rows. */
  function Total(s: seq<ClassedRow>, f: ClassedRow -> int): int
  {
    if s == [] then 0 else Total(s[..|s| - 1], f) + f(s[|s| - 1])
  }

  /** The union of the rows' geometries. */
  function Cover(s: seq<ClassedRow>): Geometry
  {
    if s == [] then {} else Cover(s[..|s| - 1]) + s[|s| - 1].row.geometry
  }

  lemma {:induction false} TotalUpdate(s: seq<ClassedRow>, j: nat, x: ClassedRow, f: ClassedRow -> int)
    requires j < |s|
    ensures Total(s[j := x], f) == Total(s, f) - f(s[j]) + f(x)
  {
    var n := |s| - 1;
    if j < n {
      assert s[j := x][..n] == s[..n][j := x];
      TotalUpdate(s[..n], j, x, f);
    } else {
      assert s[j := x][..n] == s[..n];
    }
  }

  lemma {:induction false} CoverUpdate(s: seq<ClassedRow>, j: nat, x: ClassedRow, extra: Geometry)
    requires j < |s| && x.row.geometry == s[j].row.geometry + extra
    ensures Cover(s[j := x]) == Cover(s) + extra
  {
    var n := |s| - 1;
    if j < n {
      assert s[j := x][..n] == s[..n][j := x];
      CoverUpdate(s[..n], j, x, extra);
    } else {
      assert s[j := x][..n] == s[..n];
    }
  }

  lemma EmitAppend(acc: Acc, r: ClassedRow)
    requires AccValid(acc) && r.row.geoid !in acc.entries
    ensures AccValid(Acc(acc.order + [r.row.geoid], acc.entries[r.row.geoid := Entry(r, 0)]))
    ensures Emit(Acc(acc.order + [r.row.geoid], acc.entries[r.row.geoid := Entry(r, 0)])) == Emit(acc) + [r]
  {
    var k := r.row.geoid;
    assert k !in acc.order;
    var acc' := Acc(acc.order + [k], acc.entries[k := Entry(r, 0)]);
    assert AccValid(acc');
    var e0, e1 := Emit(acc), Emit(acc');
    assert |e1| == |e0| + 1 && e1[|e0|] == r;
    forall i | 0 <= i < |e0| ensures e1[i] == e0[i] {
      assert acc'.order[i] == acc.order[i] != k;
    }
    assert e1 == e0 + [r];
  }

  lemma EmitUpdate(acc: Acc, j: nat, e: Entry)
    requires AccValid(acc) && j < |acc.order| && e.row.row.geoid == acc.order[j]
    ensures AccValid(Acc(acc.order, acc.entries[acc.order[j] := e]))
    ensures Emit(Acc(acc.order, acc.entries[acc.order[j] := e])) == Emit(acc)[j := e.row]
  {
    var acc' := Acc(acc.order, acc.entries[acc.order[j] := e]);
    forall i | 0 <= i < |acc.order| && i != j ensures Emit(acc')[i] == Emit(acc)[i] {
      assert acc.order[i] != acc.order[j];
    }
  }

  /** Absorbing a row adds its areas and its geometry to the emitted rows. */
  lemma AbsorbPreserves(acc: Acc, r: ClassedRow)
    requires AccValid(acc) && Absorb(acc, r).Ok?
    ensures Total(Emit(Absorb(acc, r).value), LandOf) == Total(Emit(acc), LandOf) + LandOf(r)
    ensures Total(Emit(Absorb(acc, r).value), WaterOf) == Total(Emit(acc), WaterOf) + WaterOf(r)
    ensures Cover(Emit(Absorb(acc, r).value)) == Cover(Emit(acc)) + r.row.geometry
  {
    if r.row.geoid !in acc.entries {
      AbsorbNewPreserves(acc, r);
    } else {
      AbsorbMergePreserves(acc, r);
    }
  }

  lemma AbsorbNewPreserves(acc: Acc, r: ClassedRow)
    requires AccValid(acc) && r.row.geoid !in acc.entries
    ensures AccValid(Acc(acc.order + [r.row.geoid], acc.entries[r.row.geoid := Entry(r, 0)]))
    ensures
      var out := Emit(Acc(acc.order + [r.row.geoid], acc.entries[r.row.geoid := Entry(r, 0)]));
      && Total(out, LandOf) == Total(Emit(acc), LandOf) + LandOf(r)
      && Total(out, WaterOf) == Total(Emit(acc), WaterOf) + WaterOf(r)
      && Cover(out) == Cover(Emit(acc)) + r.row.geometry
  {
    EmitAppend(acc, r);
    var out := Emit(acc) + [r];
    assert out[..|out| - 1] == Emit(acc);
  }

  lemma AbsorbMergePreserves(acc: Acc, r: ClassedRow)
    requires AccValid(acc) && r.row.geoid in acc.entries
    ensures
      var e := acc.entries[r.row.geoid];
      var acc' := Acc(acc.order, acc.entries[r.row.geoid := Entry(Merge(e.row, r), e.collisions + 1)]);
      && AccValid(acc')
      && Total(Emit(acc'), LandOf) == Total(Emit(acc), LandOf) + LandOf(r)
      && Total(Emit(acc'), WaterOf) == Total(Emit(acc), WaterOf) + WaterOf(r)
      && Cover(Emit(acc')) == Cover(Emit(acc)) + r.row.geometry
  {
    var k := r.row.geoid;
    var e := acc.entries[k];
    var j := FirstIndex(acc.order, k);
    var acc' := Acc(acc.order, acc.entries[k := Entry(Merge(e.row, r), e.collisions + 1)]);
    EmitUpdate(acc, j, Entry(Merge(e.row, r), e.collisions + 1));
    assert Emit(acc') == Emit(acc)[j := Merge(Emit(acc)[j], r)];
    MergeInPlacePreserves(Emit(acc), j, r);
  }

  /** Merging a row into position `j` adds its areas and geometry to the totals. */
  lemma MergeInPlacePreserves(s: seq<ClassedRow>, j: nat, r: ClassedRow)
    requires j < |s|
    ensures Total(s[j := Merge(s[j], r)], LandOf) == Total(s, LandOf) + LandOf(r)
    ensures Total(s[j := Merge(s[j], r)], WaterOf) == Total(s, WaterOf) + WaterOf(r)
    ensures Cover(s[j := Merge(s[j], r)]) == Cover(s) + r.row.geometry
  {
    var merged := Merge(s[j], r);
    TotalUpdate(s, j, merged, LandOf);
    TotalUpdate(s, j, merged, WaterOf);
    CoverUpdate(s, j, merged, r.row.geometry);
  }

  /** The walk never drops area or geometry: the merged rows have the same total land
      and water area and cover the same polygons as the input rows. */
  lemma {:induction false} CollapseStatePreserves(rows: seq<ClassedRow>)
    requires CollapseState(rows).Ok?
    ensures Total(Emit(CollapseState(rows).value), LandOf) == Total(rows, LandOf)
    ensures Total(Emit(CollapseState(rows).value), WaterOf) == Total(rows, WaterOf)
    ensures Cover(Emit(CollapseState(rows).value)) == Cover(rows)
  {
    if rows != [] {
      var p := rows[..|rows| - 1];
      var r := rows[|rows| - 1];
      CollapseStatePreserves(p);
      AbsorbPreserves(CollapseState(p).value, r);
    }
  }

  lemma CollapsePreservesAreaAndGeometry(rows: seq<ClassedRow>)
    requires Collapse(rows).Ok?
    ensures Total(Collapse(rows).value, LandOf) == Total(rows, LandOf)
    ensures Total(Collapse(rows).value, WaterOf) == Total(rows, WaterOf)
    ensures Cover(Collapse(rows).value) == Cover(rows)
  {
    CollapseStatePreserves(rows);
  }
}
