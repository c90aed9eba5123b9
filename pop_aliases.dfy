/** The alias table of a column set (load_test_pop.py:113-116): every alias of every
    column of the set maps to its column, a later column taking over an alias an earlier
    one also lists. */
module ColumnAliases {

  /** A column of the database's column set: its path and the aliases it is known by. */
  datatype ColumnRef = ColumnRef(path: string, aliases: seq<string>)

  /** The inner loop: the aliases of one column written into `m`, one after another. */
  function AddAliases(m: map<string, ColumnRef>, col: ColumnRef, aliases: seq<string>): map<string, ColumnRef>
  {
    if aliases == [] then m
    else AddAliases(m, col, aliases[..|aliases| - 1])[aliases[|aliases| - 1] := col]
  }

  /** The outer loop over the columns of the set, in order. */
  function AliasMap(cols: seq<ColumnRef>): map<string, ColumnRef>
  {
    if cols == [] then map[]
    else AddAliases(AliasMap(cols[..|cols| - 1]), cols[|cols| - 1], cols[|cols| - 1].aliases)
  }

  /** The nested loop of load_test_pop.py:113-116, writing each alias into the table. */
  method BuildAliasMap(cols: seq<ColumnRef>) returns (m: map<string, ColumnRef>)
    ensures m == AliasMap(cols)
  {
    m := map[];
    var i := 0;
    while i < |cols|
      invariant 0 <= i <= |cols|
      invariant m == AliasMap(cols[..i])
    {
      var col := cols[i];
      var j := 0;
      while j < |col.aliases|
        invariant 0 <= j <= |col.aliases|
        invariant m == AddAliases(AliasMap(cols[..i]), col, col.aliases[..j])
      {
        assert col.aliases[..j + 1][..j] == col.aliases[..j];
        m := m[col.aliases[j] := col];
        j := j + 1;
      }
      assert col.aliases[..j] == col.aliases;
      assert cols[..i + 1][..i] == cols[..i];
      i := i + 1;
    }
    assert cols[..i] == cols;
  }

  /** Writing one column's aliases: those aliases now name the column, every other key
      is left as it was. */
  lemma {:induction false} AddAliasesSpec(m: map<string, ColumnRef>, col: ColumnRef, aliases: seq<string>, a: string)
    ensures a in AddAliases(m, col, aliases) <==> a in m || a in aliases
    ensures a in aliases ==> AddAliases(m, col, aliases)[a] == col
    ensures a !in aliases && a in m ==> AddAliases(m, col, aliases)[a] == m[a]
  {
    if aliases != [] {
      var init := aliases[..|aliases| - 1];
      AddAliasesSpec(m, col, init, a);
      assert aliases == init + [aliases[|aliases| - 1]];
    }
  }

  /** Column `i` lists alias `a` and no later column does. */
  predicate LastListing(cols: seq<ColumnRef>, a: string, i: int)
  {
    0 <= i < |cols| && a in cols[i].aliases && forall j :: i < j < |cols| ==> a !in cols[j].aliases
  }

  /** The keys of the table are exactly the aliases of the set, and each alias maps to the
      last column that lists it. */
  lemma {:induction false} AliasMapSpec(cols: seq<ColumnRef>, a: string)
    ensures a in AliasMap(cols) <==> exists i :: 0 <= i < |cols| && a in cols[i].aliases
    ensures a in AliasMap(cols) ==> exists i :: LastListing(cols, a, i) && AliasMap(cols)[a] == cols[i]
  {
    if cols != [] {
      var n := |cols| - 1;
      var init := cols[..n];
      AliasMapSpec(init, a);
      AddAliasesSpec(AliasMap(init), cols[n], cols[n].aliases, a);
      assert forall i :: 0 <= i < n ==> init[i] == cols[i];
      if a in cols[n].aliases {
        assert LastListing(cols, a, n);
      } else {
        if a in AliasMap(cols) {
          var i :| LastListing(init, a, i) && AliasMap(init)[a] == init[i];
          assert LastListing(cols, a, i);
        }
        if exists i :: 0 <= i < |cols| && a in cols[i].aliases {
          var i :| 0 <= i < |cols| && a in cols[i].aliases;
          assert i < n && a in init[i].aliases;
        }
      }
    }
  }

  /** An alias claimed by one column only maps to that column, whatever comes around it. */
  lemma UniqueAliasMapsToItsColumn(before: seq<ColumnRef>, col: ColumnRef, after: seq<ColumnRef>, a: string)
    requires a in col.aliases
    requires forall j :: 0 <= j < |after| ==> a !in after[j].aliases
    ensures a in AliasMap(before + [col] + after) && AliasMap(before + [col] + after)[a] == col
  {
    var cols := before + [col] + after;
    AliasMapSpec(cols, a);
    assert a in cols[|before|].aliases;
    var i :| LastListing(cols, a, i) && AliasMap(cols)[a] == cols[i];
  }
}
