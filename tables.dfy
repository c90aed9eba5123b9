/** Cells, the string-cell sanitizer, `drop_duplicates` and the missing-dataset entries,
    shared by both loaders. */
module Tables {
  import opened Wrappers
  import opened Text

  /** An entry of the list of datasets the Census did not publish: a state code (the
      population loader may be called without one), a level and a year. */
  datatype MissingDataset = MissingDataset(fips: Option<string>, level: string, year: string)

  /** A table cell: a string or an integer (geometry is kept in its own field). */
  datatype Cell = Str(s: string) | Num(n: int)

  /** A cell that cannot break a hierarchical path. */
  predicate SlashFree(c: Cell)
  {
    c.Str? ==> '/' !in c.s
  }

  /** The `applymap` lambda: strings have each '/' escaped, anything else is returned as is. */
  function SanitizeCell(c: Cell): (r: Cell)
    ensures SlashFree(r)
    ensures c.Num? ==> r == c
    ensures c.Str? ==> r == Str(EscapeSlashes(c.s))
    ensures c.Str? ==> r.Str? && ('-' !in c.s ==> UnescapeSlashes(r.s) == c.s)
    ensures SlashFree(c) ==> r == c
  {
    match c
    case Str(s) =>
      EscapeFixesSlashFree(s);
      UnescapeEscape(s);
      Str(EscapeSlashes(s))
    case Num(_) => c
  }

  function SanitizeCells(cs: seq<Cell>): (r: seq<Cell>)
    ensures |r| == |cs|
    ensures forall k :: 0 <= k < |cs| ==> r[k] == SanitizeCell(cs[k])
  {
    seq(|cs|, k requires 0 <= k < |cs| => SanitizeCell(cs[k]))
  }

  // ---------------------------------------------------------------------------
  // drop_duplicates
  // ---------------------------------------------------------------------------

  predicate Distinct<T(==)>(xs: seq<T>)
  {
    forall i, j :: 0 <= i < j < |xs| ==> xs[i] != xs[j]
  }

  /** `drop_duplicates()` with its default `keep="first"`: a row is dropped when an
      identical row came before it. */
  function DropDuplicates<T(==,!new)>(xs: seq<T>): (r: seq<T>)
    ensures Distinct(r)
    ensures forall x :: x in r <==> x in xs
    ensures |r| <= |xs|
  {
    if xs == [] then []
    else
      var p := DropDuplicates(xs[..|xs| - 1]);
      var last := xs[|xs| - 1];
      assert xs == xs[..|xs| - 1] + [last];
      if last in p then p else p + [last]
  }

  /** The position at which `x` first occurs in `xs`. */
  function FirstIndex<T(==)>(xs: seq<T>, x: T): (i: nat)
    requires x in xs
    ensures i < |xs| && xs[i] == x && x !in xs[..i]
  {
    if xs[0] == x then 0
    else
      var i := FirstIndex(xs[1..], x);
      assert xs[..i + 1] == [xs[0]] + xs[1..][..i];
      i + 1
  }

  lemma {:induction false} FirstIndexInPrefix<T>(p: seq<T>, q: seq<T>, x: T)
    requires x in p
    ensures FirstIndex(p + q, x) == FirstIndex(p, x)
  {
    assert (p + q)[0] == p[0];
    if p[0] != x {
      assert (p + q)[1..] == p[1..] + q;
      FirstIndexInPrefix(p[1..], q, x);
    }
  }

  lemma {:induction false} FirstIndexOfNew<T>(p: seq<T>, x: T)
    requires x !in p
    ensures FirstIndex(p + [x], x) == |p|
  {
    if p != [] {
      assert (p + [x])[0] == p[0];
      assert (p + [x])[1..] == p[1..] + [x];
      FirstIndexOfNew(p[1..], x);
    }
  }

  /** The survivors of `drop_duplicates` keep the order of their first occurrences. */
  lemma {:induction false} DropDuplicatesKeepsFirstOccurrenceOrder<T(!new)>(xs: seq<T>)
    ensures forall i, j :: 0 <= i < j < |DropDuplicates(xs)| ==>
      FirstIndex(xs, DropDuplicates(xs)[i]) < FirstIndex(xs, DropDuplicates(xs)[j])
  {
    if xs != [] {
      var p := xs[..|xs| - 1];
      var last := xs[|xs| - 1];
      assert xs == p + [last];
      DropDuplicatesKeepsFirstOccurrenceOrder(p);
      var rp := DropDuplicates(p);
      var r := DropDuplicates(xs);
      forall k | k in rp ensures FirstIndex(xs, k) == FirstIndex(p, k) {
        FirstIndexInPrefix(p, [last], k);
      }
      if last !in rp {
        assert r == rp + [last];
        FirstIndexOfNew(p, last);
        forall i, j | 0 <= i < j < |r|
          ensures FirstIndex(xs, r[i]) < FirstIndex(xs, r[j])
        {
          assert r[i] == rp[i] && r[i] in rp;
          if j < |rp| {
            assert r[j] == rp[j] && r[j] in rp;
          }
        }
      } else {
        assert r == rp;
        forall i, j | 0 <= i < j < |r|
          ensures FirstIndex(xs, r[i]) < FirstIndex(xs, r[j])
        {
          assert r[i] in rp && r[j] in rp;
        }
      }
    }
  }

  /** Without duplicates nothing is dropped. */
  lemma {:induction false} DropDuplicatesOfDistinct<T(!new)>(xs: seq<T>)
    requires Distinct(xs)
    ensures DropDuplicates(xs) == xs
  {
    if xs != [] {
      var p := xs[..|xs| - 1];
      assert Distinct(p);
      DropDuplicatesOfDistinct(p);
      assert xs[|xs| - 1] !in p;
      assert xs == p + [xs[|xs| - 1]];
    }
  }

  /** Dropping duplicates twice is dropping them once. */
  lemma DropDuplicatesIdempotent<T(!new)>(xs: seq<T>)
    ensures DropDuplicates(DropDuplicates(xs)) == DropDuplicates(xs)
  {
    DropDuplicatesOfDistinct(DropDuplicates(xs));
  }

  /** The reported count `n_rows - len(result)` is zero exactly when no row repeats. */
  lemma DroppedCountZero<T(!new)>(xs: seq<T>)
    ensures |xs| - |DropDuplicates(xs)| == 0 <==> Distinct(xs)
  {
    if Distinct(xs) {
      DropDuplicatesOfDistinct(xs);
    } else {
      var r := DropDuplicates(xs);
      if |r| == |xs| {
        var i, j :| 0 <= i < j < |xs| && xs[i] == xs[j];
        DistinctSubsetShorter(r, xs, i, j);
      }
    }
  }

  /** A duplicate-free sequence whose elements all occur in `xs` is shorter than `xs`
      when `xs` repeats an element. */
  lemma DistinctSubsetShorter<T>(r: seq<T>, xs: seq<T>, i: nat, j: nat)
    requires Distinct(r)
    requires forall x :: x in r ==> x in xs
    requires 0 <= i < j < |xs| && xs[i] == xs[j]
    ensures |r| < |xs|
  {
    DistinctCard(r);
    SubsetCard(set x | x in r, set x | x in xs);
    DuplicateShrinksSet(xs, i, j);
  }

  lemma SubsetCard<T>(a: set<T>, b: set<T>)
    requires a <= b
    ensures |a| <= |b|
  {
    assert b == a + (b - a);
  }

  /** A sequence with a repeated element has fewer distinct elements than positions. */
  lemma DuplicateShrinksSet<T>(xs: seq<T>, i: nat, j: nat)
    requires 0 <= i < j < |xs| && xs[i] == xs[j]
    ensures |set x | x in xs| < |xs|
  {
    var rest := xs[..j] + xs[j + 1..];
    assert (set x | x in xs) == set x | x in rest by {
      assert xs == xs[..j] + [xs[j]] + xs[j + 1..];
      assert xs[j] == rest[i];
    }
    SetOfSeqBound(rest);
  }

  lemma {:induction false} DistinctCard<T>(r: seq<T>)
    requires Distinct(r)
    ensures |set x | x in r| == |r|
  {
    if r != [] {
      var p := r[..|r| - 1];
      assert Distinct(p);
      DistinctCard(p);
      assert r == p + [r[|r| - 1]];
      assert (set x | x in r) == (set x | x in p) + {r[|r| - 1]};
    }
  }

  lemma {:induction false} SetOfSeqBound<T>(r: seq<T>)
    ensures |set x | x in r| <= |r|
  {
    if r != [] {
      var p := r[..|r| - 1];
      SetOfSeqBound(p);
      assert r == p + [r[|r| - 1]];
      assert (set x | x in r) == (set x | x in p) + {r[|r| - 1]};
    }
  }
}
