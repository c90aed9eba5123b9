/** The string operations the loaders rely on: the path-separator escape, Python's
    `str.rstrip`, `str.lower` (on ASCII letters), `str.split` and `os.path.basename`. */
module Text {

  // ---------------------------------------------------------------------------
  // The '/' escape applied to every string cell.
  // ---------------------------------------------------------------------------

  /** `s.replace("/", "--")`: every path separator becomes the two-character escape. */
  function EscapeSlashes(s: string): (r: string)
    ensures '/' !in r
    ensures |r| == |s| + multiset(s)['/']
  {
    if s == [] then []
    else
      assert s == [s[0]] + s[1..];
      (if s[0] == '/' then "--" else [s[0]]) + EscapeSlashes(s[1..])
  }

  /** The escape works character by character, so it distributes over concatenation. */
  lemma {:induction false} EscapeConcat(a: string, b: string)
    ensures EscapeSlashes(a + b) == EscapeSlashes(a) + EscapeSlashes(b)
  {
    if a == [] {
      assert a + b == b;
    } else {
      var ab := a + b;
      assert ab[0] == a[0] && ab[1..] == a[1..] + b;
      var head := if a[0] == '/' then "--" else [a[0]];
      assert EscapeSlashes(ab) == head + EscapeSlashes(ab[1..]);
      EscapeConcat(a[1..], b);
    }
  }

  /** A string is left alone exactly when it holds no separator. */
  lemma {:induction false} EscapeFixesSlashFree(s: string)
    ensures EscapeSlashes(s) == s <==> '/' !in s
  {
    if s != [] && '/' !in s {
      assert '/' !in s[1..];
      EscapeFixesSlashFree(s[1..]);
    }
  }

  /** Escaping twice is escaping once. */
  lemma EscapeIdempotent(s: string)
    ensures EscapeSlashes(EscapeSlashes(s)) == EscapeSlashes(s)
  {
    EscapeFixesSlashFree(EscapeSlashes(s));
  }

  /** The escape is not injective: a '/' and a "--" in the same place escape alike, so two
      strings that differ only there become equal. */
  lemma EscapeMergesSeparators(a: string, b: string)
    ensures a + "/" + b != a + "--" + b
    ensures EscapeSlashes(a + "/" + b) == EscapeSlashes(a + "--" + b)
  {
    var slash, dashes := EscapeSlashes("/"), EscapeSlashes("--");
    assert slash == dashes by { EscapeOfSeparators(); }
    EscapeConcat(a + "/", b);
    EscapeConcat(a, "/");
    EscapeConcat(a + "--", b);
    EscapeConcat(a, "--");
    assert |a + "/" + b| == |a| + |b| + 1;
    assert |a + "--" + b| == |a| + |b| + 2;
  }

  lemma EscapeOfSeparators()
    ensures EscapeSlashes("/") == "--" && EscapeSlashes("--") == "--"
  {
    assert "/"[1..] == [];
    EscapeFixesSlashFree("--");
  }

  /** Reads each "--" back as '/'. */
  function UnescapeSlashes(s: string): string
  {
    if s == [] then []
    else if |s| >= 2 && s[0] == '-' && s[1] == '-' then "/" + UnescapeSlashes(s[2..])
    else [s[0]] + UnescapeSlashes(s[1..])
  }

  /** On strings that hold no '-' of their own the escape loses nothing. */
  lemma {:induction false} UnescapeEscape(s: string)
    ensures '-' !in s ==> UnescapeSlashes(EscapeSlashes(s)) == s
  {
    if s != [] && '-' !in s {
      assert '-' !in s[1..];
      UnescapeEscape(s[1..]);
      var rest := EscapeSlashes(s[1..]);
      assert s == [s[0]] + s[1..];
      if s[0] == '/' {
        var e := "--" + rest;
        assert EscapeSlashes(s) == e;
        assert e[2..] == rest;
        assert UnescapeSlashes(e) == "/" + UnescapeSlashes(rest);
      } else {
        var e := [s[0]] + rest;
        assert EscapeSlashes(s) == e;
        assert e[1..] == rest && e[0] == s[0] != '-';
        assert UnescapeSlashes(e) == [s[0]] + UnescapeSlashes(rest);
      }
    }
  }

  // ---------------------------------------------------------------------------
  // str.rstrip(chars)
  // ---------------------------------------------------------------------------

  /** `s.rstrip(chars)`: removes EVERY trailing character that is in `chars`.
      The three ensures determine the result uniquely. */
  function RStrip(s: string, chars: set<char>): (r: string)
    ensures |r| <= |s| && r == s[..|r|]
    ensures forall k :: |r| <= k < |s| ==> s[k] in chars
    ensures |r| == 0 || r[|r| - 1] !in chars
  {
    if |s| > 0 && s[|s| - 1] in chars then RStrip(s[..|s| - 1], chars) else s
  }

  /** Stripping after a suffix made only of stripped characters is stripping the base. */
  lemma {:induction false} RStripSuffix(base: string, suffix: string, chars: set<char>)
    requires |base| == 0 || base[|base| - 1] !in chars
    requires forall k :: 0 <= k < |suffix| ==> suffix[k] in chars
    ensures RStrip(base + suffix, chars) == base
  {
    if suffix == [] {
      assert base + suffix == base;
    } else {
      var shorter := suffix[..|suffix| - 1];
      assert (base + suffix)[..|base + suffix| - 1] == base + shorter;
      RStripSuffix(base, shorter, chars);
    }
  }

  // ---------------------------------------------------------------------------
  // str.lower() on ASCII letters
  // ---------------------------------------------------------------------------

  function LowerChar(c: char): char
  {
    if 'A' <= c <= 'Z' then (c as int - 'A' as int + 'a' as int) as char else c
  }

  predicate IsUpper(c: char)
  {
    'A' <= c <= 'Z'
  }

  /** `s.lower()`: each upper-case letter becomes lower-case, all else is kept. */
  function Lower(s: string): (r: string)
    ensures |r| == |s|
    ensures forall k :: 0 <= k < |s| ==> !IsUpper(r[k])
    ensures forall k :: 0 <= k < |s| ==> !IsUpper(s[k]) ==> r[k] == s[k]
    ensures forall k :: 0 <= k < |s| ==> IsUpper(s[k]) ==>
      'a' <= r[k] <= 'z' && r[k] as int - 'a' as int == s[k] as int - 'A' as int
  {
    seq(|s|, k requires 0 <= k < |s| => LowerChar(s[k]))
  }

  /** Lowering is idempotent. */
  lemma LowerIdempotent(s: string)
    ensures Lower(Lower(s)) == Lower(s)
  {
  }

  // ---------------------------------------------------------------------------
  // str.split(sep), str.join and os.path.basename
  // ---------------------------------------------------------------------------

  predicate OccursAt(s: string, sep: string, i: nat)
  {
    i + |sep| <= |s| && s[i..i + |sep|] == sep
  }

  /** The first index at which `sep` occurs in `s`, or `|s|` when it does not occur. */
  function Find(s: string, sep: string): (i: nat)
    requires |sep| > 0
    ensures i <= |s|
    ensures i < |s| ==> OccursAt(s, sep, i)
    ensures forall j :: 0 <= j < i ==> !OccursAt(s, sep, j)
    decreases |s|
  {
    if |s| < |sep| then |s|
    else if s[..|sep|] == sep then 0
    else
      var i := Find(s[1..], sep);
      assert forall j :: 1 <= j < 1 + i ==> !OccursAt(s, sep, j) by {
        forall j | 1 <= j < 1 + i ensures !OccursAt(s, sep, j) {
          assert !OccursAt(s[1..], sep, j - 1);
          assert j + |sep| <= |s| ==> s[1..][j - 1..j - 1 + |sep|] == s[j..j + |sep|];
        }
      }
      assert i < |s[1..]| ==> s[1..][i..i + |sep|] == s[i + 1..i + 1 + |sep|];
      1 + i
  }

  /** `s.split(sep)`: the pieces between the non-overlapping occurrences of `sep`,
      taken from left to right. */
  function Split(s: string, sep: string): (parts: seq<string>)
    requires |sep| > 0
    ensures |parts| >= 1
    decreases |s|
  {
    var i := Find(s, sep);
    if i == |s| then [s] else [s[..i]] + Split(s[i + |sep|..], sep)
  }

  /** No piece of a split holds the separator: each is cut at the first occurrence. */
  lemma {:induction false} SplitPiecesAvoidSeparator(s: string, sep: string, k: nat, j: nat)
    requires |sep| > 0 && k < |Split(s, sep)|
    ensures !OccursAt(Split(s, sep)[k], sep, j)
    decreases |s|
  {
    var i := Find(s, sep);
    if i < |s| {
      SplitAtFirst(s, sep);
      if k == 0 {
        var head := s[..i];
        if OccursAt(head, sep, j) {
          assert head[j..j + |sep|] == s[j..j + |sep|];
          assert OccursAt(s, sep, j);
        }
      } else {
        SplitPiecesAvoidSeparator(s[i + |sep|..], sep, k - 1, j);
      }
    }
  }

  /** `sep.join(parts)`. */
  function Join(parts: seq<string>, sep: string): string
  {
    if |parts| == 0 then ""
    else if |parts| == 1 then parts[0]
    else parts[0] + sep + Join(parts[1..], sep)
  }

  /** Joining the pieces of a split with the same separator gives back the string. */
  lemma {:induction false} JoinSplit(s: string, sep: string)
    requires |sep| > 0
    ensures Join(Split(s, sep), sep) == s
    decreases |s|
  {
    var i := Find(s, sep);
    if i < |s| {
      var head := s[..i];
      var tail := s[i + |sep|..];
      JoinSplit(tail, sep);
      SplitAtFirst(s, sep);
      JoinCons(head, Split(tail, sep), sep);
    }
  }

  /** Where `sep` first occurs, the string is the piece before it, `sep` and the rest. */
  lemma SplitAtFirst(s: string, sep: string)
    requires |sep| > 0 && Find(s, sep) < |s|
    ensures Split(s, sep) == [s[..Find(s, sep)]] + Split(s[Find(s, sep) + |sep|..], sep)
    ensures s == s[..Find(s, sep)] + sep + s[Find(s, sep) + |sep|..]
  {
    var i := Find(s, sep);
    assert s[i..i + |sep|] == sep;
    assert s == s[..i] + s[i..i + |sep|] + s[i + |sep|..];
  }

  lemma JoinCons(head: string, rest: seq<string>, sep: string)
    requires |rest| >= 1
    ensures Join([head] + rest, sep) == head + sep + Join(rest, sep)
  {
    assert ([head] + rest)[1..] == rest;
  }

  /** No character of `s` is one of `chars`. */
  predicate Avoids(s: string, chars: string)
  {
    forall k :: 0 <= k < |s| ==> s[k] !in chars
  }

  lemma AvoidsConcat(a: string, b: string, chars: string)
    ensures Avoids(a + b, chars) <==> Avoids(a, chars) && Avoids(b, chars)
  {
    if Avoids(a + b, chars) {
      forall k | 0 <= k < |b| ensures b[k] !in chars {
        assert (a + b)[|a| + k] == b[k];
      }
      forall k | 0 <= k < |a| ensures a[k] !in chars {
        assert (a + b)[k] == a[k];
      }
    }
  }

  lemma AvoidsWeaken(s: string, chars: string, fewer: string)
    requires Avoids(s, chars) && forall c :: c in fewer ==> c in chars
    ensures Avoids(s, fewer)
  {
  }

  /** A string holding no character of `sep` splits into itself alone. */
  lemma SplitWithoutSeparator(s: string, sep: string)
    requires |sep| > 0
    requires Avoids(s, sep)
    ensures Split(s, sep) == [s]
  {
    forall j | 0 <= j < |s| ensures !OccursAt(s, sep, j) {
      assert j + |sep| <= |s| ==> s[j..j + |sep|][0] == s[j];
    }
  }

  /** Splitting `a + sep + b`, where `a` holds no character of `sep`, yields `a` first. */
  lemma SplitAfterField(a: string, sep: string, b: string)
    requires |sep| > 0
    requires Avoids(a, sep)
    ensures Split(a + sep + b, sep) == [a] + Split(b, sep)
  {
    var s := a + sep + b;
    assert OccursAt(s, sep, |a|) by {
      assert s[|a|..|a| + |sep|] == sep;
    }
    forall j | 0 <= j < |a| ensures !OccursAt(s, sep, j) {
      assert j + |sep| <= |s| ==> s[j..j + |sep|][0] == s[j] == a[j];
    }
    var i := Find(s, sep);
    assert i == |a|;
    assert s[..i] == a;
    assert s[i + |sep|..] == b;
  }

  /** `os.path.basename(p)`: what follows the last '/'. */
  function Basename(p: string): (r: string)
    ensures '/' !in r
  {
    if p == [] || p[|p| - 1] == '/' then []
    else Basename(p[..|p| - 1]) + [p[|p| - 1]]
  }

  /** A directory part is dropped, whatever it holds. */
  lemma {:induction false} BasenameAfterDirectory(dir: string, name: string)
    requires '/' !in name
    ensures Basename(dir + "/" + name) == name
    ensures Basename(name) == name
  {
    if name != [] {
      var init := name[..|name| - 1];
      assert (dir + "/" + name)[..|dir + "/" + name| - 1] == dir + "/" + init;
      assert name[..|name| - 1] == init;
      assert '/' !in init by {
        forall k | 0 <= k < |init| ensures init[k] != '/' {
          assert init[k] == name[k];
        }
      }
      BasenameAfterDirectory(dir, init);
      assert init + [name[|name| - 1]] == name;
    } else {
      assert dir + "/" + name == dir + "/";
    }
  }
}
