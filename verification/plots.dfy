/** The chart files of `plot_indicative_rate_by_date`: one PNG per distinct
    indexador of the grouped table, except the early-matured bonds. The
    grouping, the mean and the drawing are outside the model; what is modelled
    is which file names are written and which are returned. */
module Plots {
  import opened Text
  import opened Indexador

  predicate NoDuplicates(s: seq<string>)
  {
    forall i, j :: 0 <= i < j < |s| ==> s[i] != s[j]
  }

  /** `Series.unique()`: every value once, in order of first appearance. */
  function Distinct(s: seq<string>): (r: seq<string>)
    ensures forall x :: x in r <==> x in s
    ensures NoDuplicates(r)
  {
    if s == [] then []
    else
      var n := |s| - 1;
      var seen := Distinct(s[..n]);
      assert forall x :: x in s <==> x in s[..n] || x == s[n];
      if s[n] in seen then seen else seen + [s[n]]
  }

  /** The position where `x` first appears in `s`. */
  function FirstIndex(s: seq<string>, x: string): (k: nat)
    requires x in s
    ensures k < |s| && s[k] == x && x !in s[..k]
  {
    if s[0] == x then 0
    else
      var k := FirstIndex(s[1..], x);
      assert s[..k + 1] == [s[0]] + s[1..][..k];
      k + 1
  }

  /** Any position where `x` appears for the first time is `FirstIndex`. */
  lemma FirstIndexUnique(s: seq<string>, x: string, k: int)
    requires 0 <= k < |s| && s[k] == x && x !in s[..k]
    ensures FirstIndex(s, x) == k
  {
  }

  /** The first appearance of a value of the prefix `s[..n]` is the same in `s`. */
  lemma FirstIndexInPrefix(s: seq<string>, n: int, x: string)
    requires 0 <= n <= |s| && x in s[..n]
    ensures FirstIndex(s, x) == FirstIndex(s[..n], x) < n
  {
    var k := FirstIndex(s[..n], x);
    assert s[..n][..k] == s[..k];
    FirstIndexUnique(s, x, k);
  }

  /** `Distinct` either keeps the list of the prefix or appends the last value. */
  lemma DistinctLast(s: seq<string>)
    requires s != []
    ensures var n := |s| - 1;
      Distinct(s) == Distinct(s[..n]) + (if s[n] in s[..n] then [] else [s[n]])
  {
    var n := |s| - 1;
    if s[n] in s[..n] {
      assert Distinct(s[..n]) + [] == Distinct(s[..n]);
    }
  }

  /** `unique()` lists the values in the order they first appear. */
  lemma {:induction false} DistinctKeepsFirstAppearanceOrder(s: seq<string>, i: int, j: int)
    requires 0 <= i < j < |Distinct(s)|
    ensures FirstIndex(s, Distinct(s)[i]) < FirstIndex(s, Distinct(s)[j])
  {
    var n := |s| - 1;
    var prefix := s[..n];
    var seen := Distinct(prefix);
    DistinctLast(s);
    var x, y := Distinct(s)[i], Distinct(s)[j];
    assert x == seen[i] && x in prefix;
    FirstIndexInPrefix(s, n, x);
    if j < |seen| {
      assert y == seen[j] && y in prefix;
      DistinctKeepsFirstAppearanceOrder(prefix, i, j);
      FirstIndexInPrefix(s, n, y);
    } else {
      assert y == s[n] && y !in prefix;
      FirstIndexUnique(s, y, n);
    }
  }

  /** `f'indicative_rate_{indexador.replace(" ", "_")}.png'`. */
  function PlotFileName(indexador: string): (name: string)
    ensures |name| == |indexador| + 20
    ensures ' ' !in name
  {
    var name := "indicative_rate_" + ReplaceChar(indexador, ' ', '_') + ".png";
    assert forall i :: 0 <= i < |name| ==> name[i] != ' ';
    name
  }

  /** The list comprehension of the return statement. */
  function PlotNames(indexadores: seq<string>): (names: seq<string>)
    ensures |names| <= |indexadores|
    ensures forall x :: x in names <==>
      exists k :: 0 <= k < |indexadores| && indexadores[k] != MaturedEarly && x == PlotFileName(indexadores[k])
  {
    if indexadores == [] then []
    else
      var n := |indexadores| - 1;
      var prefix := indexadores[..n];
      var done := PlotNames(prefix);
      assert forall k :: 0 <= k < n ==> prefix[k] == indexadores[k];
      var last := if indexadores[n] == MaturedEarly then [] else [PlotFileName(indexadores[n])];
      forall x | x in done + last
        ensures exists k :: 0 <= k < |indexadores| && indexadores[k] != MaturedEarly && x == PlotFileName(indexadores[k])
      {
        if x !in last {
          var k :| 0 <= k < n && prefix[k] != MaturedEarly && x == PlotFileName(prefix[k]);
          assert indexadores[k] != MaturedEarly && x == PlotFileName(indexadores[k]);
        }
      }
      done + last
  }

  /** The names of the charts `plot_indicative_rate_by_date` saves, in order,
      for the `Indexador` column of the grouped table. */
  function PlotFileNames(indexadorColumn: seq<string>): (names: seq<string>)
    ensures forall x :: x in names <==>
      exists c :: c in indexadorColumn && c != MaturedEarly && x == PlotFileName(c)
  {
    PlotNames(Distinct(indexadorColumn))
  }

  /** The loop over `indexadores`: the file each iteration saves, in order, and
      the list the function returns. */
  method PlotIndicativeRateByDate(indexadorColumn: seq<string>) returns (saved: seq<string>, returned: seq<string>)
    ensures saved == returned
    ensures returned == PlotFileNames(indexadorColumn)
  {
    var indexadores := Distinct(indexadorColumn);
    saved := [];
    for k := 0 to |indexadores|
      invariant saved == PlotNames(indexadores[..k])
    {
      assert indexadores[..k + 1][..k] == indexadores[..k];
      var indexador := indexadores[k];
      if indexador == MaturedEarly {
        continue;
      }
      var fileName := PlotFileName(indexador);
      saved := saved + [fileName];
    }
    assert indexadores[..|indexadores|] == indexadores;
    returned := PlotNames(indexadores);
  }

  const Categories: set<string> := {IpcaSpread, DiPercent, DiSpread, MaturedEarly, Unknown}

  lemma AppendKeepsNoDuplicates(s: seq<string>, x: string)
    requires NoDuplicates(s) && x !in s
    ensures NoDuplicates(s + [x])
  {
    var t := s + [x];
    forall i, j | 0 <= i < j < |t| ensures t[i] != t[j] {
      assert t[i] == s[i];
      if j == |s| {
        assert t[i] in s;
      }
    }
  }

  /** Two different categories differ in length, and so do their chart names. */
  lemma CategoryLengths(a: string, b: string)
    requires a in Categories && b in Categories && a != b
    ensures |a| != |b|
    ensures PlotFileName(a) != PlotFileName(b)
  {
  }

  /** A category gets a chart exactly when it occurs and is not the
      early-matured one. */
  lemma PlottedCategories(indexadores: seq<string>, c: string)
    requires forall k :: 0 <= k < |indexadores| ==> indexadores[k] in Categories
    requires c in Categories
    ensures PlotFileName(c) in PlotNames(indexadores) <==> c in indexadores && c != MaturedEarly
  {
    forall k | 0 <= k < |indexadores| && indexadores[k] != c
      ensures PlotFileName(indexadores[k]) != PlotFileName(c)
    {
      CategoryLengths(indexadores[k], c);
    }
    if c in indexadores && c != MaturedEarly {
      var k :| 0 <= k < |indexadores| && indexadores[k] == c;
      assert PlotFileName(indexadores[k]) == PlotFileName(c);
    }
  }

  lemma PlotNamesLast(indexadores: seq<string>)
    requires indexadores != []
    ensures var n := |indexadores| - 1;
      PlotNames(indexadores) == PlotNames(indexadores[..n])
        + (if indexadores[n] == MaturedEarly then [] else [PlotFileName(indexadores[n])])
  {
    var n := |indexadores| - 1;
    if indexadores[n] == MaturedEarly {
      assert PlotNames(indexadores[..n]) + [] == PlotNames(indexadores[..n]);
    }
  }

  /** Every category `determine_indexador` produces gets its own chart file. */
  lemma {:induction false} PlotNamesDistinct(indexadores: seq<string>)
    requires NoDuplicates(indexadores)
    requires forall k :: 0 <= k < |indexadores| ==> indexadores[k] in Categories
    ensures NoDuplicates(PlotNames(indexadores))
  {
    if indexadores != [] {
      var n := |indexadores| - 1;
      var prefix := indexadores[..n];
      assert forall k :: 0 <= k < n ==> prefix[k] == indexadores[k];
      assert NoDuplicates(prefix);
      PlotNamesDistinct(prefix);
      PlotNamesLast(indexadores);
      var last := indexadores[n];
      if last != MaturedEarly {
        assert last !in prefix;
        PlottedCategories(prefix, last);
        AppendKeepsNoDuplicates(PlotNames(prefix), PlotFileName(last));
      }
    }
  }

  /** For an `Indexador` column filled by `determine_indexador`, the returned
      chart names are distinct and omit the early-matured bonds. */
  lemma ChartsOfIndexadorColumn(sheetNames: seq<string>)
    ensures NoDuplicates(PlotFileNames(seq(|sheetNames|, i requires 0 <= i < |sheetNames| => DetermineIndexador(sheetNames[i]))))
    ensures PlotFileName(MaturedEarly)
      !in PlotFileNames(seq(|sheetNames|, i requires 0 <= i < |sheetNames| => DetermineIndexador(sheetNames[i])))
  {
    var column := seq(|sheetNames|, i requires 0 <= i < |sheetNames| => DetermineIndexador(sheetNames[i]));
    forall k | 0 <= k < |Distinct(column)| ensures Distinct(column)[k] in Categories {
      assert Distinct(column)[k] in column;
      var i :| 0 <= i < |column| && column[i] == Distinct(column)[k];
    }
    PlotNamesDistinct(Distinct(column));
    PlottedCategories(Distinct(column), MaturedEarly);
  }
}
