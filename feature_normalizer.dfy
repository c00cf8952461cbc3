/** Feature cleaning: dropping the non-numeric features of a feature list, and
    dropping the columns with too many missing, zero or "Unknown" cells
    followed by mean imputation of the surviving numeric columns. */
module FeatureNormalizer {
  import opened Wrappers
  import opened Frames

  // ---------------------------------------------------------------------------
  // Non-numeric feature removal

  /** Looks every requested feature up, collects the non-numeric ones in list
      order and drops them from the table. */
  method NonNumericFeatureRemoval(df: Frame, features: seq<string>) returns (cleaned: Frame, dropped: seq<string>)
    requires AllColumns(df, features)
    ensures dropped == FeaturesByKind(df, features, false)
    ensures cleaned == DropColumns(df, dropped)
  {
    dropped := [];
    var i := 0;
    while i < |features|
      invariant 0 <= i <= |features|
      invariant dropped + FeaturesByKind(df, features[i..], false) == FeaturesByKind(df, features, false)
    {
      var feature := features[i];
      FeaturesByKindStep(df, features, i, false);
      ghost var rest := FeaturesByKind(df, features[i + 1..], false);
      if !IsNumeric(df, feature) {
        assert (dropped + [feature]) + rest == dropped + ([feature] + rest);
        dropped := dropped + [feature];
      } else {
        assert [] + rest == rest;
      }
      i := i + 1;
    }
    assert features[i..] == [];
    cleaned := DropColumns(df, dropped);
  }

  /** What the removal promises: the reported names are the non-numeric requested
      features in list order, and the returned table is the input without exactly
      those columns, the others kept in order. */
  lemma NonNumericRemovalSpec(df: Frame, features: seq<string>)
    ensures var dropped := FeaturesByKind(df, features, false);
      && (forall f :: f in dropped <==> f in features && !IsNumeric(df, f))
      && Subsequence(dropped, features)
      && (forall c :: c in DropColumns(df, dropped) <==> c in df && c.name !in dropped)
      && Subsequence(DropColumns(df, dropped), df)
      && (WellFormed(df) ==> WellFormed(DropColumns(df, dropped)))
  {
    var dropped := FeaturesByKind(df, features, false);
    FeaturesByKindSelect(df, features, false);
    DropColumnsKeepsOrder(df, dropped);
    if WellFormed(df) {
      DropColumnsWellFormed(df, dropped);
    }
  }

  lemma FeaturesByKindStep(t: Frame, features: seq<string>, i: nat, numeric: bool)
    requires i < |features|
    ensures FeaturesByKind(t, features[i..], numeric) ==
      (if IsNumeric(t, features[i]) == numeric then [features[i]] else []) + FeaturesByKind(t, features[i + 1..], numeric)
  {
    assert features[i..][0] == features[i] && features[i..][1..] == features[i + 1..];
  }

  /** When no requested feature is numeric, all of them are reported and none
      of them is left in the table. */
  lemma AllNonNumericDropsAll(df: Frame, features: seq<string>)
    requires forall i :: 0 <= i < |features| ==> !IsNumeric(df, features[i])
    ensures FeaturesByKind(df, features, false) == features
    ensures forall c :: c in DropColumns(df, FeaturesByKind(df, features, false)) ==> c.name !in features
  {
    AllOfKind(df, features, false);
  }

  lemma {:induction false} AllOfKind(df: Frame, features: seq<string>, numeric: bool)
    requires forall i :: 0 <= i < |features| ==> IsNumeric(df, features[i]) == numeric
    ensures FeaturesByKind(df, features, numeric) == features
  {
    if features != [] {
      AllOfKind(df, features[1..], numeric);
      assert features == [features[0]] + features[1..];
    }
  }

  // ---------------------------------------------------------------------------
  // Missing fraction

  /** A cell that counts against a column: missing, equal to 0, or the string "Unknown". */
  predicate IsMissingIndicator(c: Cell)
  {
    c.Missing? || c == Num(0.0) || c == Str("Unknown")
  }

  function IndicatorCount(cells: seq<Cell>): (n: nat)
    ensures n <= |cells|
  {
    if cells == [] then 0
    else (if IsMissingIndicator(cells[0]) then 1 else 0) + IndicatorCount(cells[1..])
  }

  /** The share of a column's cells that are missing, zero or "Unknown". */
  function MissingFraction(c: Column): (r: real)
    requires |c.cells| > 0
    ensures 0.0 <= r <= 1.0
    ensures r == 0.0 <==> IndicatorCount(c.cells) == 0
    ensures r == 1.0 <==> IndicatorCount(c.cells) == |c.cells|
  {
    var n, m := IndicatorCount(c.cells) as real, |c.cells| as real;
    DivisionBounds(n, m);
    n / m
  }

  lemma DivisionBounds(n: real, m: real)
    requires 0.0 <= n <= m && m > 0.0
    ensures 0.0 <= n / m <= 1.0
    ensures n / m == 0.0 <==> n == 0.0
    ensures n / m == 1.0 <==> n == m
  {
    assert n / m * m == n;
  }

  /** A column with no rows has a NaN fraction, and NaN is never above a threshold. */
  predicate AboveThreshold(c: Column, threshold: real)
  {
    |c.cells| > 0 && MissingFraction(c) > threshold
  }

  /** `missing_percentage[missing_percentage > threshold]`: the columns above the
      threshold, each with its fraction, in column order. */
  function HighMissingColumns(t: Frame, threshold: real): seq<(string, real)>
  {
    if t == [] then []
    else (if AboveThreshold(t[0], threshold) then [(t[0].name, MissingFraction(t[0]))] else [])
         + HighMissingColumns(t[1..], threshold)
  }

  function NamesOf(pairs: seq<(string, real)>): seq<string>
  {
    seq(|pairs|, i requires 0 <= i < |pairs| => pairs[i].0)
  }

  /** The reported pairs are exactly the columns above the threshold, each with its fraction. */
  lemma {:induction false} HighMissingColumnsSpec(t: Frame, threshold: real)
    ensures forall p :: p in HighMissingColumns(t, threshold) <==>
      exists c :: c in t && AboveThreshold(c, threshold) && p == (c.name, MissingFraction(c))
    ensures forall n :: n in NamesOf(HighMissingColumns(t, threshold)) <==>
      exists c :: c in t && AboveThreshold(c, threshold) && c.name == n
  {
    var r := HighMissingColumns(t, threshold);
    if t != [] {
      HighMissingColumnsSpec(t[1..], threshold);
      assert t == [t[0]] + t[1..];
    }
    assert forall p :: p in r <==>
      exists c :: c in t && AboveThreshold(c, threshold) && p == (c.name, MissingFraction(c));
    NamesOfSpec(r);
  }

  lemma NamesOfSpec(pairs: seq<(string, real)>)
    ensures forall n :: n in NamesOf(pairs) <==> exists p :: p in pairs && p.0 == n
  {
    forall n ensures n in NamesOf(pairs) <==> exists p :: p in pairs && p.0 == n {
      if n in NamesOf(pairs) {
        var i :| 0 <= i < |pairs| && NamesOf(pairs)[i] == n;
        assert pairs[i] in pairs && pairs[i].0 == n;
      }
      if exists p :: p in pairs && p.0 == n {
        var p :| p in pairs && p.0 == n;
        var i :| 0 <= i < |pairs| && pairs[i] == p;
        assert NamesOf(pairs)[i] == n;
      }
    }
  }

  /** A column survives exactly when its fraction is not above the threshold. */
  lemma KeptIffNotAbove(t: Frame, threshold: real)
    requires DistinctNames(t)
    ensures forall c :: c in DropColumns(t, NamesOf(HighMissingColumns(t, threshold))) <==>
      c in t && !AboveThreshold(c, threshold)
  {
    HighMissingColumnsSpec(t, threshold);
    forall c, d | c in t && d in t && c.name == d.name ensures c == d {
      var i :| 0 <= i < |t| && t[i] == c;
      var j :| 0 <= j < |t| && t[j] == d;
    }
  }

  /** A threshold of 1 or more drops no column. */
  lemma {:induction false} ThresholdAtLeastOne(t: Frame, threshold: real)
    requires threshold >= 1.0
    ensures HighMissingColumns(t, threshold) == []
    ensures DropColumns(t, NamesOf(HighMissingColumns(t, threshold))) == t
  {
    if t != [] {
      ThresholdAtLeastOne(t[1..], threshold);
      assert !AboveThreshold(t[0], threshold);
    }
  }

  /** A threshold of 0 drops exactly the columns with at least one missing, zero or "Unknown" cell. */
  lemma ThresholdZero(t: Frame)
    requires DistinctNames(t)
    ensures forall c :: c in DropColumns(t, NamesOf(HighMissingColumns(t, 0.0))) <==>
      c in t && IndicatorCount(c.cells) == 0
  {
    KeptIffNotAbove(t, 0.0);
    forall c | c in t ensures AboveThreshold(c, 0.0) <==> IndicatorCount(c.cells) > 0 {
    }
  }

  // ---------------------------------------------------------------------------
  // Mean imputation

  /** `col.dropna()`: the numbers of a column in row order, zeros included. */
  function Values(cells: seq<Cell>): seq<real>
  {
    if cells == [] then []
    else (if cells[0].Num? then [cells[0].x] else []) + Values(cells[1..])
  }

  /** The mean is taken over every number of the column, zeros included: each
      number occurs in `Values` as often as it occurs in the column. */
  lemma ValuesSpec(cells: seq<Cell>)
    ensures forall x :: x in Values(cells) <==> Num(x) in cells
    ensures Values(cells) == [] <==> forall k :: 0 <= k < |cells| ==> !cells[k].Num?
    ensures |Values(cells)| == |set k | 0 <= k < |cells| && cells[k].Num?|
    ensures forall x :: multiset(Values(cells))[x] == |set k | 0 <= k < |cells| && cells[k] == Num(x)|
  {
    ValuesMembers(cells);
    ValuesLength(cells);
    forall x ensures multiset(Values(cells))[x] == |set k | 0 <= k < |cells| && cells[k] == Num(x)| {
      ValuesCount(cells, x);
    }
  }

  lemma {:induction false} ValuesMembers(cells: seq<Cell>)
    ensures forall x :: x in Values(cells) <==> Num(x) in cells
    ensures Values(cells) == [] <==> forall k :: 0 <= k < |cells| ==> !cells[k].Num?
  {
    if cells != [] {
      ValuesMembers(cells[1..]);
      assert cells == [cells[0]] + cells[1..];
      if Values(cells) == [] {
        assert Values(cells[1..]) == [];
        forall k | 0 <= k < |cells| ensures !cells[k].Num? {
          if k > 0 {
            assert cells[k] == cells[1..][k - 1];
          }
        }
      }
    }
  }

  lemma {:induction false} ValuesSnoc(cells: seq<Cell>, c: Cell)
    ensures Values(cells + [c]) == Values(cells) + (if c.Num? then [c.x] else [])
  {
    if cells == [] {
      assert cells + [c] == [c];
    } else {
      assert (cells + [c])[0] == cells[0] && (cells + [c])[1..] == cells[1..] + [c];
      ValuesSnoc(cells[1..], c);
    }
  }

  lemma {:induction false} ValuesLength(cells: seq<Cell>)
    decreases |cells|
    ensures |Values(cells)| == |set k | 0 <= k < |cells| && cells[k].Num?|
  {
    if cells != [] {
      var n := |cells| - 1;
      assert cells == cells[..n] + [cells[n]];
      ValuesSnoc(cells[..n], cells[n]);
      ValuesLength(cells[..n]);
      NumberRowsSnoc(cells);
    }
  }

  lemma {:induction false} ValuesCount(cells: seq<Cell>, x: real)
    decreases |cells|
    ensures multiset(Values(cells))[x] == |set k | 0 <= k < |cells| && cells[k] == Num(x)|
  {
    if cells != [] {
      var n := |cells| - 1;
      var p := cells[..n];
      assert cells == p + [cells[n]];
      ValuesSnoc(p, cells[n]);
      ValuesCount(p, x);
      ValueRowsSnoc(cells, x);
      var last: seq<real> := if cells[n].Num? then [cells[n].x] else [];
      assert Values(cells) == Values(p) + last;
      assert multiset(Values(cells)) == multiset(Values(p)) + multiset(last);
    }
  }

  /** The rows holding a number, split off at the last row. */
  lemma NumberRowsSnoc(cells: seq<Cell>)
    requires cells != []
    ensures var n := |cells| - 1;
      |set k | 0 <= k < |cells| && cells[k].Num?| ==
      |set k | 0 <= k < n && cells[..n][k].Num?| + (if cells[n].Num? then 1 else 0)
  {
    var n := |cells| - 1;
    var s := set k | 0 <= k < |cells| && cells[k].Num?;
    var sp := set k | 0 <= k < n && cells[..n][k].Num?;
    var last: set<int> := if cells[n].Num? then {n} else {};
    forall k ensures k in s <==> k in sp + last {
      if 0 <= k < n {
        assert cells[..n][k] == cells[k];
      }
    }
    assert s == sp + last;
    assert sp !! last;
  }

  /** The rows holding the number `x`, split off at the last row. */
  lemma ValueRowsSnoc(cells: seq<Cell>, x: real)
    requires cells != []
    ensures var n := |cells| - 1;
      |set k | 0 <= k < |cells| && cells[k] == Num(x)| ==
      |set k | 0 <= k < n && cells[..n][k] == Num(x)| + (if cells[n] == Num(x) then 1 else 0)
  {
    var n := |cells| - 1;
    var s := set k | 0 <= k < |cells| && cells[k] == Num(x);
    var sp := set k | 0 <= k < n && cells[..n][k] == Num(x);
    var last: set<int> := if cells[n] == Num(x) then {n} else {};
    forall k ensures k in s <==> k in sp + last {
      if 0 <= k < n {
        assert cells[..n][k] == cells[k];
      }
    }
    assert s == sp + last;
    assert sp !! last;
  }

  function Sum(xs: seq<real>): real
  {
    if xs == [] then 0.0 else xs[0] + Sum(xs[1..])
  }

  /** `col.mean()` over the non-missing cells; None (NaN) when there are none. */
  function Mean(cells: seq<Cell>): Option<real>
  {
    var v := Values(cells);
    if v == [] then None else Some(Sum(v) / |v| as real)
  }

  /** `col.fillna(value)`. */
  function FillMissing(cells: seq<Cell>, value: real): seq<Cell>
  {
    if cells == [] then []
    else [if cells[0].Missing? then Num(value) else cells[0]] + FillMissing(cells[1..], value)
  }

  /** Imputation of one surviving column: a numeric column gets its missing cells
      filled with its mean; filling with NaN (an all-missing column) changes nothing. */
  function Impute(c: Column): Column
  {
    if c.kind == Numeric && Mean(c.cells).Some? then c.(cells := FillMissing(c.cells, Mean(c.cells).value))
    else c
  }

  /** Every surviving numeric column imputed, the others untouched. */
  function ImputeAll(t: Frame): (r: Frame)
  {
    seq(|t|, i requires 0 <= i < |t| => Impute(t[i]))
  }

  /** Filling replaces each missing cell by the value and leaves every other cell alone. */
  lemma {:induction false} FillMissingSpec(cells: seq<Cell>, value: real)
    ensures |FillMissing(cells, value)| == |cells|
    ensures forall k :: 0 <= k < |cells| ==>
      FillMissing(cells, value)[k] == if cells[k].Missing? then Num(value) else cells[k]
  {
    if cells != [] {
      FillMissingSpec(cells[1..], value);
      var r := FillMissing(cells, value);
      forall k | 0 < k < |cells| ensures r[k] == if cells[k].Missing? then Num(value) else cells[k] {
        assert r[k] == FillMissing(cells[1..], value)[k - 1];
        assert cells[k] == cells[1..][k - 1];
      }
    }
  }

  /** Imputation fills each missing cell of a numeric column with the mean of
      its numbers, keeps every other cell, and leaves other columns untouched. */
  lemma ImputeSpec(c: Column)
    ensures Impute(c).name == c.name && Impute(c).kind == c.kind
    ensures |Impute(c).cells| == |c.cells|
    ensures c.kind == Text ==> Impute(c) == c
    ensures forall k :: 0 <= k < |c.cells| && !c.cells[k].Missing? ==> Impute(c).cells[k] == c.cells[k]
    ensures c.kind == Numeric && Mean(c.cells).Some? ==>
      forall k :: 0 <= k < |c.cells| && c.cells[k].Missing? ==> Impute(c).cells[k] == Num(Mean(c.cells).value)
    ensures Mean(c.cells).None? ==> Impute(c) == c
  {
    if c.kind == Numeric && Mean(c.cells).Some? {
      FillMissingSpec(c.cells, Mean(c.cells).value);
    }
  }

  /** Filling never adds a missing, zero or "Unknown" cell. */
  lemma {:induction false} FillNeverAddsIndicators(cells: seq<Cell>, value: real)
    ensures |FillMissing(cells, value)| == |cells|
    ensures IndicatorCount(FillMissing(cells, value)) <= IndicatorCount(cells)
  {
    if cells != [] {
      FillNeverAddsIndicators(cells[1..], value);
    }
  }

  /** After filling with a number, no cell is missing. */
  lemma {:induction false} FillLeavesNoMissing(cells: seq<Cell>, value: real)
    ensures forall k :: 0 <= k < |FillMissing(cells, value)| ==> !FillMissing(cells, value)[k].Missing?
  {
    FillMissingSpec(cells, value);
  }

  /** Filling a column that has no missing cell changes nothing. */
  lemma {:induction false} FillWithoutMissing(cells: seq<Cell>, value: real)
    requires forall k :: 0 <= k < |cells| ==> !cells[k].Missing?
    ensures FillMissing(cells, value) == cells
  {
    if cells != [] {
      assert !cells[0].Missing?;
      FillWithoutMissing(cells[1..], value);
    }
  }

  /** Imputing twice is imputing once. */
  lemma ImputeIdempotent(c: Column)
    ensures Impute(Impute(c)) == Impute(c)
  {
    if c.kind == Numeric && Mean(c.cells).Some? {
      var filled := FillMissing(c.cells, Mean(c.cells).value);
      FillLeavesNoMissing(c.cells, Mean(c.cells).value);
      if Mean(filled).Some? {
        FillWithoutMissing(filled, Mean(filled).value);
      }
    }
  }

  /** Imputation never raises a column's missing fraction. */
  lemma ImputeNeverRaisesFraction(c: Column, threshold: real)
    requires !AboveThreshold(c, threshold)
    ensures !AboveThreshold(Impute(c), threshold)
  {
    if c.kind == Numeric && Mean(c.cells).Some? {
      FillNeverAddsIndicators(c.cells, Mean(c.cells).value);
      if |c.cells| > 0 {
        var m := |c.cells| as real;
        DivisionMonotone(IndicatorCount(Impute(c).cells) as real, IndicatorCount(c.cells) as real, m);
      }
    }
  }

  lemma DivisionMonotone(a: real, b: real, m: real)
    requires a <= b && m > 0.0
    ensures a / m <= b / m
  {
    assert a / m * m == a && b / m * m == b;
  }

  // ---------------------------------------------------------------------------
  // High-missing-value removal

  /** Reports the columns whose missing fraction is above the threshold, drops
      them, then fills the missing cells of each surviving numeric column with
      that column's mean, one column at a time. */
  method HighMissingValueRemoval(df: Frame, threshold: real) returns (cleaned: Frame, dropped: seq<(string, real)>)
    ensures dropped == HighMissingColumns(df, threshold)
    ensures cleaned == ImputeAll(DropColumns(df, NamesOf(dropped)))
    ensures forall p :: p in dropped ==> p.1 > threshold
  {
    dropped := HighMissingColumns(df, threshold);
    cleaned := DropColumns(df, NamesOf(dropped));
    ghost var kept := cleaned;
    var i := 0;
    while i < |cleaned|
      invariant 0 <= i <= |cleaned| == |kept|
      invariant forall k :: 0 <= k < i ==> cleaned[k] == Impute(kept[k])
      invariant forall k :: i <= k < |cleaned| ==> cleaned[k] == kept[k]
    {
      if cleaned[i].kind == Numeric {
        var mean := Mean(cleaned[i].cells);
        if mean.Some? {
          cleaned := cleaned[i := cleaned[i].(cells := FillMissing(cleaned[i].cells, mean.value))];
        }
      }
      i := i + 1;
    }
    HighMissingColumnsSpec(df, threshold);
  }

  /** The cleaned table keeps the surviving columns in their original order,
      with their names, kinds and row count. */
  lemma CleanedShape(df: Frame, threshold: real)
    requires WellFormed(df)
    ensures var kept := DropColumns(df, NamesOf(HighMissingColumns(df, threshold)));
      && Subsequence(kept, df)
      && |ImputeAll(kept)| == |kept|
      && (forall i :: 0 <= i < |kept| ==>
            ImputeAll(kept)[i].name == kept[i].name && ImputeAll(kept)[i].kind == kept[i].kind)
      && WellFormed(ImputeAll(kept))
      && (kept != [] ==> Rows(ImputeAll(kept)) == Rows(df))
  {
    var kept := DropColumns(df, NamesOf(HighMissingColumns(df, threshold)));
    DropColumnsKeepsOrder(df, NamesOf(HighMissingColumns(df, threshold)));
    DropColumnsWellFormed(df, NamesOf(HighMissingColumns(df, threshold)));
    var r := ImputeAll(kept);
    forall i | 0 <= i < |kept| ensures r[i].name == kept[i].name && r[i].kind == kept[i].kind
      && |r[i].cells| == |kept[i].cells|
      && (r[i].kind == Numeric ==> NumericCells(r[i].cells))
    {
      ImputeSpec(kept[i]);
      if kept[i].kind == Numeric && Mean(kept[i].cells).Some? {
        FillMissingSpec(kept[i].cells, Mean(kept[i].cells).value);
      }
    }
  }

  /** Running the cleaning again with the same threshold drops no further column
      and changes nothing. */
  lemma SecondCallIsNoOp(df: Frame, threshold: real)
    requires DistinctNames(df)
    ensures var cleaned := ImputeAll(DropColumns(df, NamesOf(HighMissingColumns(df, threshold))));
      && HighMissingColumns(cleaned, threshold) == []
      && ImputeAll(DropColumns(cleaned, [])) == cleaned
  {
    var kept := DropColumns(df, NamesOf(HighMissingColumns(df, threshold)));
    var cleaned := ImputeAll(kept);
    KeptIffNotAbove(df, threshold);
    forall i | 0 <= i < |cleaned| ensures !AboveThreshold(cleaned[i], threshold) && Impute(cleaned[i]) == cleaned[i] {
      assert kept[i] in kept;
      ImputeNeverRaisesFraction(kept[i], threshold);
      ImputeIdempotent(kept[i]);
    }
    NoneAbove(cleaned, threshold);
    DropNothing(cleaned);
  }

  lemma {:induction false} NoneAbove(t: Frame, threshold: real)
    requires forall i :: 0 <= i < |t| ==> !AboveThreshold(t[i], threshold)
    ensures HighMissingColumns(t, threshold) == []
  {
    if t != [] {
      NoneAbove(t[1..], threshold);
    }
  }

  lemma {:induction false} DropNothing(t: Frame)
    ensures DropColumns(t, []) == t
  {
    if t != [] {
      DropNothing(t[1..]);
    }
  }
}
