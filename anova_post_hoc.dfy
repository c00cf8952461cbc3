/** Group comparison bookkeeping: per-feature one-way ANOVA records with a
    group-size gate, the failure-tolerant Tukey HSD result map, the derived
    "Languages" label and the numeric-feature filter. The statistical tests
    themselves are oracles passed in by the caller; an oracle returns None
    where the library raises. */
module AnovaPostHoc {
  import opened Wrappers
  import opened Frames

  // ---------------------------------------------------------------------------
  // Partition by group label

  /** `Series.unique()`: the distinct labels in order of first appearance
      (a missing label is kept, once). */
  function Unique(s: seq<Cell>): (r: seq<Cell>)
    ensures forall x :: x in r <==> x in s
    ensures forall i, j :: 0 <= i < j < |r| ==> r[i] != r[j]
  {
    if s == [] then []
    else
      var u := Unique(s[..|s| - 1]);
      assert s == s[..|s| - 1] + [s[|s| - 1]];
      if s[|s| - 1] in u then u else u + [s[|s| - 1]]
  }

  /** Labels come out in order of first appearance: every label listed before
      another occurs in the column before any occurrence of that other one. */
  lemma {:induction false} UniqueFirstAppearance(s: seq<Cell>)
    ensures forall i, j, k :: 0 <= i < j < |Unique(s)| && 0 <= k < |s| && s[k] == Unique(s)[j] ==>
      Unique(s)[i] in s[..k]
  {
    if s != [] {
      var p := s[..|s| - 1];
      UniqueFirstAppearance(p);
      var u, r := Unique(p), Unique(s);
      forall i, j, k | 0 <= i < j < |r| && 0 <= k < |s| && s[k] == r[j] ensures r[i] in s[..k] {
        if k < |s| - 1 {
          assert s[k] == p[k] && s[..k] == p[..k];
          assert r[j] in u;
          assert r[i] == u[i] && r[j] == u[j];
        } else {
          assert s[..k] == p;
          assert r[i] in u;
        }
      }
    }
  }

  /** `data[group_col] == label`: never true for a missing label, since NaN equals nothing. */
  predicate SameLabel(cell: Cell, key: Cell)
  {
    !key.Missing? && cell == key
  }

  /** `data[data[group_col] == label][feature].dropna()`. */
  function GroupValues(values: seq<Cell>, labels: seq<Cell>, key: Cell): seq<real>
    requires |values| == |labels|
  {
    if values == [] then []
    else (if SameLabel(labels[0], key) && values[0].Num? then [values[0].x] else [])
         + GroupValues(values[1..], labels[1..], key)
  }

  /** A group holds exactly the numbers of the rows carrying its label, each
      as often as it occurs in those rows. */
  lemma GroupValuesSpec(values: seq<Cell>, labels: seq<Cell>, key: Cell)
    requires |values| == |labels|
    ensures forall x :: x in GroupValues(values, labels, key) <==>
      exists k :: 0 <= k < |values| && SameLabel(labels[k], key) && values[k] == Num(x)
    ensures |GroupValues(values, labels, key)| ==
      |set k | 0 <= k < |values| && SameLabel(labels[k], key) && values[k].Num?|
    ensures forall x ::
              multiset(GroupValues(values, labels, key))[x] ==
              |set k | 0 <= k < |values| && SameLabel(labels[k], key) && values[k] == Num(x)|
    ensures key.Missing? ==> GroupValues(values, labels, key) == []
  {
    GroupValuesMembers(values, labels, key);
    GroupValuesLength(values, labels, key);
    forall x ensures multiset(GroupValues(values, labels, key))[x] ==
      |set k | 0 <= k < |values| && SameLabel(labels[k], key) && values[k] == Num(x)|
    {
      GroupValuesCount(values, labels, key, x);
    }
  }

  lemma {:induction false} GroupValuesMembers(values: seq<Cell>, labels: seq<Cell>, key: Cell)
    requires |values| == |labels|
    ensures forall x :: x in GroupValues(values, labels, key) <==>
      exists k :: 0 <= k < |values| && SameLabel(labels[k], key) && values[k] == Num(x)
    ensures key.Missing? ==> GroupValues(values, labels, key) == []
  {
    if values != [] {
      GroupValuesMembers(values[1..], labels[1..], key);
      var r := GroupValues(values, labels, key);
      var rest := GroupValues(values[1..], labels[1..], key);
      forall x ensures x in r <==> exists k :: 0 <= k < |values| && SameLabel(labels[k], key) && values[k] == Num(x) {
        if x in rest {
          var k :| 0 <= k < |values[1..]| && SameLabel(labels[1..][k], key) && values[1..][k] == Num(x);
          assert SameLabel(labels[k + 1], key) && values[k + 1] == Num(x);
        }
        if exists k :: 0 <= k < |values| && SameLabel(labels[k], key) && values[k] == Num(x) {
          var k :| 0 <= k < |values| && SameLabel(labels[k], key) && values[k] == Num(x);
          if k > 0 {
            assert SameLabel(labels[1..][k - 1], key) && values[1..][k - 1] == Num(x);
          }
        }
      }
    }
  }

  lemma {:induction false} GroupValuesSnoc(values: seq<Cell>, labels: seq<Cell>, v: Cell, l: Cell, key: Cell)
    requires |values| == |labels|
    ensures GroupValues(values + [v], labels + [l], key) ==
      GroupValues(values, labels, key) + (if SameLabel(l, key) && v.Num? then [v.x] else [])
  {
    if values == [] {
      assert values + [v] == [v] && labels + [l] == [l];
    } else {
      assert (values + [v])[0] == values[0] && (values + [v])[1..] == values[1..] + [v];
      assert (labels + [l])[0] == labels[0] && (labels + [l])[1..] == labels[1..] + [l];
      GroupValuesSnoc(values[1..], labels[1..], v, l, key);
    }
  }

  lemma {:induction false} GroupValuesLength(values: seq<Cell>, labels: seq<Cell>, key: Cell)
    requires |values| == |labels|
    decreases |values|
    ensures |GroupValues(values, labels, key)| ==
      |set k | 0 <= k < |values| && SameLabel(labels[k], key) && values[k].Num?|
  {
    if values != [] {
      var n := |values| - 1;
      var p, q := values[..n], labels[..n];
      assert values == p + [values[n]] && labels == q + [labels[n]];
      GroupValuesSnoc(p, q, values[n], labels[n], key);
      GroupValuesLength(p, q, key);
      GroupRowsSnoc(values, labels, key);
    }
  }

  lemma {:induction false} GroupValuesCount(values: seq<Cell>, labels: seq<Cell>, key: Cell, x: real)
    requires |values| == |labels|
    decreases |values|
    ensures multiset(GroupValues(values, labels, key))[x] ==
      |set k | 0 <= k < |values| && SameLabel(labels[k], key) && values[k] == Num(x)|
  {
    if values != [] {
      var n := |values| - 1;
      var p, q := values[..n], labels[..n];
      assert values == p + [values[n]] && labels == q + [labels[n]];
      GroupValuesSnoc(p, q, values[n], labels[n], key);
      GroupValuesCount(p, q, key, x);
      MatchingRowsSnoc(values, labels, key, x);
      var g, gp := GroupValues(values, labels, key), GroupValues(p, q, key);
      var last: seq<real> := if SameLabel(labels[n], key) && values[n].Num? then [values[n].x] else [];
      assert g == gp + last;
      assert multiset(g) == multiset(gp) + multiset(last);
    }
  }

  /** The rows holding a number under label `key`, split off at the last row. */
  lemma GroupRowsSnoc(values: seq<Cell>, labels: seq<Cell>, key: Cell)
    requires |values| == |labels| && values != []
    ensures var n := |values| - 1;
      |set k | 0 <= k < |values| && SameLabel(labels[k], key) && values[k].Num?| ==
      |set k | 0 <= k < n && SameLabel(labels[..n][k], key) && values[..n][k].Num?| +
      (if SameLabel(labels[n], key) && values[n].Num? then 1 else 0)
  {
    var n := |values| - 1;
    var s := set k | 0 <= k < |values| && SameLabel(labels[k], key) && values[k].Num?;
    var sp := set k | 0 <= k < n && SameLabel(labels[..n][k], key) && values[..n][k].Num?;
    var tail: set<int> := if SameLabel(labels[n], key) && values[n].Num? then {n} else {};
    forall k ensures k in s <==> k in sp + tail {
      if 0 <= k < n {
        assert values[..n][k] == values[k] && labels[..n][k] == labels[k];
      }
    }
    assert s == sp + tail;
    assert sp !! tail;
  }

  /** The rows of a value `x` under label `key`, split off at the last row. */
  lemma MatchingRowsSnoc(values: seq<Cell>, labels: seq<Cell>, key: Cell, x: real)
    requires |values| == |labels| && values != []
    ensures var n := |values| - 1;
      |set k | 0 <= k < |values| && SameLabel(labels[k], key) && values[k] == Num(x)| ==
      |set k | 0 <= k < n && SameLabel(labels[..n][k], key) && values[..n][k] == Num(x)| +
      (if SameLabel(labels[n], key) && values[n] == Num(x) then 1 else 0)
  {
    var n := |values| - 1;
    var s := set k | 0 <= k < |values| && SameLabel(labels[k], key) && values[k] == Num(x);
    var sp := set k | 0 <= k < n && SameLabel(labels[..n][k], key) && values[..n][k] == Num(x);
    var tail: set<int> := if SameLabel(labels[n], key) && values[n] == Num(x) then {n} else {};
    forall k ensures k in s <==> k in sp + tail {
      if 0 <= k < n {
        assert values[..n][k] == values[k] && labels[..n][k] == labels[k];
      }
    }
    assert s == sp + tail;
    assert sp !! tail;
  }

  /** One group per distinct label, in order of first appearance. */
  function Groups(values: seq<Cell>, labels: seq<Cell>): seq<seq<real>>
    requires |values| == |labels|
  {
    var u := Unique(labels);
    seq(|u|, i requires 0 <= i < |u| => GroupValues(values, labels, u[i]))
  }

  /** `all(len(group) > 1 for group in groups)`. */
  predicate AllGroupsLargeEnough(groups: seq<seq<real>>)
  {
    forall i :: 0 <= i < |groups| ==> |groups[i]| > 1
  }

  // ---------------------------------------------------------------------------
  // One-way ANOVA records

  /** `{"Feature": feature, "P-value": p}`; None stands for Python's None. */
  datatype AnovaRecord = AnovaRecord(feature: string, pValue: Option<real>)

  /** The table's precondition for `perform_anova`: every feature is a column,
      and the group column exists as soon as one feature is numeric. */
  predicate AnovaInput(t: Frame, features: seq<string>, groupCol: string)
  {
    WellFormed(t) && AllColumns(t, features) && (HasColumn(t, groupCol) || FeaturesByKind(t, features, true) == [])
  }

  function FeatureGroups(t: Frame, feature: string, groupCol: string): seq<seq<real>>
    requires WellFormed(t) && HasColumn(t, feature) && HasColumn(t, groupCol)
  {
    Groups(Get(t, feature).value.cells, Get(t, groupCol).value.cells)
  }

  /** The record of one numeric feature: the oracle's p-value when every group
      has at least two values, None otherwise. */
  function FeatureRecord(t: Frame, feature: string, groupCol: string, fOneway: seq<seq<real>> -> Option<real>): AnovaRecord
    requires WellFormed(t) && HasColumn(t, feature) && HasColumn(t, groupCol)
  {
    var groups := FeatureGroups(t, feature, groupCol);
    AnovaRecord(feature, if AllGroupsLargeEnough(groups) then fOneway(groups) else None)
  }

  /** The records `perform_anova` collects: none for a non-numeric feature,
      one per numeric feature, in feature order. */
  function AnovaRecords(t: Frame, features: seq<string>, groupCol: string, fOneway: seq<seq<real>> -> Option<real>): seq<AnovaRecord>
    requires AnovaInput(t, features, groupCol)
  {
    if features == [] then []
    else
      assert AnovaInput(t, features[1..], groupCol);
      if !IsNumeric(t, features[0]) then AnovaRecords(t, features[1..], groupCol, fOneway)
      else [FeatureRecord(t, features[0], groupCol, fOneway)] + AnovaRecords(t, features[1..], groupCol, fOneway)
  }

  /** Runs the size gate and, where it passes, the test on every numeric
      feature in turn, appending one record per numeric feature. */
  method PerformAnova(data: Frame, features: seq<string>, groupCol: string, fOneway: seq<seq<real>> -> Option<real>)
    returns (records: seq<AnovaRecord>)
    requires AnovaInput(data, features, groupCol)
    ensures records == AnovaRecords(data, features, groupCol, fOneway)
    ensures |records| == |FeaturesByKind(data, features, true)|
    ensures forall i :: 0 <= i < |records| ==> records[i].feature == FeaturesByKind(data, features, true)[i]
  {
    records := [];
    var i := 0;
    while i < |features|
      invariant 0 <= i <= |features|
      invariant AnovaInput(data, features[i..], groupCol)
      invariant records + AnovaRecords(data, features[i..], groupCol, fOneway) == AnovaRecords(data, features, groupCol, fOneway)
    {
      var feature := features[i];
      assert features[i..][0] == feature && features[i..][1..] == features[i + 1..];
      assert feature in features[i..];
      var column := Get(data, feature).value;
      if column.kind == Numeric {
        assert FeaturesByKind(data, features[i..], true) != [];
        var labels := Get(data, groupCol).value.cells;
        var groups := Groups(column.cells, labels);
        var pValue: Option<real> := None;
        if AllGroupsLargeEnough(groups) {
          pValue := fOneway(groups);
        }
        records := records + [AnovaRecord(feature, pValue)];
      }
      i := i + 1;
    }
    assert features[i..] == [];
    AnovaRecordsFeatures(data, features, groupCol, fOneway);
  }

  /** Record `i` belongs to the `i`-th numeric feature: no record for a
      non-numeric feature, exactly one per numeric feature, in order. */
  lemma {:induction false} AnovaRecordsFeatures(t: Frame, features: seq<string>, groupCol: string, fOneway: seq<seq<real>> -> Option<real>)
    requires AnovaInput(t, features, groupCol)
    ensures |AnovaRecords(t, features, groupCol, fOneway)| == |FeaturesByKind(t, features, true)|
    ensures forall i :: 0 <= i < |AnovaRecords(t, features, groupCol, fOneway)| ==>
      AnovaRecords(t, features, groupCol, fOneway)[i].feature == FeaturesByKind(t, features, true)[i]
  {
    if features != [] {
      AnovaInputTail(t, features, groupCol);
      AnovaRecordsFeatures(t, features[1..], groupCol, fOneway);
      var r, rest := AnovaRecords(t, features, groupCol, fOneway), AnovaRecords(t, features[1..], groupCol, fOneway);
      var kinds, restKinds := FeaturesByKind(t, features, true), FeaturesByKind(t, features[1..], true);
      if IsNumeric(t, features[0]) {
        assert r == [FeatureRecord(t, features[0], groupCol, fOneway)] + rest;
        assert kinds == [features[0]] + restKinds;
        forall i | 0 < i < |r| ensures r[i].feature == kinds[i] {
          assert r[i] == rest[i - 1] && kinds[i] == restKinds[i - 1];
        }
      } else {
        assert r == rest && kinds == restKinds;
      }
    }
  }

  /** Each record's p-value is None when some group of its feature has fewer
      than two values, and the oracle's answer (None if it raised) otherwise. */
  lemma {:induction false} AnovaRecordPValue(t: Frame, features: seq<string>, groupCol: string, fOneway: seq<seq<real>> -> Option<real>)
    requires AnovaInput(t, features, groupCol)
    ensures forall r :: r in AnovaRecords(t, features, groupCol, fOneway) ==>
      && IsNumeric(t, r.feature) && HasColumn(t, groupCol)
      && r.pValue == (if AllGroupsLargeEnough(FeatureGroups(t, r.feature, groupCol))
                      then fOneway(FeatureGroups(t, r.feature, groupCol)) else None)
  {
    if features != [] {
      AnovaInputTail(t, features, groupCol);
      AnovaRecordPValue(t, features[1..], groupCol, fOneway);
      var r, rest := AnovaRecords(t, features, groupCol, fOneway), AnovaRecords(t, features[1..], groupCol, fOneway);
      if IsNumeric(t, features[0]) {
        assert r == [FeatureRecord(t, features[0], groupCol, fOneway)] + rest;
      } else {
        assert r == rest;
      }
    }
  }

  /** Records of a longer feature list are the records of its parts, one after
      the other: what happens on one feature never affects another. */
  lemma {:induction false} AnovaRecordsAppend(t: Frame, xs: seq<string>, ys: seq<string>, groupCol: string, fOneway: seq<seq<real>> -> Option<real>)
    requires AnovaInput(t, xs + ys, groupCol)
    ensures AnovaInput(t, xs, groupCol) && AnovaInput(t, ys, groupCol)
    ensures AnovaRecords(t, xs + ys, groupCol, fOneway) ==
      AnovaRecords(t, xs, groupCol, fOneway) + AnovaRecords(t, ys, groupCol, fOneway)
  {
    AnovaInputSplit(t, xs, ys, groupCol);
    if xs == [] {
      assert xs + ys == ys;
    } else {
      var zs := xs + ys;
      assert zs[0] == xs[0] && zs[1..] == xs[1..] + ys;
      AnovaInputTail(t, zs, groupCol);
      AnovaRecordsAppend(t, xs[1..], ys, groupCol, fOneway);
    }
  }

  lemma AnovaInputSplit(t: Frame, xs: seq<string>, ys: seq<string>, groupCol: string)
    requires AnovaInput(t, xs + ys, groupCol)
    ensures AnovaInput(t, xs, groupCol) && AnovaInput(t, ys, groupCol)
  {
    FeaturesByKindAppend(t, xs, ys);
    assert forall n :: n in xs ==> n in xs + ys;
    assert forall n :: n in ys ==> n in xs + ys;
  }

  lemma AnovaInputTail(t: Frame, features: seq<string>, groupCol: string)
    requires AnovaInput(t, features, groupCol) && features != []
    ensures AnovaInput(t, features[1..], groupCol)
  {
  }

  lemma {:induction false} FeaturesByKindAppend(t: Frame, xs: seq<string>, ys: seq<string>)
    ensures FeaturesByKind(t, xs + ys, true) == FeaturesByKind(t, xs, true) + FeaturesByKind(t, ys, true)
  {
    if xs == [] {
      assert xs + ys == ys;
    } else {
      assert (xs + ys)[0] == xs[0] && (xs + ys)[1..] == xs[1..] + ys;
      FeaturesByKindAppend(t, xs[1..], ys);
    }
  }

  /** A missing group label yields an empty group, so every record gets None. */
  lemma MissingLabelMeansNoPValue(t: Frame, features: seq<string>, groupCol: string, fOneway: seq<seq<real>> -> Option<real>)
    requires AnovaInput(t, features, groupCol) && HasColumn(t, groupCol)
    requires Missing in Get(t, groupCol).value.cells
    ensures forall r :: r in AnovaRecords(t, features, groupCol, fOneway) ==> r.pValue == None
  {
    AnovaRecordPValue(t, features, groupCol, fOneway);
    var labels := Get(t, groupCol).value.cells;
    var u := Unique(labels);
    assert Missing in u;
    var m :| 0 <= m < |u| && u[m] == Missing;
    forall r | r in AnovaRecords(t, features, groupCol, fOneway) ensures r.pValue == None {
      var values := Get(t, r.feature).value.cells;
      GroupValuesMembers(values, labels, Missing);
      assert FeatureGroups(t, r.feature, groupCol)[m] == [];
    }
  }

  // ---------------------------------------------------------------------------
  // Tukey HSD result map

  /** The outcome of `pairwise_tukeyhsd(endog=data[feature], groups=data[group_column])`:
      both lookups happen inside the `try`, so a missing column is a caught failure. */
  function TukeyOutcome<R>(t: Frame, feature: string, groupColumn: string, tukey: (Column, Column) -> Option<R>): Option<R>
  {
    if HasColumn(t, feature) && HasColumn(t, groupColumn) then tukey(Get(t, feature).value, Get(t, groupColumn).value)
    else None
  }

  /** Runs the post-hoc test on every feature; a feature whose test raised is
      skipped and later features are still processed. */
  method TukeyResults<R>(data: Frame, features: seq<string>, groupColumn: string, tukey: (Column, Column) -> Option<R>)
    returns (results: map<string, R>)
    ensures forall f :: f in results <==> f in features && TukeyOutcome(data, f, groupColumn, tukey).Some?
    ensures forall f :: f in results ==> results[f] == TukeyOutcome(data, f, groupColumn, tukey).value
  {
    results := map[];
    var i := 0;
    while i < |features|
      invariant 0 <= i <= |features|
      invariant forall f :: f in results <==> f in features[..i] && TukeyOutcome(data, f, groupColumn, tukey).Some?
      invariant forall f :: f in results ==> results[f] == TukeyOutcome(data, f, groupColumn, tukey).value
    {
      var feature := features[i];
      assert features[..i + 1] == features[..i] + [feature];
      var endog := Get(data, feature);
      var groups := Get(data, groupColumn);
      if endog.Some? && groups.Some? {
        var outcome := tukey(endog.value, groups.value);
        if outcome.Some? {
          results := results[feature := outcome.value];
        }
      }
      i := i + 1;
    }
    assert features[..i] == features;
  }

  // ---------------------------------------------------------------------------
  // Derived language label

  /** Python's `sub in s` on strings. */
  function Contains(s: string, sub: string): bool
    decreases |s|
  {
    if |s| < |sub| then false
    else s[..|sub|] == sub || Contains(s[1..], sub)
  }

  /** `sub` occurs in `s` starting at position `i`. */
  ghost predicate OccursAt(s: string, sub: string, i: int)
  {
    0 <= i && i + |sub| <= |s| && s[i..i + |sub|] == sub
  }

  /** The scan finds `sub` exactly when it occurs somewhere in `s`. */
  lemma {:induction false} ContainsIffOccurs(s: string, sub: string)
    decreases |s|
    ensures Contains(s, sub) <==> exists i :: OccursAt(s, sub, i)
  {
    if s == [] && sub == [] {
      assert OccursAt(s, sub, 0);
    } else if |s| >= |sub| {
      ContainsIffOccurs(s[1..], sub);
      assert s[..|sub|] == sub <==> OccursAt(s, sub, 0);
      forall i | OccursAt(s[1..], sub, i) ensures OccursAt(s, sub, i + 1) {
        assert s[1..][i..i + |sub|] == s[i + 1..i + 1 + |sub|];
      }
      forall i | OccursAt(s, sub, i) && i > 0 ensures OccursAt(s[1..], sub, i - 1) {
        assert s[1..][i - 1..i - 1 + |sub|] == s[i..i + |sub|];
      }
    } else {
      forall i ensures !OccursAt(s, sub, i) {
      }
    }
  }

  /** `"Chinese" if "zh" in str(x) else "English"`. The string form of a number
      or of NaN has no letter `z`, so only a string label can be "Chinese". */
  function LanguageOf(key: Cell): string
  {
    if key.Str? && Contains(key.s, "zh") then "Chinese" else "English"
  }

  /** A label is "Chinese" exactly when its text contains "zh", and "English" otherwise. */
  lemma LanguageOfSpec(key: Cell)
    ensures LanguageOf(key) == "Chinese" <==> key.Str? && exists i :: OccursAt(key.s, "zh", i)
    ensures LanguageOf(key) == "English" <==> !(key.Str? && exists i :: OccursAt(key.s, "zh", i))
  {
    if key.Str? {
      ContainsIffOccurs(key.s, "zh");
    }
  }

  /** The derived column: one language label per row of the group column. */
  function LanguagesColumn(group: Column): Column
  {
    Column("Languages", Text, seq(|group.cells|, k requires 0 <= k < |group.cells| => Str(LanguageOf(group.cells[k]))))
  }

  // ---------------------------------------------------------------------------
  // analyze_semantic_features, without its charts

  /** The post-hoc map, then the "Languages" column added to the caller's
      frame when it is absent, then the numeric features in list order. */
  method AnalyzeSemanticFeatures<R>(data: DataFrame, features: seq<string>, groupColumn: string, tukey: (Column, Column) -> Option<R>)
    returns (tukeyResults: map<string, R>, numericFeatures: seq<string>)
    requires data.Valid()
    requires AllColumns(data.columns, features)
    requires HasColumn(data.columns, "Languages") || HasColumn(data.columns, groupColumn)
    modifies data
    ensures data.Valid()
    ensures forall f :: f in tukeyResults <==> f in features && TukeyOutcome(old(data.columns), f, groupColumn, tukey).Some?
    ensures forall f :: f in tukeyResults ==> tukeyResults[f] == TukeyOutcome(old(data.columns), f, groupColumn, tukey).value
    ensures data.columns == if HasColumn(old(data.columns), "Languages") then old(data.columns)
                            else old(data.columns) + [LanguagesColumn(Get(old(data.columns), groupColumn).value)]
    ensures numericFeatures == FeaturesByKind(data.columns, features, true)
  {
    tukeyResults := TukeyResults(data.columns, features, groupColumn, tukey);
    if !HasColumn(data.columns, "Languages") {
      var group := Get(data.columns, groupColumn).value;
      assert group in data.columns;
      data.Assign(LanguagesColumn(group));
    }
    numericFeatures := FeaturesByKind(data.columns, features, true);
  }
}
