# Linguistic feature analysis: table bookkeeping, modelled in Dafny

This project models the table bookkeeping of a set of exploratory
data-analysis scripts that compare groups of text samples (tasks, diagnoses,
languages) on numeric linguistic features. Two source files hold that logic:

- `Feature_normalizer.py` cleans a feature table. `non_numeric_feature_removal`
  drops the requested features whose column is not numeric and reports their
  names. `get_coulumn_with_high_missing_value` computes each column's share of
  missing, zero or `"Unknown"` cells. It drops every column whose share is above
  a threshold and fills the missing cells of the surviving numeric columns with
  the column mean.
- `ANOVA_post_houc_test.py` compares groups. `perform_anova` splits each
  numeric feature by the distinct labels of a group column. It keeps one record
  per numeric feature, with a p-value only when every group has at least two
  values. `analyze_semantic_features` builds a map of post-hoc test results that
  tolerates failures. It also derives a `"Languages"` column from the group
  labels and picks out the numeric features.

## How the model is laid out

- `wrappers.dfy` (module `Wrappers`): `Option`, which stands for Python's
  `None`, for NaN and for a library call that raised.
- `frames.dfy` (module `Frames`): the table. A `Cell` is `Missing | Num(real) |
  Str(string)`. A `Column` has a name, a declared `Kind` (`Numeric` or `Text`)
  and its cells. A `Frame` is a sequence of columns. `WellFormed` asks for
  distinct names, one common row count, and no strings in numeric columns. The
  module holds the data-frame operations the scripts call: lookup by name
  (`Get`, `None` where pandas raises `KeyError`), `DropColumns`, and
  `FeaturesByKind` (the order-preserving selection of numeric or non-numeric
  feature names). The class `DataFrame` is the caller-owned frame that
  `df[name] = column` changes in place (`Assign`).
- `feature_normalizer.dfy` (module `FeatureNormalizer`): both cleaning
  operations as methods with loops, the specification functions they are
  proved against, and the lemmas on those functions.
- `anova_post_hoc.dfy` (module `AnovaPostHoc`): the group partition, the ANOVA
  records (`PerformAnova`), the Tukey map (`TukeyResults`), the language label
  and `AnalyzeSemanticFeatures`.

The two statistical tests are oracles passed in by the caller.
`scipy.stats.f_oneway` is `fOneway: seq<seq<real>> -> Option<real>`, given the
groups and returning a p-value, or `None` where it raises.
`pairwise_tukeyhsd` is `tukey: (Column, Column) -> Option<R>`, given the
feature column and the group column. Its fixed `alpha=0.05` is part of the
oracle.

Operations that only read the table take it as a value (`Frame`), since
`df.drop` returns a new frame. The one place where the source changes a
caller's frame, `data["Languages"] = ...`, goes through the `DataFrame` class.

Three points about the code that the model keeps:

- A group column with a single label does not give `None` by itself. When that
  one group has two or more values, `perform_anova` calls the test
  (ANOVA_post_houc_test.py:32-34), and only the test decides. In the model the
  oracle decides.
- `get_coulumn_with_high_missing_value` returns the dropped columns as an
  ordered series of (name, fraction) pairs (Feature_normalizer.py:14, 20), not
  as a set.
- The post-hoc significance level is fixed at 0.05
  (ANOVA_post_houc_test.py:72), not a parameter.

## Model

| member | source | states |
|---|---|---|
| Frames.Get | Feature_normalizer.py:6 | looking a name up gives a column of the table with that name; it gives None (pandas raises `KeyError`) exactly when no column has that name |
| Frames.DropColumns | Feature_normalizer.py:9 | a column is in the result exactly when it is in the input and its name is not among the dropped names |
| Frames.DropColumnsKeepsOrder | Feature_normalizer.py:9 | the remaining columns keep their original relative order, including columns never named in the feature list |
| Frames.DropColumnsWellFormed | Feature_normalizer.py:15 | dropping columns keeps names distinct and columns of equal length, and does not change the row count |
| Frames.FeaturesByKindSelect | Feature_normalizer.py:4-8 | the selection is an order-preserving sublist of the feature list, and it holds a name exactly when that name is in the list and its column's kind is the wanted one |
| Frames.FeaturesByKindSplit | Feature_normalizer.py:5-8 | every requested feature is either numeric or non-numeric: the two selections together are as long as the list |
| Frames.FeaturesByKind | Feature_normalizer.py:4-8 | the requested features whose column is (or is not) numeric, in list order; with `numeric` true it is also the `numeric_features` list of `analyze_semantic_features` (ANOVA_post_houc_test.py:106); characterised by Frames.FeaturesByKindSelect and Frames.FeaturesByKindSplit |
| Frames.DataFrame.Assign | ANOVA_post_houc_test.py:101 | assigning a column replaces the column of that name where it stood, or appends it as the last column; the frame stays well formed and keeps its row count |
| FeatureNormalizer.NonNumericFeatureRemoval | Feature_normalizer.py:3-10 | the loop over the requested features (each of which must be a column) reports exactly the selection of non-numeric features, and the returned table is the input with those columns dropped |
| FeatureNormalizer.NonNumericRemovalSpec | Feature_normalizer.py:4-10 | the reported names are exactly the non-numeric requested features, in list order; the returned table holds exactly the input's columns not reported, in their original order, and stays well formed |
| FeatureNormalizer.AllNonNumericDropsAll | Feature_normalizer.py:3-10 | when no requested feature is numeric, every one of them is reported and none of them is left in the table |
| FeatureNormalizer.IndicatorCount | Feature_normalizer.py:13 | the number of missing, zero or "Unknown" cells, never more than the number of cells |
| FeatureNormalizer.MissingFraction | Feature_normalizer.py:13 | a column's share of missing, zero or "Unknown" cells lies in [0, 1]; it is 0 exactly when there is no such cell and 1 exactly when every cell is one |
| FeatureNormalizer.HighMissingColumns | Feature_normalizer.py:13-14 | the (name, fraction) pairs of the columns above the threshold, in column order; characterised by FeatureNormalizer.HighMissingColumnsSpec and FeatureNormalizer.KeptIffNotAbove |
| FeatureNormalizer.HighMissingColumnsSpec | Feature_normalizer.py:14 | a (name, fraction) pair is reported exactly when some column with that name has that fraction and the fraction is strictly above the threshold |
| FeatureNormalizer.KeptIffNotAbove | Feature_normalizer.py:14-15 | a column survives exactly when its fraction is not strictly above the threshold; a column with no rows (NaN fraction) always survives |
| FeatureNormalizer.ThresholdAtLeastOne | Feature_normalizer.py:14-15 | a threshold of 1 or more reports nothing and drops nothing |
| FeatureNormalizer.ThresholdZero | Feature_normalizer.py:14-15 | a threshold of 0 drops exactly the columns with at least one missing, zero or "Unknown" cell |
| FeatureNormalizer.Values | Feature_normalizer.py:17 | the numbers of a column with its missing cells left out (`dropna`); characterised by FeatureNormalizer.ValuesSpec |
| FeatureNormalizer.Mean | Feature_normalizer.py:17 | the mean of those numbers, None (NaN) when there are none; characterised by FeatureNormalizer.ValuesSpec and FeatureNormalizer.ImputeSpec |
| FeatureNormalizer.FillMissing | Feature_normalizer.py:17 | `fillna(value)`; characterised by FeatureNormalizer.FillMissingSpec |
| FeatureNormalizer.Impute | Feature_normalizer.py:16-17 | one surviving column after imputation; characterised by FeatureNormalizer.ImputeSpec and FeatureNormalizer.ImputeIdempotent |
| FeatureNormalizer.ImputeAll | Feature_normalizer.py:16-17 | every surviving column imputed, in order; characterised by FeatureNormalizer.CleanedShape and FeatureNormalizer.HighMissingValueRemoval |
| FeatureNormalizer.ValuesSpec | Feature_normalizer.py:17 | the mean is taken over every number in the column, zeros included: each number occurs as often as it occurs in the column, and there are as many values as numeric cells; there are none exactly when no cell is a number |
| FeatureNormalizer.FillMissingSpec | Feature_normalizer.py:17 | filling replaces each missing cell by the fill value and leaves every other cell as it was |
| FeatureNormalizer.ImputeSpec | Feature_normalizer.py:16-17 | in a numeric column each missing cell becomes the mean of the column's numbers; cells that are not missing are unchanged; non-numeric columns and all-missing columns are untouched; name, kind and length are kept |
| FeatureNormalizer.ImputeNeverRaisesFraction | Feature_normalizer.py:13-17 | a column that was not above the threshold is still not above it after imputation |
| FeatureNormalizer.ImputeIdempotent | Feature_normalizer.py:16-17 | imputing an imputed column changes nothing |
| FeatureNormalizer.HighMissingValueRemoval | Feature_normalizer.py:12-20 | the method reports the columns above the threshold with their fractions; it returns the other columns with each numeric one imputed, filled column by column in place |
| FeatureNormalizer.CleanedShape | Feature_normalizer.py:15-17 | the cleaned table keeps the surviving columns in their original order, with their names and kinds; it stays well formed and keeps the row count |
| FeatureNormalizer.SecondCallIsNoOp | Feature_normalizer.py:12-20 | cleaning the cleaned table again with the same threshold drops no column and changes no cell |
| AnovaPostHoc.Unique | ANOVA_post_houc_test.py:28 | the distinct labels are exactly the labels of the column, each listed once |
| AnovaPostHoc.UniqueFirstAppearance | ANOVA_post_houc_test.py:28 | labels are listed in order of first appearance: a label listed earlier occurs in the column before every occurrence of a label listed later |
| AnovaPostHoc.GroupValues | ANOVA_post_houc_test.py:27 | the non-missing values of one feature in the rows carrying one label; characterised by AnovaPostHoc.GroupValuesSpec |
| AnovaPostHoc.Groups | ANOVA_post_houc_test.py:26-29 | one group per distinct label of the group column, in order of first appearance; characterised by AnovaPostHoc.Unique, AnovaPostHoc.UniqueFirstAppearance and AnovaPostHoc.GroupValuesSpec |
| AnovaPostHoc.GroupValuesSpec | ANOVA_post_houc_test.py:27 | a group holds exactly the non-missing values of the rows whose label equals the group's label, each as often as it occurs in those rows, so its size is the number of such rows; a missing label matches no row and gives an empty group |
| AnovaPostHoc.FeatureRecord | ANOVA_post_houc_test.py:26-41 | the record of one numeric feature, gated on every group having at least two values; characterised by AnovaPostHoc.AnovaRecordPValue |
| AnovaPostHoc.AnovaRecords | ANOVA_post_houc_test.py:21-41 | the records of a feature list; characterised by AnovaPostHoc.AnovaRecordsFeatures, AnovaPostHoc.AnovaRecordPValue and AnovaPostHoc.AnovaRecordsAppend |
| AnovaPostHoc.PerformAnova | ANOVA_post_houc_test.py:10-43 | the loop produces the records of the specification: one per numeric feature, named after it, in feature order |
| AnovaPostHoc.AnovaRecordsFeatures | ANOVA_post_houc_test.py:21-41 | no record for a non-numeric feature, and the i-th record belongs to the i-th numeric feature |
| AnovaPostHoc.AnovaRecordPValue | ANOVA_post_houc_test.py:26-41 | a record's p-value is None when some group of its feature has fewer than two values, whatever the test would say; otherwise it is the test's result, None if the test raised |
| AnovaPostHoc.AnovaRecordsAppend | ANOVA_post_houc_test.py:21-41 | the records of a concatenated feature list are the records of its two parts, so a failure on one feature never affects later ones |
| AnovaPostHoc.MissingLabelMeansNoPValue | ANOVA_post_houc_test.py:26-32 | when the group column has a missing label, every record's p-value is None |
| AnovaPostHoc.TukeyOutcome | ANOVA_post_houc_test.py:68-77 | the outcome of one post-hoc test, None when a lookup or the test raised; characterised by AnovaPostHoc.TukeyResults |
| AnovaPostHoc.TukeyResults | ANOVA_post_houc_test.py:64-77 | the map has a key for exactly the requested features whose test did not raise (a missing column counts as raising), with that test's result; failures are skipped |
| AnovaPostHoc.Contains | ANOVA_post_houc_test.py:101 | Python's substring test `"zh" in s`; characterised by AnovaPostHoc.ContainsIffOccurs |
| AnovaPostHoc.ContainsIffOccurs | ANOVA_post_houc_test.py:101 | the substring test holds exactly when the pattern occurs at some position of the string |
| AnovaPostHoc.LanguageOf | ANOVA_post_houc_test.py:101 | the language label of one group label; characterised by AnovaPostHoc.LanguageOfSpec |
| AnovaPostHoc.LanguageOfSpec | ANOVA_post_houc_test.py:101 | a label maps to "Chinese" exactly when its text contains "zh", and to "English" otherwise |
| AnovaPostHoc.LanguagesColumn | ANOVA_post_houc_test.py:101 | the derived "Languages" column, one label per row of the group column; characterised by AnovaPostHoc.AnalyzeSemanticFeatures |
| AnovaPostHoc.AnalyzeSemanticFeatures | ANOVA_post_houc_test.py:64-106 | the post-hoc map is as stated for TukeyResults; "Languages" is appended only when absent, and an existing one is left as it was; the numeric features are the order-preserving numeric sublist of the requested features |

## Left out

- Plotting: the boxplot grid, the bar chart of per-language means and the per-language means computed for it (ANOVA_post_houc_test.py:80-97 and 109-120), and all of `kernel_etimation_distribution_and_task_box_plot.py`. These are chart configuration and display calls.
- `custom_extractor.py`: it consists of calls into external NLP libraries and writes newline-delimited JSON. It is not part of this model.
- The statistics themselves (`f_oneway`, `pairwise_tukeyhsd`): they are oracles passed in as parameters. F-distributions, p-values and confidence intervals are not modelled.
- Floating point: numbers are exact `real`s and NaN is the `Missing` cell. A NaN p-value returned by the test is not distinguished from a number.
- Pandas dtype inference: each column carries a declared kind instead.
- Console warnings (`print`).
- Duplicate column names: pandas allows them, but the model's operations on whole tables require distinct names.
- AnovaPostHoc.PerformAnova: the result is a sequence of records, not a pandas DataFrame built from them.
- AnovaPostHoc.PerformAnova: it requires every requested feature to be a column, whereas the source raises `KeyError` at `data[feature]` (ANOVA_post_houc_test.py:22, outside any `try`) and returns no records at all. It likewise requires the group column whenever some requested feature is numeric, where the source raises at `data[group_col]` (ANOVA_post_houc_test.py:27-28). Neither failure is modelled.
- AnovaPostHoc.TukeyResults: the result is a Dafny `map`, which has no order. The source's dict keeps insertion order, which is the order of the features; that order is not modelled.
- AnovaPostHoc.LanguageOf: only a string label can map to "Chinese". The string form of a number or of NaN contains no `z`, so such labels always map to "English".
- AnovaPostHoc.AnalyzeSemanticFeatures: it requires every requested feature to be a column, because the boxplot loop looks each one up outside any `try`. It also requires the group column whenever "Languages" is absent. Failures raised inside the plotting library are not modelled.
- AnovaPostHoc.AnalyzeSemanticFeatures: it also returns the numeric feature list, which the source keeps local and passes only to the bar chart.
