/** An in-memory table in the shape the analysis scripts use: a sequence of
    named columns, each with a declared kind, all of the same length.
    Column lookup, column removal, kind-based selection of feature names and
    column assignment are the data-frame operations the scripts rely on. */
module Frames {
  import opened Wrappers

  /** One cell: a missing value (NaN or None), a number, or a string. */
  datatype Cell = Missing | Num(x: real) | Str(s: string)

  /** The declared kind of a column: numeric, or anything else (strings, objects). */
  datatype Kind = Numeric | Text

  datatype Column = Column(name: string, kind: Kind, cells: seq<Cell>)

  /** The columns of a table, in order. */
  type Frame = seq<Column>

  /** The number of rows: the length of every column. */
  function Rows(t: Frame): nat
  {
    if t == [] then 0 else |t[0].cells|
  }

  /** A numeric column holds numbers and missing values only. */
  predicate NumericCells(cells: seq<Cell>)
  {
    forall k :: 0 <= k < |cells| ==> !cells[k].Str?
  }

  predicate DistinctNames(t: Frame)
  {
    forall i, j :: 0 <= i < j < |t| ==> t[i].name != t[j].name
  }

  predicate WellFormed(t: Frame)
  {
    && DistinctNames(t)
    && (forall i :: 0 <= i < |t| ==> |t[i].cells| == Rows(t))
    && (forall i :: 0 <= i < |t| && t[i].kind == Numeric ==> NumericCells(t[i].cells))
  }

  /** The position of the column called `name`, if there is one. */
  function Find(t: Frame, name: string): (r: Option<nat>)
    ensures r.Some? ==> r.value < |t| && t[r.value].name == name
    ensures r.None? ==> forall i :: 0 <= i < |t| ==> t[i].name != name
  {
    if t == [] then None
    else if t[0].name == name then Some(0)
    else match Find(t[1..], name)
      case None => None
      case Some(k) => Some(k + 1)
  }

  /** `df[name]`: the column called `name`, or None where pandas raises a KeyError. */
  function Get(t: Frame, name: string): (r: Option<Column>)
    ensures r.Some? ==> r.value in t && r.value.name == name
    ensures r.None? ==> forall c :: c in t ==> c.name != name
  {
    match Find(t, name)
    case None => None
    case Some(k) => Some(t[k])
  }

  predicate HasColumn(t: Frame, name: string)
  {
    Get(t, name).Some?
  }

  /** `is_numeric_dtype(df[name])`, for a column that exists. */
  predicate IsNumeric(t: Frame, name: string)
  {
    Get(t, name).Some? && Get(t, name).value.kind == Numeric
  }

  predicate AllColumns(t: Frame, names: seq<string>)
  {
    forall n :: n in names ==> HasColumn(t, n)
  }

  /** `a` is `b` with some elements left out, the rest in their original order. */
  predicate Subsequence<T(==)>(a: seq<T>, b: seq<T>)
    decreases |b|
  {
    if a == [] then true
    else if b == [] then false
    else (a[0] == b[0] && Subsequence(a[1..], b[1..])) || Subsequence(a, b[1..])
  }

  /** `df.drop(names, axis=1)`: the columns not named in `names`, in order. */
  function DropColumns(t: Frame, names: seq<string>): (r: Frame)
    ensures forall c :: c in r <==> c in t && c.name !in names
  {
    if t == [] then []
    else (if t[0].name in names then [] else [t[0]]) + DropColumns(t[1..], names)
  }

  /** Dropping keeps the surviving columns in their original relative order. */
  lemma {:induction false} DropColumnsKeepsOrder(t: Frame, names: seq<string>)
    ensures Subsequence(DropColumns(t, names), t)
  {
    if t != [] {
      DropColumnsKeepsOrder(t[1..], names);
      var r := DropColumns(t, names);
      if t[0].name in names {
        assert r == DropColumns(t[1..], names);
        SubsequenceOfTail(r, t);
      } else {
        assert r == [t[0]] + DropColumns(t[1..], names);
        assert r[1..] == DropColumns(t[1..], names);
      }
    }
  }

  lemma SubsequenceOfTail<T>(a: seq<T>, b: seq<T>)
    requires b != [] && Subsequence(a, b[1..])
    ensures Subsequence(a, b)
  {
  }

  /** Dropping columns keeps the table well formed and leaves its row count unchanged. */
  lemma DropColumnsWellFormed(t: Frame, names: seq<string>)
    requires WellFormed(t)
    ensures WellFormed(DropColumns(t, names))
    ensures DropColumns(t, names) != [] ==> Rows(DropColumns(t, names)) == Rows(t)
  {
    var r := DropColumns(t, names);
    DropColumnsDistinct(t, names);
    forall i | 0 <= i < |r| ensures |r[i].cells| == Rows(t) && (r[i].kind == Numeric ==> NumericCells(r[i].cells)) {
      assert r[i] in r;
      var j :| 0 <= j < |t| && t[j] == r[i];
    }
  }

  lemma {:induction false} DropColumnsDistinct(t: Frame, names: seq<string>)
    requires DistinctNames(t)
    ensures DistinctNames(DropColumns(t, names))
  {
    if t != [] {
      var tail := t[1..];
      assert DistinctNames(tail) by {
        forall i, j | 0 <= i < j < |tail| ensures tail[i].name != tail[j].name {
          assert tail[i] == t[i + 1] && tail[j] == t[j + 1];
        }
      }
      DropColumnsDistinct(tail, names);
      var rest := DropColumns(tail, names);
      forall c | c in rest ensures c.name != t[0].name {
        var i :| 0 <= i < |tail| && tail[i] == c;
        assert t[i + 1] == c;
      }
      if t[0].name !in names {
        var r := DropColumns(t, names);
        assert r == [t[0]] + rest;
        forall i, j | 0 <= i < j < |r| ensures r[i].name != r[j].name {
          assert r[j] == rest[j - 1] && r[j] in rest;
          if i > 0 {
            assert r[i] == rest[i - 1];
          }
        }
      }
    }
  }

  /** The entries of `features` whose column is (`numeric`) or is not (`!numeric`)
      of numeric kind, in list order, one per occurrence. */
  function FeaturesByKind(t: Frame, features: seq<string>, numeric: bool): seq<string>
  {
    if features == [] then []
    else (if IsNumeric(t, features[0]) == numeric then [features[0]] else [])
         + FeaturesByKind(t, features[1..], numeric)
  }

  /** The selection keeps exactly the features of the wanted kind, in list order. */
  lemma {:induction false} FeaturesByKindSelect(t: Frame, features: seq<string>, numeric: bool)
    ensures Subsequence(FeaturesByKind(t, features, numeric), features)
    ensures forall f :: f in FeaturesByKind(t, features, numeric) <==> f in features && IsNumeric(t, f) == numeric
  {
    if features != [] {
      FeaturesByKindSelect(t, features[1..], numeric);
      var r := FeaturesByKind(t, features, numeric);
      var rest := FeaturesByKind(t, features[1..], numeric);
      assert features == [features[0]] + features[1..];
      if IsNumeric(t, features[0]) == numeric {
        assert r == [features[0]] + rest && r[1..] == rest;
      } else {
        assert r == rest;
        SubsequenceOfTail(r, features);
      }
    }
  }

  /** Every feature lands in exactly one of the two selections. */
  lemma {:induction false} FeaturesByKindSplit(t: Frame, features: seq<string>)
    ensures |FeaturesByKind(t, features, true)| + |FeaturesByKind(t, features, false)| == |features|
  {
    if features != [] {
      FeaturesByKindSplit(t, features[1..]);
    }
  }

  /** A pandas data frame that callers hand around by reference: assigning a
      column (`df[name] = column`) changes it in place. */
  class DataFrame {
    var columns: Frame

    ghost predicate Valid()
      reads this
    {
      WellFormed(columns)
    }

    constructor (columns: Frame)
      requires WellFormed(columns)
      ensures Valid() && this.columns == columns
    {
      this.columns := columns;
    }

    /** `df[c.name] = c`: replaces the column of that name where it stood, or
        appends it as the last column. */
    method Assign(c: Column)
      requires Valid()
      requires columns == [] || |c.cells| == Rows(columns)
      requires c.kind == Numeric ==> NumericCells(c.cells)
      modifies this
      ensures Valid()
      ensures old(columns) != [] ==> Rows(columns) == Rows(old(columns))
      ensures match Find(old(columns), c.name)
              case Some(k) => columns == old(columns)[k := c]
              case None => columns == old(columns) + [c]
    {
      var position := Find(columns, c.name);
      match position
      case Some(k) =>
        columns := columns[k := c];
      case None =>
        columns := columns + [c];
    }
  }
}
