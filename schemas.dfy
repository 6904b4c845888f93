/**
 The data contract for flight tables and its two validators: the
 declarative engine (an uninterpreted acceptance predicate here) and the
 hand-written fallback, whose phases run in a fixed order and each stop at
 the first blocking problem.
 */
module Schemas {

  /** A cell of a table, already typed (no coercion happens on the fallback path). */
  datatype Value =
    | Int(i: int)
    | Float(x: real)
    | Text(s: string)
    | Timestamp(ticks: int)

  /** A column: the string form of its dtype (such as "int64") and its cells. */
  datatype Column = Column(dtype: string, values: seq<Value>)

  /** A table, by column name. */
  type Table = map<string, Column>

  /** Column name to permitted strings, in insertion order. */
  type CategoryTable = seq<(string, seq<string>)>

  /** Column name to expected dtype string, in insertion order. */
  type DtypeTable = seq<(string, string)>

  /** The exception class a failing validation raises. */
  datatype ErrorKind = ValueError | TypeError | SchemaErrors

  /** What a validation call ends with: normal return, or the error it raises. */
  datatype Outcome =
    | Ok
    | MissingColumns(missing: seq<string>)
    | BadDtype(col: string, actual: string, expected: string)
    | BadCategory(col: string, invalid: set<Value>)
    | Negative(col: string)
    | Rejected
  {
    /** The exception raised for a failure: only a dtype mismatch is a TypeError. */
    function Raises(): (k: ErrorKind)
      requires !Ok?
      ensures k == TypeError <==> BadDtype?
      ensures k == SchemaErrors <==> Rejected?
    {
      match this
      case BadDtype(_, _, _) => TypeError
      case Rejected => SchemaErrors
      case _ => ValueError
    }
  }

  /** The contract's column names. */
  const FlightIdCol: string := "flight_id"
  const DepartureCol: string := "departure_time"
  const ArrivalCol: string := "arrival_time"
  const OriginCol: string := "origin"
  const DestinationCol: string := "destination"
  const DurationCol: string := "duration"
  const AirlineCol: string := "airline"
  const StatusCol: string := "status"

  const FlightCategories: CategoryTable := [
    (OriginCol, ["JFK", "LAX", "SFO", "ORD", "ATL"]),
    (DestinationCol, ["JFK", "LAX", "SFO", "ORD", "ATL"]),
    (StatusCol, ["on_time", "delayed", "cancelled"]),
    (AirlineCol, ["Delta", "United", "American", "Southwest"])
  ]

  const RequiredCols: seq<string> := [
    FlightIdCol, DepartureCol, ArrivalCol,
    OriginCol, DestinationCol, DurationCol,
    AirlineCol, StatusCol
  ]

  const FlightDtypes: DtypeTable := [
    (FlightIdCol, "int64"),
    (DepartureCol, "datetime64[ns]"),
    (ArrivalCol, "datetime64[ns]"),
    (OriginCol, "object"),
    (DestinationCol, "object"),
    (DurationCol, "float64"),
    (AirlineCol, "object"),
    (StatusCol, "object")
  ]

  /*************************** category membership ***************************/

  /** The distinct cells of a column. */
  function Distinct(vals: seq<Value>): set<Value>
  {
    set v | v in vals
  }

  /** The permitted strings of a category, as cells. */
  function AllowedSet(allowed: seq<string>): set<Value>
  {
    set s | s in allowed :: Text(s)
  }

  /** The distinct cells of a column minus the permitted ones. */
  function InvalidValues(c: Column, allowed: seq<string>): (r: set<Value>)
    ensures forall v :: v in r <==> v in c.values && !(v.Text? && v.s in allowed)
  {
    Distinct(c.values) - AllowedSet(allowed)
  }

  /** Every cell of `col`, if the table has it, is one of the permitted strings. */
  ghost predicate WithinCategory(df: Table, col: string, allowed: seq<string>)
  {
    col in df ==> forall k :: 0 <= k < |df[col].values| ==> df[col].values[k].Text? && df[col].values[k].s in allowed
  }

  ghost predicate CategoriesHold(df: Table, categories: CategoryTable)
  {
    forall i :: 0 <= i < |categories| ==> WithinCategory(df, categories[i].0, categories[i].1)
  }

  /** `r` reports entry `i` of the category table: the first entry whose column
      is present and holds a value outside its permitted list, with exactly
      the offending distinct values. */
  ghost predicate ReportsCategory(df: Table, categories: CategoryTable, r: Outcome, i: int)
  {
    && 0 <= i < |categories|
    && r.BadCategory?
    && categories[i].0 == r.col
    && r.col in df
    && r.invalid == Distinct(df[r.col].values) - AllowedSet(categories[i].1)
    && r.invalid != {}
    && (forall j :: 0 <= j < i ==> WithinCategory(df, categories[j].0, categories[j].1))
  }

  /** Walk the category table in order, skip absent columns, fail on the first
      column with values outside its permitted list. */
  function ValidateCategories(df: Table, categories: CategoryTable): (r: Outcome)
    ensures r.Ok? || r.BadCategory?
    ensures r.Ok? <==> CategoriesHold(df, categories)
    ensures r.BadCategory? ==> exists i :: ReportsCategory(df, categories, r, i)
    decreases |categories|
  {
    if categories == [] then Ok
    else
      var col := categories[0].0;
      if col in df && InvalidValues(df[col], categories[0].1) != {} then
        var r := BadCategory(col, InvalidValues(df[col], categories[0].1));
        assert ReportsCategory(df, categories, r, 0);
        r
      else
        var rest := ValidateCategories(df, categories[1..]);
        assert WithinCategory(df, col, categories[0].1) by {
          if col in df {
            forall k | 0 <= k < |df[col].values|
              ensures df[col].values[k].Text? && df[col].values[k].s in categories[0].1
            {
              assert df[col].values[k] !in InvalidValues(df[col], categories[0].1);
            }
          }
        }
        assert rest.BadCategory? ==> exists i :: ReportsCategory(df, categories, rest, i) by {
          if rest.BadCategory? {
            var i :| ReportsCategory(df, categories[1..], rest, i);
            assert ReportsCategory(df, categories, rest, i + 1);
          }
        }
        assert CategoriesHold(df, categories) <==> CategoriesHold(df, categories[1..]) by {
          if CategoriesHold(df, categories[1..]) {
            forall i | 0 <= i < |categories|
              ensures WithinCategory(df, categories[i].0, categories[i].1)
            {
              if i > 0 { assert categories[i] == categories[1..][i - 1]; }
            }
          }
          if CategoriesHold(df, categories) {
            forall i | 0 <= i < |categories[1..]|
              ensures WithinCategory(df, categories[1..][i].0, categories[1..][i].1)
            {
              assert categories[1..][i] == categories[i + 1];
            }
          }
        }
        rest
  }

  /****************************** column presence *****************************/

  /** The columns of `cols` that the table lacks, in the order of `cols`. */
  function MissingFrom(cols: seq<string>, df: Table): (r: seq<string>)
    ensures |r| <= |cols|
    ensures forall k :: 0 <= k < |r| ==> r[k] !in df
    ensures r == [] <==> forall k :: 0 <= k < |cols| ==> cols[k] in df
  {
    if cols == [] then []
    else
      var rest := MissingFrom(cols[1..], df);
      if cols[0] !in df then [cols[0]] + rest
      else
        assert forall k :: 0 < k < |cols| ==> cols[k] == cols[1..][k - 1];
        rest
  }

  /** A name is reported missing exactly when it is in `cols` and not in the table. */
  lemma {:induction false} MissingFromMembers(cols: seq<string>, df: Table)
    ensures forall c :: c in MissingFrom(cols, df) <==> c in cols && c !in df
    decreases |cols|
  {
    if cols != [] {
      MissingFromMembers(cols[1..], df);
      assert forall c :: c in cols <==> c == cols[0] || c in cols[1..];
    }
  }

  /******************************* dtype checks *******************************/

  /** Every column named in `dtypes` exists in the table. */
  ghost predicate DtypeKeysPresent(df: Table, dtypes: DtypeTable)
  {
    forall i :: 0 <= i < |dtypes| ==> dtypes[i].0 in df
  }

  /** Every column named in `dtypes` exists and has exactly the expected dtype string. */
  ghost predicate DtypesMatch(df: Table, dtypes: DtypeTable)
  {
    forall i :: 0 <= i < |dtypes| ==> dtypes[i].0 in df && df[dtypes[i].0].dtype == dtypes[i].1
  }

  /** `r` reports entry `i` of the dtype table: the first entry whose column's
      dtype string differs, with the actual and the expected dtype. */
  ghost predicate ReportsDtype(df: Table, dtypes: DtypeTable, r: Outcome, i: int)
  {
    && 0 <= i < |dtypes|
    && r.BadDtype?
    && dtypes[i] == (r.col, r.expected)
    && r.col in df
    && r.actual == df[r.col].dtype
    && r.actual != r.expected
    && (forall j :: 0 <= j < i ==> dtypes[j].0 in df && df[dtypes[j].0].dtype == dtypes[j].1)
  }

  /** Compare each column's dtype string with the expected one, in table order;
      the first difference is reported. */
  function CheckDtypes(df: Table, dtypes: DtypeTable): (r: Outcome)
    requires DtypeKeysPresent(df, dtypes)
    ensures r.Ok? || r.BadDtype?
    ensures r.Ok? <==> DtypesMatch(df, dtypes)
    ensures r.BadDtype? ==> exists i :: ReportsDtype(df, dtypes, r, i)
    decreases |dtypes|
  {
    if dtypes == [] then Ok
    else
      var (col, expected) := dtypes[0];
      if df[col].dtype != expected then
        var r := BadDtype(col, df[col].dtype, expected);
        assert ReportsDtype(df, dtypes, r, 0);
        r
      else
        assert DtypeKeysPresent(df, dtypes[1..]) by {
          forall i | 0 <= i < |dtypes[1..]| ensures dtypes[1..][i].0 in df {
            assert dtypes[1..][i] == dtypes[i + 1];
          }
        }
        var rest := CheckDtypes(df, dtypes[1..]);
        assert rest.BadDtype? ==> exists i :: ReportsDtype(df, dtypes, rest, i) by {
          if rest.BadDtype? {
            var i :| ReportsDtype(df, dtypes[1..], rest, i);
            assert ReportsDtype(df, dtypes, rest, i + 1);
          }
        }
        assert DtypesMatch(df, dtypes) <==> DtypesMatch(df, dtypes[1..]) by {
          if DtypesMatch(df, dtypes[1..]) {
            forall i | 0 <= i < |dtypes|
              ensures dtypes[i].0 in df && df[dtypes[i].0].dtype == dtypes[i].1
            {
              if i > 0 { assert dtypes[i] == dtypes[1..][i - 1]; }
            }
          }
          if DtypesMatch(df, dtypes) {
            forall i | 0 <= i < |dtypes[1..]|
              ensures dtypes[1..][i].0 in df && df[dtypes[1..][i].0].dtype == dtypes[1..][i].1
            {
              assert dtypes[1..][i] == dtypes[i + 1];
            }
          }
        }
        rest
  }

  /****************************** numeric bounds ******************************/

  /** `cell < 0`; cells that are not numbers are never negative. */
  predicate IsNegative(v: Value): (b: bool)
    ensures b ==> v.Int? || v.Float?
    ensures v.Int? ==> (b <==> v.i < 0)
    ensures v.Float? ==> (b <==> v.x < 0.0)
  {
    match v
    case Int(i) => i < 0
    case Float(x) => x < 0.0
    case _ => false
  }

  /** Some cell of the column is negative: `(column < 0).any()`. */
  predicate AnyNegative(c: Column): (b: bool)
    ensures b <==> exists v :: v in c.values && IsNegative(v)
  {
    exists k :: 0 <= k < |c.values| && IsNegative(c.values[k])
  }

  /** The named column, if present, has no negative cell. */
  ghost predicate NonNegative(df: Table, col: string)
  {
    col in df ==> forall k :: 0 <= k < |df[col].values| ==> !IsNegative(df[col].values[k])
  }

  /** The negative-value test of a present column fails exactly when the
      column breaks its non-negativity bound. */
  lemma NegativeIffUnbounded(df: Table, col: string)
    requires col in df
    ensures AnyNegative(df[col]) <==> !NonNegative(df, col)
  {
  }

  /******************************* the fallback *******************************/

  ghost predicate PresenceOk(df: Table)
  {
    forall k :: 0 <= k < |RequiredCols| ==> RequiredCols[k] in df
  }

  /** The whole contract the fallback enforces, stated phase by phase. */
  ghost predicate Conforms(df: Table)
  {
    && PresenceOk(df)
    && DtypesMatch(df, FlightDtypes)
    && CategoriesHold(df, FlightCategories)
    && NonNegative(df, FlightIdCol)
    && NonNegative(df, DurationCol)
  }

  /** The dtype table names the required columns, in the same order. */
  lemma DtypeKeysRequired()
    ensures |FlightDtypes| == |RequiredCols|
    ensures forall i :: 0 <= i < |FlightDtypes| ==> FlightDtypes[i].0 == RequiredCols[i]
  {
  }

  /** The presence phase passes exactly when every required column is present. */
  lemma PresenceNothingMissing(df: Table)
    ensures MissingFrom(RequiredCols, df) == [] <==> PresenceOk(df)
  {
  }

  /** Once every required column is present, the dtype phase's lookups all succeed. */
  lemma PresenceCoversDtypes(df: Table)
    requires PresenceOk(df)
    ensures DtypeKeysPresent(df, FlightDtypes)
  {
    DtypeKeysRequired();
  }

  /** The hand-written checks used when the declarative engine is absent:
      presence, then dtypes, then categories, then `flight_id`, then
      `duration`; each phase fails fast and a later phase's error is
      reported only when every earlier phase passed. */
  function FallbackValidate(df: Table): (r: Outcome)
    ensures r.Ok? || r.MissingColumns? || r.BadDtype? || r.BadCategory? || r.Negative?
  {
    var missing := MissingFrom(RequiredCols, df);
    if missing != [] then MissingColumns(missing)
    else
      DtypeKeysRequired();
      assert RequiredCols[0] == FlightIdCol && RequiredCols[5] == DurationCol;
      var dtypes := CheckDtypes(df, FlightDtypes);
      if !dtypes.Ok? then dtypes
      else
        var categories := ValidateCategories(df, FlightCategories);
        if !categories.Ok? then categories
        else if AnyNegative(df[FlightIdCol]) then Negative(FlightIdCol)
        else if AnyNegative(df[DurationCol]) then Negative(DurationCol)
        else Ok
  }

  /** Phase order: each kind of failure is reported exactly when every
      earlier phase passed and its own phase failed; success exactly when
      the whole contract holds. */
  lemma FallbackPhaseOrder(df: Table)
    ensures FallbackValidate(df).MissingColumns? <==> !PresenceOk(df)
    ensures FallbackValidate(df).BadDtype? <==> PresenceOk(df) && !DtypesMatch(df, FlightDtypes)
    ensures FallbackValidate(df).BadCategory? <==>
      PresenceOk(df) && DtypesMatch(df, FlightDtypes) && !CategoriesHold(df, FlightCategories)
    ensures FallbackValidate(df) == Negative(FlightIdCol) <==>
      PresenceOk(df) && DtypesMatch(df, FlightDtypes) && CategoriesHold(df, FlightCategories)
      && !NonNegative(df, FlightIdCol)
    ensures FallbackValidate(df) == Negative(DurationCol) <==>
      PresenceOk(df) && DtypesMatch(df, FlightDtypes) && CategoriesHold(df, FlightCategories)
      && NonNegative(df, FlightIdCol) && !NonNegative(df, DurationCol)
    ensures FallbackValidate(df).Ok? <==> Conforms(df)
  {
    var r := FallbackValidate(df);
    if PresenceOk(df) {
      DtypeKeysRequired();
      assert RequiredCols[0] == FlightIdCol && RequiredCols[5] == DurationCol;
      var dtypes := CheckDtypes(df, FlightDtypes);
      if dtypes.Ok? {
        var categories := ValidateCategories(df, FlightCategories);
        if categories.Ok? {
          assert FlightIdCol != DurationCol by { assert |FlightIdCol| != |DurationCol|; }
          NegativeIffUnbounded(df, FlightIdCol);
          NegativeIffUnbounded(df, DurationCol);
          if AnyNegative(df[FlightIdCol]) {
            assert r == Negative(FlightIdCol);
          } else if AnyNegative(df[DurationCol]) {
            assert r == Negative(DurationCol);
          } else {
            assert r == Ok;
          }
        } else {
          assert r == categories;
        }
      } else {
        assert r == dtypes;
      }
    } else {
      assert r.MissingColumns?;
    }
  }

  /** What each failure carries: exactly the missing names; the first
      mismatching dtype with its actual and expected strings; the first
      violating category column with exactly its offending values. */
  lemma FallbackReports(df: Table)
    ensures FallbackValidate(df).MissingColumns? ==>
      FallbackValidate(df).missing != []
      && forall c :: c in FallbackValidate(df).missing <==> c in RequiredCols && c !in df
    ensures FallbackValidate(df).BadDtype? ==> exists i :: ReportsDtype(df, FlightDtypes, FallbackValidate(df), i)
    ensures FallbackValidate(df).BadCategory? ==>
      exists i :: ReportsCategory(df, FlightCategories, FallbackValidate(df), i)
  {
    var r := FallbackValidate(df);
    var missing := MissingFrom(RequiredCols, df);
    if missing == [] {
      DtypeKeysRequired();
      var dtypes := CheckDtypes(df, FlightDtypes);
      if dtypes.Ok? {
        var categories := ValidateCategories(df, FlightCategories);
        if categories.Ok? {
          assert r.Ok? || r.Negative?;
        } else {
          assert r == categories;
        }
      } else {
        assert r == dtypes;
      }
    } else {
      MissingFromMembers(RequiredCols, df);
      assert r == MissingColumns(missing);
    }
  }

  /************************** the validator as a whole ************************/

  /** Which validator is available: the declarative engine, seen only through
      whether it accepts a table (it collects every error lazily and raises
      one aggregate), or the hand-written fallback. */
  datatype Engine = Declarative(accepts: Table -> bool) | Fallback

  /** Validate a table with whichever engine is available. */
  function ValidateSchema(df: Table, engine: Engine): (r: Outcome)
    ensures engine.Declarative? ==> (r.Ok? || r.Rejected?) && (r.Ok? <==> engine.accepts(df))
    ensures engine.Fallback? ==> !r.Rejected? && (r.Ok? <==> Conforms(df))
  {
    FallbackPhaseOrder(df);
    match engine
    case Declarative(accepts) => if accepts(df) then Ok else Rejected
    case Fallback => FallbackValidate(df)
  }
}
