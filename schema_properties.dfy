/**
 Properties of the fallback validator that relate several calls: the order
 of the missing-column report, that only the contract's own columns are
 ever looked at, that absent category columns are skipped, and the
 verdicts on one-row flight tables.
 */
module SchemaProperties {
  import opened Schemas

  /*************************** order of the report ****************************/

  /** The missing-column report keeps the order of the required list: it
      distributes over concatenation, so each missing name appears where its
      column stands in the list. */
  lemma {:induction false} MissingFromAppend(a: seq<string>, b: seq<string>, df: Table)
    ensures MissingFrom(a + b, df) == MissingFrom(a, df) + MissingFrom(b, df)
    decreases |a|
  {
    if a == [] {
      assert a + b == b;
    } else {
      assert (a + b)[0] == a[0];
      assert (a + b)[1..] == a[1..] + b;
      MissingFromAppend(a[1..], b, df);
    }
  }

  /** One required name is reported exactly when it is absent. */
  lemma MissingFromSingle(c: string, df: Table)
    ensures MissingFrom([c], df) == if c in df then [] else [c]
  {
  }

  /************************* only contract columns matter *********************/

  /** Two tables agree on `cols`: each of those names is in both or neither,
      with the same column where present. */
  ghost predicate AgreeOn(df: Table, df': Table, cols: seq<string>)
  {
    forall k :: 0 <= k < |cols| ==>
      (cols[k] in df <==> cols[k] in df') && (cols[k] in df ==> df[cols[k]] == df'[cols[k]])
  }

  /** Two tables have the same names present among `cols`. */
  ghost predicate SamePresence(df: Table, df': Table, cols: seq<string>)
  {
    forall k :: 0 <= k < |cols| ==> (cols[k] in df <==> cols[k] in df')
  }

  lemma {:induction false} MissingFromPresenceOnly(cols: seq<string>, df: Table, df': Table)
    requires SamePresence(df, df', cols)
    ensures MissingFrom(cols, df) == MissingFrom(cols, df')
    decreases |cols|
  {
    if cols != [] {
      assert SamePresence(df, df', cols[1..]) by {
        forall k | 0 <= k < |cols[1..]| ensures cols[1..][k] in df <==> cols[1..][k] in df' {
          assert cols[1..][k] == cols[k + 1];
        }
      }
      assert cols[0] in df <==> cols[0] in df' by { assert cols[0] == cols[0 + 0]; }
      MissingFromPresenceOnly(cols[1..], df, df');
    }
  }

  /** The dtype phase reads only the columns its table names. No induction
      is needed: the contract of `CheckDtypes` pins its result down, since
      the first mismatching entry is unique. */
  lemma CheckDtypesLocal(df: Table, df': Table, dtypes: DtypeTable)
    requires DtypeKeysPresent(df, dtypes) && DtypeKeysPresent(df', dtypes)
    requires forall i :: 0 <= i < |dtypes| ==> df[dtypes[i].0] == df'[dtypes[i].0]
    ensures CheckDtypes(df, dtypes) == CheckDtypes(df', dtypes)
  {
  }

  /** The category phase reads only the columns its table names; as above,
      the contract of `ValidateCategories` determines its result. */
  lemma ValidateCategoriesLocal(df: Table, df': Table, categories: CategoryTable)
    requires forall i :: 0 <= i < |categories| ==>
      (categories[i].0 in df <==> categories[i].0 in df')
      && (categories[i].0 in df ==> df[categories[i].0] == df'[categories[i].0])
    ensures ValidateCategories(df, categories) == ValidateCategories(df', categories)
  {
  }

  /** The category table names four of the required columns. */
  lemma CategoryKeysRequired()
    ensures FlightCategories[0].0 == RequiredCols[3] && FlightCategories[1].0 == RequiredCols[4]
    ensures FlightCategories[2].0 == RequiredCols[7] && FlightCategories[3].0 == RequiredCols[6]
    ensures |FlightCategories| == 4
  {
  }

  /** The fallback reads nothing but the eight required columns: two tables
      that agree on those get the same verdict. */
  lemma FallbackLocal(df: Table, df': Table)
    requires AgreeOn(df, df', RequiredCols)
    ensures FallbackValidate(df) == FallbackValidate(df')
  {
    MissingFromPresenceOnly(RequiredCols, df, df');
    var missing := MissingFrom(RequiredCols, df);
    if missing != [] {
      assert FallbackValidate(df) == MissingColumns(missing);
      assert FallbackValidate(df') == MissingColumns(missing);
    } else {
      FallbackLocalPresent(df, df');
    }
  }

  lemma FallbackLocalPresent(df: Table, df': Table)
    requires AgreeOn(df, df', RequiredCols)
    requires PresenceOk(df)
    ensures FallbackValidate(df) == FallbackValidate(df')
  {
    DtypeKeysRequired();
    assert PresenceOk(df');
    assert DtypeKeysPresent(df, FlightDtypes) && DtypeKeysPresent(df', FlightDtypes);
    assert CheckDtypes(df, FlightDtypes) == CheckDtypes(df', FlightDtypes) by {
      CheckDtypesLocal(df, df', FlightDtypes);
    }
    assert ValidateCategories(df, FlightCategories) == ValidateCategories(df', FlightCategories) by {
      CategoryKeysRequired();
      ValidateCategoriesLocal(df, df', FlightCategories);
    }
    assert RequiredCols[0] == FlightIdCol && RequiredCols[5] == DurationCol;
    PresenceNothingMissing(df);
    PresenceNothingMissing(df');
  }

  /** Extra columns are not rejected on the fallback path: adding columns
      outside the contract changes nothing, and a conforming table stays
      accepted. */
  lemma ExtraColumnsIgnored(df: Table, extra: Table)
    requires forall k :: 0 <= k < |RequiredCols| ==> RequiredCols[k] !in extra
    ensures FallbackValidate(df + extra) == FallbackValidate(df)
    ensures Conforms(df) ==> FallbackValidate(df + extra).Ok?
  {
    assert AgreeOn(df + extra, df, RequiredCols) by {
      forall k | 0 <= k < |RequiredCols|
        ensures RequiredCols[k] in df + extra <==> RequiredCols[k] in df
        ensures RequiredCols[k] in df ==> (df + extra)[RequiredCols[k]] == df[RequiredCols[k]]
      {
        assert RequiredCols[k] !in extra;
      }
    }
    FallbackLocal(df + extra, df);
    FallbackPhaseOrder(df);
  }

  /** A missing column wins regardless of everything else: the report depends
      only on which required names are present. */
  lemma MissingDominates(df: Table, df': Table)
    requires !PresenceOk(df)
    requires SamePresence(df, df', RequiredCols)
    ensures FallbackValidate(df) == FallbackValidate(df')
    ensures FallbackValidate(df) == MissingColumns(MissingFrom(RequiredCols, df))
  {
    MissingFromPresenceOnly(RequiredCols, df, df');
  }

  /************************** absent categories skipped ***********************/

  /** The entries of a category table whose column the table has. */
  function PresentCategories(df: Table, categories: CategoryTable): (r: CategoryTable)
    ensures forall i :: 0 <= i < |r| ==> r[i].0 in df && r[i] in categories
    ensures forall i :: 0 <= i < |categories| && categories[i].0 in df ==> categories[i] in r
    decreases |categories|
  {
    if categories == [] then []
    else if categories[0].0 in df then [categories[0]] + PresentCategories(df, categories[1..])
    else PresentCategories(df, categories[1..])
  }

  /** Filtering keeps the table's order: it distributes over concatenation. */
  lemma {:induction false} PresentCategoriesAppend(df: Table, a: CategoryTable, b: CategoryTable)
    ensures PresentCategories(df, a + b) == PresentCategories(df, a) + PresentCategories(df, b)
    decreases |a|
  {
    if a == [] {
      assert a + b == b;
    } else {
      assert (a + b)[0] == a[0];
      assert (a + b)[1..] == a[1..] + b;
      PresentCategoriesAppend(df, a[1..], b);
    }
  }

  /** Category columns absent from the table never matter: dropping their
      entries from the category table leaves the verdict unchanged. */
  lemma {:induction false} AbsentCategoriesIgnored(df: Table, categories: CategoryTable)
    ensures ValidateCategories(df, categories) == ValidateCategories(df, PresentCategories(df, categories))
    decreases |categories|
  {
    if categories != [] {
      AbsentCategoriesIgnored(df, categories[1..]);
      if categories[0].0 in df {
        var p := [categories[0]] + PresentCategories(df, categories[1..]);
        assert p[0] == categories[0];
        assert p[1..] == PresentCategories(df, categories[1..]);
      }
    }
  }

  /** A table with none of the category columns always passes the category phase. */
  lemma NoCategoryColumnsPass(df: Table, categories: CategoryTable)
    requires forall i :: 0 <= i < |categories| ==> categories[i].0 !in df
    ensures ValidateCategories(df, categories) == Ok
  {
  }

  /****************************** one-row tables ******************************/

  /** A one-row flight table with the contract's dtypes; only the id, the
      duration and the origin vary. */
  function FlightRow(flightId: int, duration: real, origin: string): (df: Table)
    ensures PresenceOk(df)
  {
    map[
      FlightIdCol := Column("int64", [Int(flightId)]),
      DepartureCol := Column("datetime64[ns]", [Timestamp(0)]),
      ArrivalCol := Column("datetime64[ns]", [Timestamp(3600)]),
      OriginCol := Column("object", [Text(origin)]),
      DestinationCol := Column("object", [Text("LAX")]),
      DurationCol := Column("float64", [Float(duration)]),
      AirlineCol := Column("object", [Text("Delta")]),
      StatusCol := Column("object", [Text("on_time")])
    ]
  }

  lemma FlightRowDtypes(flightId: int, duration: real, origin: string)
    ensures DtypeKeysPresent(FlightRow(flightId, duration, origin), FlightDtypes)
    ensures CheckDtypes(FlightRow(flightId, duration, origin), FlightDtypes) == Ok
  {
    // not needed for validity; it speeds up verification
    assert DtypesMatch(FlightRow(flightId, duration, origin), FlightDtypes);
  }

  lemma FlightRowCategories(flightId: int, duration: real, origin: string)
    ensures ValidateCategories(FlightRow(flightId, duration, origin), FlightCategories)
      == if origin in FlightCategories[0].1 then Ok else BadCategory(OriginCol, {Text(origin)})
  {
    var df := FlightRow(flightId, duration, origin);
    var r := ValidateCategories(df, FlightCategories);
    var allowed := FlightCategories[0].1;
    if origin in allowed {
      assert CategoriesHold(df, FlightCategories);
    } else {
      assert InvalidValues(df[OriginCol], allowed) == {Text(origin)};
      assert r == BadCategory(OriginCol, {Text(origin)});
    }
  }

  /** The verdict on a one-row table with the right columns and dtypes: an
      unknown origin is reported with exactly that value, before a negative
      id, which is reported before a negative duration. */
  lemma FlightRowVerdict(flightId: int, duration: real, origin: string)
    ensures FallbackValidate(FlightRow(flightId, duration, origin)) ==
      if origin !in FlightCategories[0].1 then BadCategory(OriginCol, {Text(origin)})
      else if flightId < 0 then Negative(FlightIdCol)
      else if duration < 0.0 then Negative(DurationCol)
      else Ok
  {
    var df := FlightRow(flightId, duration, origin);
    FlightRowDtypes(flightId, duration, origin);
    FlightRowCategories(flightId, duration, origin);
    PresenceNothingMissing(df);
    assert df[FlightIdCol].values == [Int(flightId)] && df[DurationCol].values == [Float(duration)];
    assert AnyNegative(df[FlightIdCol]) <==> flightId < 0 by {
      if flightId < 0 { assert IsNegative(df[FlightIdCol].values[0]); }
    }
    assert AnyNegative(df[DurationCol]) <==> duration < 0.0 by {
      if duration < 0.0 { assert IsNegative(df[DurationCol].values[0]); }
    }
  }

  /** A row with a negative id and a known origin fails on `flight_id`. */
  lemma ScenarioNegativeId()
    ensures FallbackValidate(FlightRow(-1, 5.0, "JFK")) == Negative(FlightIdCol)
  {
    assert "JFK" == FlightCategories[0].1[0];
    FlightRowVerdict(-1, 5.0, "JFK");
  }

  /** A row with an unknown origin fails listing exactly that value. */
  lemma ScenarioBadOrigin()
    ensures FallbackValidate(FlightRow(1, 5.0, "XXX")) == BadCategory(OriginCol, {Text("XXX")})
  {
    // not needed for validity; it speeds up verification
    assert "XXX" !in FlightCategories[0].1 by {
      assert forall a :: a in FlightCategories[0].1 ==> a[0] != 'X';
    }
    FlightRowVerdict(1, 5.0, "XXX");
  }

  /** A row meeting every constraint passes. */
  lemma ScenarioAccepted()
    ensures FallbackValidate(FlightRow(1, 5.0, "JFK")) == Ok
  {
    FlightRowVerdict(1, 5.0, "JFK");
  }

  /** A table lacking the arrival time and the status fails listing exactly
      those two, in contract order, whatever its other columns hold. */
  lemma MissingArrivalAndStatus(df: Table)
    requires FlightIdCol in df && DepartureCol in df && OriginCol in df
    requires DestinationCol in df && DurationCol in df && AirlineCol in df
    requires ArrivalCol !in df && StatusCol !in df
    ensures FallbackValidate(df) == MissingColumns([ArrivalCol, StatusCol])
  {
    var cols := RequiredCols;
    assert MissingFrom(cols[7..], df) == [StatusCol];
    assert MissingFrom(cols[5..], df) == [StatusCol];
    assert MissingFrom(cols[3..], df) == [StatusCol];
    assert MissingFrom(cols[1..], df) == [ArrivalCol, StatusCol];
    assert MissingFrom(cols, df) == [ArrivalCol, StatusCol];
  }
}
