# Flight-table schema validator

This project models the data-contract check of a flight-analytics pipeline
(`src/components/schemas.py`). A flight table is checked against a fixed
contract of eight columns:

- `flight_id` (`int64`, no negative values);
- `departure_time` and `arrival_time` (`datetime64[ns]`);
- `origin` and `destination` (`object`, one of JFK, LAX, SFO, ORD, ATL);
- `duration` (`float64`, no negative values);
- `airline` (`object`, one of Delta, United, American, Southwest);
- `status` (`object`, one of on_time, delayed, cancelled).

There are two validators. The declarative engine (Pandera) is used when it is
installed. It is a library call whose internals are not part of this model,
so here it is only a predicate, `accepts`, passed in as part of `Engine`. When
it is absent, the hand-written fallback runs. The fallback has five phases,
always in this order, and stops at the first failure:

1. presence of the required columns, reported as the list of missing names in
   contract order;
2. exact dtype strings, in the order of the dtype table; the first mismatch is
   reported with its actual and expected dtype;
3. category membership (`validate_categories`): walk the category table in
   insertion order, skip absent columns, and report the first column whose
   distinct values are not all permitted, with exactly the offending values;
4. no negative `flight_id`;
5. no negative `duration`.

Files:

- `schemas.dfy` (module `Schemas`): the data model and the validators as pure
  functions. It also holds the lemmas that state the phase order and the
  contents of each report.
- `schema_properties.dfy` (module `SchemaProperties`): lemmas that relate
  several calls. They cover the order of the missing-column report, that only
  the contract's own columns are read, that extra columns are accepted, that
  absent category columns are skipped, and the verdicts on one-row tables.

Data model:

- A table is a `map` from column name to `Column`.
- A `Column` is the string form of its dtype plus its cells.
- A cell is a `Value`: an integer, a real, a string or a timestamp. No
  coercion happens on the fallback path, so cells are already typed.
- The category table and the dtype table are Python dicts. They are modelled
  as sequences of pairs, because their insertion order decides which column
  is reported first.
- Raising an exception is modelled by the result value `Outcome`.
  `Outcome.Raises` gives the exception class: `TypeError` for a dtype
  mismatch, `ValueError` for any other fallback failure, and the engine's
  aggregate error for `Rejected`.

Validation is a pure function of the table. The caller's table therefore
cannot change, and validating the same table twice gives the same result.

Facts about the code that are easy to miss:

- The fallback does not behave like the engine on extra columns.
  The engine's schema is strict and rejects extra columns, but the fallback
  accepts them (`ExtraColumnsIgnored`).
- The missing columns are reported as a list in the order of `required_cols`,
  not as a set (`MissingFromAppend`).
- The engine casts values before checking (`coerce=True`). The fallback
  instead demands exact dtype strings.
- Only the first failing phase is reported. A negative `flight_id` or a bad
  category value is reported only when every earlier phase passes
  (`FallbackPhaseOrder`).

## Model

| member | source | states |
|---|---|---|
| `Schemas.Outcome.Raises` | src/components/schemas.py:61-106 | a dtype mismatch is the only failure raised as `TypeError`; the engine's failure is its aggregate error; every other fallback failure is a `ValueError` |
| `Schemas.InvalidValues` | src/components/schemas.py:59 | a value is invalid exactly when it occurs in the column and is not one of the permitted strings |
| `Schemas.ValidateCategories` | src/components/schemas.py:52-64 | succeeds exactly when every present category column holds only permitted values; on failure it names the first violating present column in table order, with its distinct values minus the permitted set, which is nonempty |
| `Schemas.MissingFrom` | src/components/schemas.py:81 | the list of missing names is empty exactly when every listed column is present; it is no longer than the list, and every name in it is absent from the table |
| `Schemas.MissingFromMembers` | src/components/schemas.py:81 | a name is reported missing exactly when it is required and absent |
| `Schemas.CheckDtypes` | src/components/schemas.py:86-98 | succeeds exactly when every listed column has exactly the expected dtype string; otherwise reports the first mismatching entry in table order, with its actual and expected dtype |
| `Schemas.DtypeKeysRequired` | src/components/schemas.py:76-95 | the dtype table names exactly the required columns, in the same order |
| `Schemas.PresenceNothingMissing` | src/components/schemas.py:81-83 | the presence phase passes exactly when all eight required columns are present |
| `Schemas.PresenceCoversDtypes` | src/components/schemas.py:81-97 | once presence passes, every dtype lookup finds its column |
| `Schemas.IsNegative` | src/components/schemas.py:103-106 | only a number can be negative; an integer or real cell is negative exactly when it is below zero |
| `Schemas.AnyNegative` | src/components/schemas.py:103-106 | the column test fails exactly when some cell of the column is negative |
| `Schemas.NegativeIffUnbounded` | src/components/schemas.py:103-106 | for a present column, the negative-value test fires exactly when the column breaks its non-negativity bound |
| `Schemas.FallbackValidate` | src/components/schemas.py:74-106 | the fallback ends in success, missing columns, a dtype mismatch, a category violation or a negative value, and never in the engine's aggregate error |
| `Schemas.FallbackPhaseOrder` | src/components/schemas.py:76-106 | each failure kind is reported exactly when all earlier phases pass and its own phase fails: missing before dtype, before category, before negative `flight_id`, before negative `duration`; success exactly when the whole contract holds |
| `Schemas.FallbackReports` | src/components/schemas.py:81-101 | a missing-column report is nonempty and lists exactly the absent required columns; a dtype report is the first mismatch in dtype-table order; a category report is the first violating column with exactly its invalid values |
| `Schemas.ValidateSchema` | src/components/schemas.py:67-106 | with the engine, success exactly when the engine accepts, else its aggregate error; without it, success exactly when the fallback's contract holds |
| `SchemaProperties.MissingFromAppend` | src/components/schemas.py:81 | the missing-column report distributes over concatenation of the required list, so it keeps that list's order |
| `SchemaProperties.MissingFromSingle` | src/components/schemas.py:81 | a single required name is reported exactly when the table lacks it |
| `SchemaProperties.MissingFromPresenceOnly` | src/components/schemas.py:81 | the missing-column report depends only on which listed names are present |
| `SchemaProperties.CheckDtypesLocal` | src/components/schemas.py:96-98 | the dtype phase reads only the columns its table names |
| `SchemaProperties.ValidateCategoriesLocal` | src/components/schemas.py:57-63 | the category phase reads only the columns its table names |
| `SchemaProperties.CategoryKeysRequired` | src/components/schemas.py:13-18 | the four category columns are required columns |
| `SchemaProperties.FallbackLocal` | src/components/schemas.py:76-106 | two tables that agree on the eight required columns get the same verdict |
| `SchemaProperties.FallbackLocalPresent` | src/components/schemas.py:86-106 | two tables with every required column, agreeing on them, get the same verdict |
| `SchemaProperties.ExtraColumnsIgnored` | src/components/schemas.py:76-106 | adding columns outside the contract leaves the verdict unchanged, so a conforming table with extra columns still passes |
| `SchemaProperties.MissingDominates` | src/components/schemas.py:81-83 | when a required column is missing, the verdict is the missing-column report, whatever the table's other contents |
| `SchemaProperties.PresentCategories` | src/components/schemas.py:57-58 | keeps exactly the category entries whose column is present: every kept entry is present and from the table, and every present entry is kept |
| `SchemaProperties.PresentCategoriesAppend` | src/components/schemas.py:57-58 | the filter distributes over concatenation, so it keeps the category table's order |
| `SchemaProperties.AbsentCategoriesIgnored` | src/components/schemas.py:57-58 | dropping the category entries of absent columns leaves the category verdict unchanged |
| `SchemaProperties.NoCategoryColumnsPass` | src/components/schemas.py:58 | a table with none of the category columns passes the category phase |
| `SchemaProperties.FlightRowDtypes` | src/components/schemas.py:86-98 | a one-row table with the contract's dtypes passes the dtype phase |
| `SchemaProperties.FlightRowCategories` | src/components/schemas.py:13-18 | on a one-row table, the category phase fails exactly on an unknown origin, listing just that value |
| `SchemaProperties.FlightRowVerdict` | src/components/schemas.py:100-106 | on a one-row table: an unknown origin is reported before a negative id, which is reported before a negative duration; otherwise success |
| `SchemaProperties.ScenarioNegativeId` | src/components/schemas.py:103-104 | the eight-column `FlightRow(-1, 5.0, "JFK")` fails on `flight_id` |
| `SchemaProperties.ScenarioBadOrigin` | src/components/schemas.py:59-63 | the eight-column `FlightRow(1, 5.0, "XXX")` fails on `origin` with exactly {XXX} |
| `SchemaProperties.ScenarioAccepted` | src/components/schemas.py:76-106 | the eight-column `FlightRow(1, 5.0, "JFK")` passes |
| `SchemaProperties.MissingArrivalAndStatus` | src/components/schemas.py:76-83 | a table lacking exactly `arrival_time` and `status` fails with the list [arrival_time, status], whatever its other contents |

## Left out

- The declarative engine path (src/components/schemas.py:23-44, 71-73): its schema, lazy error collection, strict mode and type coercion all live inside a third-party library. The engine is the uninterpreted predicate `Engine.accepts`, and its failure is the single outcome `Rejected`.
- The console message printed when the engine is not installed (line 44) is I/O.
- The pandas dtype inference is not modelled. A column's dtype is a given string tag.
- NaN is not modelled, nor the comparison of floats with NaN. Values are already typed and never NaN.
- Exception messages are left out. Only the exception class and the data each message reports (names, dtypes, value set) are modelled.
- Schemas.InvalidValues: the invalid set is built with the model's `Value` equality, whereas Python's `set()` and pandas' `unique()` (src/components/schemas.py:59) treat an integer cell and a float cell of equal value (such as 1 and 1.0) as one element. A column holding both therefore gets the same verdict and the same reported column, but the model's reported set holds both cells where the source's holds one; `ValidateCategories` and `FallbackReports` report this set.
- Schemas.IsNegative: a non-numeric cell counts as not negative, whereas pandas would raise on `< 0` for strings. Once the dtype phase passes, both columns checked are numeric, so the case arises only for tables whose cells disagree with their dtype tag.
- Only string-valued category lists are modelled. `validate_categories` accepts any dict of column to permitted values (src/components/schemas.py:52), but the only table the code passes, `FLIGHT_CATEGORIES`, holds strings.
- Duplicate column names in a DataFrame are not modelled. A table is a map, so names are unique.
- The order of a DataFrame's columns is not modelled. No check depends on it.
- draft_template.py (directory and file scaffolding) is not part of this model. It is filesystem I/O with no decision logic.
- debug_mongo.py (database connectivity diagnostics) is not part of this model. It is network I/O and console output.
