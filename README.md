# Skew-T profile resolution, modelled in Dafny

`generate_skewt.py` draws a Skew-T log-P diagram for Payerne (46.81 N,
6.94 E) from the latest ICON-CH1 forecast run it can find complete. This
project models everything that script does before it starts drawing:

- **Candidate runs** (`candidate_runs.dfy`, on `clock.dfy`). The clock
  reading is rounded down to a three-hour run boundary. That time and the
  three boundaries before it, each three hours earlier, are the candidates.
  A date-time is held as a day count from a fixed UTC midnight plus hour,
  minute, second and microsecond. The calendar date that `datetime` holds
  as year, month and day is collapsed into that day count, which is all
  that rounding to the hour and subtracting hours need. Subtracting a duration goes through the absolute
  microsecond count, as `timedelta` arithmetic does.
- **Nearest grid point** (`grid_locator.dfy`). `get_nearest_profile` takes
  the squared latitude/longitude distance from the target to every
  horizontal point. The point it picks is the first minimum in flat order.
  On an unstructured mesh that order is the cell index. On a regular grid
  it is row-major order, which is how `stack` flattens. The function
  returns that point's vertical column. It returns nothing for a missing
  dataset and raises an error when there is no point at all.
- **Run selection** (`run_selector.dfy`). Candidates are tried in order.
  Within a run, T, U, V and P are fetched one after another. The first
  column that is missing, too short (under 5 levels) or raises abandons the
  run. Humidity is then tried as RELHUM, then QV, and the first usable
  column wins. The first run that completes is taken and no later run is
  fetched. Every fetch is recorded, so the order of requests is part of
  what is proved.
- **Derived quantities and the joint sort** (`derived.dfy`, on
  `profile_order.dfy`). Dewpoint follows the humidity variable's formula
  (relative humidity is turned from percent into a fraction). Wind speed is
  converted to km/h. All six per-level arrays are then gathered through
  `p.argsort()[::-1]`, the single order that makes pressure non-increasing.
- **The pipeline** (`pipeline.dfy`). This joins the three stages together
  for one invocation.

The data source and the clock are inputs. The data source is a function
from (reference time, variable) to "raised" or "returned a field or
nothing". The meteorological formulas (dewpoint from relative or specific
humidity, wind speed) are given functions in a `Physics` record. The
model states how they are applied, not what they compute.

## Model

| member | source | states |
|---|---|---|
| Clock.FromMicros | generate_skewt.py:60 | the date-time built from a microsecond count has exactly that count (timedelta arithmetic renormalises the fields) |
| Clock.FromToMicros | generate_skewt.py:57-60 | reading a date-time as microseconds and back returns the same fields |
| Clock.HoursBefore | generate_skewt.py:60 | `t - timedelta(hours=n)` lies exactly n hours of microseconds before t |
| CandidateRuns.LatestRun | generate_skewt.py:55-57 | the latest run is on the same day, on a three-hour boundary, at or before now and less than three hours before it |
| CandidateRuns.Candidates | generate_skewt.py:59-60 | exactly four candidate times are tried |
| CandidateRuns.BoundaryIsMultiple | generate_skewt.py:56-57 | a time is on a run boundary exactly when it is a whole number of three-hour intervals after the epoch |
| CandidateRuns.BoundaryAt | generate_skewt.py:60 | any whole number of three-hour intervals after the epoch is a run boundary |
| CandidateRuns.StepBackOnBoundary | generate_skewt.py:60 | stepping back 3·n hours from a run boundary lands on a run boundary |
| CandidateRuns.CandidateTimes | generate_skewt.py:55-60 | the first candidate is the latest run, each next one is exactly three hours earlier, and all four are run boundaries |
| GridLocator.FirstArgMin | generate_skewt.py:31 | `argmin` gives the first index holding the least value: no entry is smaller, and every earlier entry is strictly larger |
| GridLocator.DistanceGrid | generate_skewt.py:30 | the distance grid has the shape of the coordinate grid, and each entry is the squared distance of that point |
| GridLocator.FlattenAt | generate_skewt.py:37 | row-major flattening of a w-wide grid puts row i, column j at flat position i·w + j |
| GridLocator.FlattenLength | generate_skewt.py:37 | flattening a w-wide grid of n rows gives n·w entries |
| GridLocator.SplitFlatIndex | generate_skewt.py:37 | a flat index below rows·w splits into a row below rows and a column below w |
| GridLocator.FlattenKeepsLevels | generate_skewt.py:37 | stacking keeps every column's number of levels |
| GridLocator.FlatDistances | generate_skewt.py:30 | one distance per horizontal point in flat order; on an unstructured mesh entry i is the squared distance of cell i |
| GridLocator.FlatColumns | generate_skewt.py:34-37 | one column per horizontal point in flat order (`stack` on a grid), each with the field's level count |
| GridLocator.NearestProfile | generate_skewt.py:17-39 | no dataset gives nothing; it is an error exactly when the field has no horizontal point; otherwise the column of a first-minimum-distance point, with the field's level count |
| GridLocator.NearestOnMesh | generate_skewt.py:34-35 | on an unstructured mesh the result is the column of a cell k whose distance is least and strictly less than that of every earlier cell |
| GridLocator.GridDistanceAt | generate_skewt.py:30-31 | on a regular grid, the flat distance at position i·w + j is the distance of grid point (i, j) |
| GridLocator.NearestOnGrid | generate_skewt.py:36-37 | on a regular grid the result is the column at a point (r, c) whose distance is least over the grid and strictly less than that of every point before it in row-major order |
| ProfileOrder.Insert | generate_skewt.py:109 | inserting an index into an order adds exactly that index and keeps every index valid |
| ProfileOrder.InsertAbove | generate_skewt.py:109 | inserting a value at least v among values at least v leaves every value at least v |
| ProfileOrder.InsertAscending | generate_skewt.py:109 | inserting into an order ascending by p keeps it ascending |
| ProfileOrder.InsertExtends | generate_skewt.py:109 | inserting the next index into an ascending permutation of 0..n-2 gives an ascending permutation of 0..n-1 |
| ProfileOrder.ArgSortPrefix | generate_skewt.py:109 | the argsort of the first n values is a permutation of 0..n-1 that reads p in ascending order |
| ProfileOrder.ArgSort | generate_skewt.py:109 | `argsort`: a permutation of the level indices that reads p in ascending order |
| ProfileOrder.Reversed | generate_skewt.py:109 | `[::-1]`: same length, with entry k taken from position n-1-k |
| ProfileOrder.ReversedMultiset | generate_skewt.py:109 | reversing keeps every element the same number of times |
| ProfileOrder.DescendingOrder | generate_skewt.py:109 | `p.argsort()[::-1]` lists each level once and reads p in non-increasing order |
| ProfileOrder.Gather | generate_skewt.py:110 | `a[inds]`: entry k is a[inds[k]] |
| ProfileOrder.GatherRemoveAt | generate_skewt.py:110 | removing one position from an order removes one index and its gathered value |
| ProfileOrder.GatherDropFirst | generate_skewt.py:110 | dropping the first position of an order removes one index and its gathered value |
| ProfileOrder.GatherSameIndices | generate_skewt.py:110 | two orders holding the same indices gather the same values, each as often |
| ProfileOrder.FindIndex | generate_skewt.py:110 | an index occurring in an order is found at some position of it |
| ProfileOrder.GatherPermutes | generate_skewt.py:110 | gathering through a permutation keeps every value, each as often |
| ProfileOrder.SortedPressure | generate_skewt.py:109-110 | the sorted pressures are non-increasing and are the same values as before |
| DerivedQuantities.DewpointAt | generate_skewt.py:100-103 | for RELHUM the dewpoint of a level is the relative-humidity formula on its temperature and its humidity divided by 100; for QV it is the specific-humidity formula on its pressure, temperature and humidity |
| DerivedQuantities.Dewpoints | generate_skewt.py:99-103 | RELHUM uses the relative-humidity formula on hum/100; any other name uses the specific-humidity formula on p, t and hum; it fails exactly on an array length mismatch |
| DerivedQuantities.WindSpeeds | generate_skewt.py:105-106 | the speed of each level is the wind speed of (u, v) times 3.6, in km/h; it fails exactly when u and v differ in length |
| DerivedQuantities.Derive | generate_skewt.py:93-110 | it succeeds exactly when the arrays agree in shape; then all six arrays have one entry per pressure level, pressure is non-increasing with the same values, and output level k of every array comes from the same input level `order[k]` |
| DerivedQuantities.EqualLengthsSort | generate_skewt.py:94-110 | with five equal-length columns the sounding is produced, and p, t, u and v each come out as reorderings of their inputs |
| RunSelector.Retrieve | generate_skewt.py:67-69 | a column is found exactly when the fetch returns a field with at least one horizontal point, and it is that field's nearest column with its level count; nothing returned is "absent"; a raised error (fetch or empty argmin) is "errored" |
| RunSelector.UsableRetrieved | generate_skewt.py:69-70 | a fetched variable is usable exactly when the fetch returns a field with a horizontal point and at least 5 levels, which is when neither `res is None` nor `res.size < 5` holds |
| RunSelector.Requests | generate_skewt.py:67-68 | one request per name, in order, all for the given reference time |
| RunSelector.FirstWhere | generate_skewt.py:66-81 | the first name whose column is (or is not) usable: every earlier name is the other way; none past the end |
| RunSelector.FirstWhereIs | generate_skewt.py:66-81 | any position with those two properties is the first one |
| RunSelector.CoreAbandons | generate_skewt.py:66-71 | when core variable j is the first to fail, the run is incomplete and exactly j + 1 requests were made |
| RunSelector.HumidityOutcome | generate_skewt.py:73-84 | with the core complete, the humidity name used is the first usable one; the run is complete exactly when there is one; and the requests are the core ones followed by the humidity names up to it |
| RunSelector.TableOfRun | generate_skewt.py:71-80 | a table holding only this run's core columns, with HUM and HUM_TYPE added, is exactly the run's table |
| RunSelector.FetchHumidity | generate_skewt.py:73-82 | names are requested in order until one is usable; that one is stored as HUM with its name as HUM_TYPE; if none is usable the table is unchanged |
| RunSelector.AttemptRun | generate_skewt.py:65-87 | one attempt makes exactly the run's requests; it completes exactly when the run is complete, and then the table is the run's table; otherwise the table holds only core variables |
| RunSelector.AttemptLog | generate_skewt.py:65-84 | one attempt's requests start with T and number at most six (four core names and two humidity names) |
| RunSelector.FirstComplete | generate_skewt.py:63-86 | the first candidate whose run is complete: every earlier one is incomplete; when there is none, all are incomplete |
| RunSelector.SelectionLog | generate_skewt.py:63-87 | the requests over all candidates, stopping after the first complete run, number at most six per candidate |
| RunSelector.RunData | generate_skewt.py:71-80 | a run's table has exactly the keys T, U, V, P, HUM and HUM_TYPE, with each core variable's column under its own name |
| RunSelector.PrefixDecides | generate_skewt.py:85-86 | once a prefix of the candidates holds a complete run, the later candidates change neither the choice nor the requests |
| RunSelector.StepLog | generate_skewt.py:63-87 | after only incomplete candidates, the next one adds its attempt's requests and is chosen exactly when complete |
| RunSelector.SelectRun | generate_skewt.py:62-91 | the loop makes exactly the selection's requests; it succeeds exactly when some candidate is complete, and then returns the first complete candidate and its table; otherwise it returns no reference time and no humidity |
| RunSelector.CompleteRunIff | generate_skewt.py:66-86 | a run is complete exactly when every core variable and at least one humidity name give usable columns |
| RunSelector.HumidityFallback | generate_skewt.py:74-81 | RELHUM is used exactly when it is usable; QV exactly when RELHUM is not and QV is; HUM is the column of the name in HUM_TYPE |
| RunSelector.RunDataUsable | generate_skewt.py:70-80 | in a complete run's table every core column and HUM has at least 5 levels, and HUM_TYPE is one of the humidity names |
| RunSelector.RunTable | generate_skewt.py:71-80 | a complete run's table has exactly the keys T, U, V, P, HUM and HUM_TYPE, each holding that run's column or name |
| RunSelector.AttemptTimes | generate_skewt.py:67-77 | every request of an attempt is for that attempt's reference time |
| RunSelector.LogTimes | generate_skewt.py:63-77 | every request made is for one of the candidate times |
| RunSelector.NothingAfterWinner | generate_skewt.py:85-86 | no candidate after the first complete one is requested at all |
| RunSelector.TriedUpToWinner | generate_skewt.py:63-87 | every candidate up to and including the winner (every candidate when there is none) has its T requested |
| Pipeline.ProduceSounding | generate_skewt.py:53-110 | the requests are those of the selection over the four candidates; no complete run is reported exactly when none is complete; otherwise the outcome is the derivation on the first complete candidate's columns: a report with that candidate, its humidity name and the sounding when the derivation succeeds, the derivation's error when not; with five equal-length columns the report is always produced |

## Left out

- The data source (`ogd_api.Request` and `ogd_api.get_from_ogd`, network access) is a function parameter. The collection, horizon and perturbed arguments of the request are fixed in the source and do not appear in the model.
- The clock reading (`datetime.now`) is a parameter. Time zones are not modelled: every time is UTC.
- The meteorological formulas (`dewpoint_from_relative_humidity`, `dewpoint_from_specific_humidity`, `wind_speed`) are given functions. Their numerical content and floating-point behaviour are not modelled.
- Physical units (`pint`) are not modelled. Only the m/s to km/h factor 3.6 and the percent to fraction division by 100 appear. The units attached to P, T, U, V and QV change no values.
- Finding the coordinate names (`latitude` or `lat`, `longitude` or `lon`) and taking the first data variable of a `Dataset` are not modelled. A field is already a labelled array with known horizontal points.
- A regular grid is modelled with two-dimensional latitude and longitude coordinates. With one-dimensional `lat` and `lon` coordinates, the source takes the horizontal dimensions from `lat` alone. It then applies a flat index over the lat×lon distance array to the latitude dimension, which selects the wrong row or falls outside it, so the source evidently does not handle that layout. That case is not part of this model.
- `squeeze` and `compute` are not modelled: they change neither the values of a column nor its number of levels.
- GridLocator.FirstArgMin: NaN distances are not modelled, because reals have no NaN. `DataArray.argmin()` skips NaN values by default for floating-point data and raises only when every distance is NaN.
- ProfileOrder.ArgSort: it is a stable ascending argsort. Numpy's default sort is not stable, so for equal pressures the order of the tied levels may differ. The sorted pressures themselves are the same.
- DerivedQuantities.Derive: numpy broadcasting of length-1 arrays is not modelled; any length mismatch is a `ShapeMismatch` error.
- Everything after line 110 is not modelled: the Skew-T and wind-speed panels, the axis formatting with `format_pressure_as_meters`, the title and saving the figure.
- The progress and error messages (`print`) and the `__main__` entry are not modelled. The model returns the outcome of a run instead of printing why a run was incomplete.
- The profile table is not cleared between attempts, and the model keeps this: core columns from an abandoned run can remain in it. `SelectRun` proves that they never reach a chosen run's table, and that a failed selection has no humidity entry.
- Pressure comes out non-increasing (`NonIncreasing`), not strictly decreasing. Equal pressures stay equal after `argsort()[::-1]`.
