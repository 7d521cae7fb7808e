/**
  Choosing the model run: candidate reference times are tried in order;
  within a run the core variables are fetched one by one and any missing or
  too short column abandons the run; humidity is then tried under its
  alternative names, the first usable one winning; the first run that
  completes is taken and no later one is tried.
*/
module RunSelector {
  import opened Wrappers
  import opened Clock
  import opened Settings
  import opened GridLocator

  /** What the data source does with one request: raise, or return a dataset (or nothing). */
  datatype Fetched = Raised | Returned(ds: Option<Field>)

  /** The data source, by reference time and variable name. */
  type Source = (Moment, string) -> Fetched

  /** The column found for a variable of a run: the data source followed by the grid lookup. */
  type ColumnSource = (Moment, string) -> Retrieved

  /** One request made to the data source. */
  datatype Request = Request(time: Moment, name: string)

  /** The column of one variable at the target point, or why there is none. */
  datatype Retrieved = Errored | Absent | Got(levels: seq<real>)

  /** An entry of the per-run profile table: a column, or the name of the humidity variable used. */
  datatype Entry = Column(values: seq<real>) | Tag(name: string)

  /**
    Fetching a variable and locating its column. There is a column exactly
    when the fetch returns a field with at least one horizontal point, and
    it is the nearest column, of the field's level count; nothing returned
    is `Absent`; an error raised by either step is `Errored`.
  */
  function Retrieve(fetch: Source, time: Moment, name: string): (r: Retrieved)
    ensures r.Got? <==>
      fetch(time, name).Returned? && fetch(time, name).ds.Some? && PointCount(fetch(time, name).ds.value) > 0
    ensures r.Got? ==>
      NearestProfile(fetch(time, name).ds, LatTarget, LonTarget) == Success(Some(r.levels)) &&
      |r.levels| == fetch(time, name).ds.value.levels
    ensures r.Absent? <==> fetch(time, name) == Returned(None)
  {
    match fetch(time, name)
    case Raised => Errored
    case Returned(ds) =>
      match NearestProfile(ds, LatTarget, LonTarget)
      case Failure(_) => Errored
      case Success(None) => Absent
      case Success(Some(col)) => Got(col)
  }

  /** Every request of the run loop fetches a field and locates its column. */
  function Columns(fetch: Source): ColumnSource
  {
    (time: Moment, name: string) => Retrieve(fetch, time, name)
  }

  /**
    A column that is there and has at least the minimum number of levels;
    the run raises on anything else: an error, no column, or too few levels.
  */
  predicate Usable(r: Retrieved)
  {
    r.Got? && |r.levels| >= MinLevels
  }

  function LevelsOf(r: Retrieved): seq<real>
  {
    if r.Got? then r.levels else []
  }

  /** The requests for `names`, in order, at one reference time. */
  function Requests(time: Moment, names: seq<string>): (rs: seq<Request>)
    ensures |rs| == |names| && forall k :: 0 <= k < |names| ==> rs[k] == Request(time, names[k])
  {
    seq(|names|, k requires 0 <= k < |names| => Request(time, names[k]))
  }

  /**
    The first position of `names` whose column is usable (`usable`) or not
    usable (`!usable`); `|names|` when there is none.
  */
  function FirstWhere(columns: ColumnSource, time: Moment, names: seq<string>, usable: bool): (k: nat)
    ensures k <= |names|
    ensures forall j :: 0 <= j < k ==> Usable(columns(time, names[j])) != usable
    ensures k < |names| ==> Usable(columns(time, names[k])) == usable
  {
    if names == [] then 0
    else if Usable(columns(time, names[0])) == usable then 0
    else 1 + FirstWhere(columns, time, names[1..], usable)
  }

  /** Position of the first core variable that fails; 4 when none does. */
  function CoreFailure(columns: ColumnSource, time: Moment): nat
  {
    FirstWhere(columns, time, CoreVars, false)
  }

  predicate CoreComplete(columns: ColumnSource, time: Moment)
  {
    CoreFailure(columns, time) == |CoreVars|
  }

  /** Position of the first humidity name that gives a usable column; 2 when none does. */
  function HumidityChoice(columns: ColumnSource, time: Moment): nat
  {
    FirstWhere(columns, time, HumidityNames, true)
  }

  /** A run from which the whole profile can be assembled. */
  predicate RunComplete(columns: ColumnSource, time: Moment)
  {
    CoreComplete(columns, time) && HumidityChoice(columns, time) < |HumidityNames|
  }

  /**
    The requests one attempt at `time` makes, in order: the first asks for
    the first core variable, and there are at most as many as core and
    humidity names together.
  */
  function AttemptLog(columns: ColumnSource, time: Moment): (log: seq<Request>)
    ensures 0 < |log| <= |CoreVars| + |HumidityNames| && log[0] == Request(time, CoreVars[0])
  {
    var c := CoreFailure(columns, time);
    if c < |CoreVars| then Requests(time, CoreVars[..c + 1])
    else
      var h := HumidityChoice(columns, time);
      Requests(time, CoreVars) + Requests(time, HumidityNames[..if h < |HumidityNames| then h + 1 else h])
  }

  /** The first complete run among `times`, by position. */
  function FirstComplete(columns: ColumnSource, times: seq<Moment>): (w: Option<nat>)
    ensures w.Some? ==> (w.value < |times| && RunComplete(columns, times[w.value]) &&
      forall j :: 0 <= j < w.value ==> !RunComplete(columns, times[j]))
    ensures w.None? ==> forall j :: 0 <= j < |times| ==> !RunComplete(columns, times[j])
  {
    if times == [] then None
    else
      var before := FirstComplete(columns, times[..|times| - 1]);
      if before.Some? then before
      else if RunComplete(columns, times[|times| - 1]) then Some(|times| - 1)
      else None
  }

  /**
    All requests made when trying `times` in order, stopping after the first
    complete run. No candidate takes more requests than there are core and
    humidity names together.
  */
  function SelectionLog(columns: ColumnSource, times: seq<Moment>): (log: seq<Request>)
    ensures |log| <= 6 * |times|  // four core names and two humidity names per candidate
  {
    if times == [] then []
    else
      var before := times[..|times| - 1];
      assert |AttemptLog(columns, times[|times| - 1])| <= 6;
      if FirstComplete(columns, before).Some? then SelectionLog(columns, before)
      else SelectionLog(columns, before) + AttemptLog(columns, times[|times| - 1])
  }

  /**
    The profile table of a complete run: the four core columns under their
    own names, the humidity column as "HUM" and its name as "HUM_TYPE".
  */
  function RunData(columns: ColumnSource, time: Moment): (data: map<string, Entry>)
    ensures data.Keys == {"T", "U", "V", "P", "HUM", "HUM_TYPE"}
    ensures forall k :: 0 <= k < |CoreVars| ==> data[CoreVars[k]] == Column(LevelsOf(columns(time, CoreVars[k])))
  {
    var h := HumidityChoice(columns, time);
    var name := if h < |HumidityNames| then HumidityNames[h] else "";
    (map v | v in CoreVars :: Column(LevelsOf(columns(time, v))))
      ["HUM" := Column(LevelsOf(columns(time, name)))]["HUM_TYPE" := Tag(name)]
  }

  /** Once a prefix of the candidates holds a complete run, the rest are neither chosen nor tried. */
  lemma {:induction false} PrefixDecides(columns: ColumnSource, times: seq<Moment>, n: nat)
    requires n <= |times| && FirstComplete(columns, times[..n]).Some?
    ensures FirstComplete(columns, times) == FirstComplete(columns, times[..n])
    ensures SelectionLog(columns, times) == SelectionLog(columns, times[..n])
    decreases |times| - n
  {
    if n < |times| {
      var shorter := times[..|times| - 1];
      assert shorter[..n] == times[..n];
      PrefixDecides(columns, shorter, n);
    } else {
      assert times[..n] == times;
    }
  }

  /** Trying one more candidate after only incomplete ones. */
  lemma StepLog(columns: ColumnSource, times: seq<Moment>, i: nat)
    requires i < |times| && FirstComplete(columns, times[..i]).None?
    ensures SelectionLog(columns, times[..i + 1]) == SelectionLog(columns, times[..i]) + AttemptLog(columns, times[i])
    ensures FirstComplete(columns, times[..i + 1]) == if RunComplete(columns, times[i]) then Some(i) else None
  {
    assert times[..i + 1][..i] == times[..i];
  }

  /** `FirstWhere` is the only position with its two properties. */
  lemma {:induction false} FirstWhereIs(columns: ColumnSource, time: Moment, names: seq<string>, usable: bool, k: nat)
    requires k <= |names|
    requires forall j :: 0 <= j < k ==> Usable(columns(time, names[j])) != usable
    requires k < |names| ==> Usable(columns(time, names[k])) == usable
    ensures FirstWhere(columns, time, names, usable) == k
  {
    if names != [] && k > 0 {
      FirstWhereIs(columns, time, names[1..], usable, k - 1);
    }
  }

  /** A run whose core variable at position `j` is the first to fail: incomplete, after `j + 1` requests. */
  lemma CoreAbandons(columns: ColumnSource, time: Moment, j: nat)
    requires j < |CoreVars| && !Usable(columns(time, CoreVars[j]))
    requires forall k :: 0 <= k < j ==> Usable(columns(time, CoreVars[k]))
    ensures !RunComplete(columns, time)
    ensures AttemptLog(columns, time) == Requests(time, CoreVars[..j + 1])
  {
    FirstWhereIs(columns, time, CoreVars, false, j);
  }

  /**
    A run whose core variables are all usable and whose humidity names up
    to `h` fail: the outcome and the requests, whether or not the name at
    `h` exists and gives a usable column.
  */
  lemma HumidityOutcome(columns: ColumnSource, time: Moment, h: nat)
    requires forall k :: 0 <= k < |CoreVars| ==> Usable(columns(time, CoreVars[k]))
    requires h <= |HumidityNames|
    requires forall k :: 0 <= k < h ==> !Usable(columns(time, HumidityNames[k]))
    requires h < |HumidityNames| ==> Usable(columns(time, HumidityNames[h]))
    ensures CoreComplete(columns, time) && HumidityChoice(columns, time) == h
    ensures RunComplete(columns, time) <==> h < |HumidityNames|
    ensures AttemptLog(columns, time) ==
      Requests(time, CoreVars) + Requests(time, HumidityNames[..if h < |HumidityNames| then h + 1 else h])
  {
    FirstWhereIs(columns, time, CoreVars, false, |CoreVars|);
    FirstWhereIs(columns, time, HumidityNames, true, h);
  }

  /** The table built by a complete attempt over one holding only core columns is the run's table. */
  lemma TableOfRun(columns: ColumnSource, time: Moment, data: map<string, Entry>, h: nat)
    requires h < |HumidityNames| && HumidityChoice(columns, time) == h
    requires forall key :: key in data ==> key in CoreVars
    requires forall k :: 0 <= k < |CoreVars| ==> CoreVars[k] in data && data[CoreVars[k]] == Column(LevelsOf(columns(time, CoreVars[k])))
    ensures data["HUM" := Column(LevelsOf(columns(time, HumidityNames[h])))]["HUM_TYPE" := Tag(HumidityNames[h])] == RunData(columns, time)
  {
    var core := map v | v in CoreVars :: Column(LevelsOf(columns(time, v)));
    assert data.Keys == core.Keys;
    assert data == core;
  }

  /**
    The humidity fallback of one run: each name is requested in turn until
    one gives a usable column, which is stored as "HUM" with its name as
    "HUM_TYPE"; a failing name (an error, nothing, too few levels) is passed
    over. Returns the position of the name used, 2 when none was.
  */
  method FetchHumidity(columns: ColumnSource, time: Moment, data: map<string, Entry>)
    returns (h: nat, data': map<string, Entry>, calls: seq<Request>)
    ensures h <= |HumidityNames|
    ensures forall k :: 0 <= k < h ==> !Usable(columns(time, HumidityNames[k]))
    ensures h < |HumidityNames| ==> Usable(columns(time, HumidityNames[h]))
    ensures calls == Requests(time, HumidityNames[..if h < |HumidityNames| then h + 1 else h])
    ensures h < |HumidityNames| ==>
      data' == data["HUM" := Column(LevelsOf(columns(time, HumidityNames[h])))]["HUM_TYPE" := Tag(HumidityNames[h])]
    ensures h == |HumidityNames| ==> data' == data
  {
    data', calls := data, [];
    h := 0;
    while h < |HumidityNames|
      invariant 0 <= h <= |HumidityNames|
      invariant forall k :: 0 <= k < h ==> !Usable(columns(time, HumidityNames[k]))
      invariant calls == Requests(time, HumidityNames[..h]) && data' == data
    {
      var name := HumidityNames[h];
      calls := calls + [Request(time, name)];
      assert Requests(time, HumidityNames[..h]) + [Request(time, name)] == Requests(time, HumidityNames[..h + 1]);
      var res := columns(time, name);
      if Usable(res) {
        data' := data'["HUM" := Column(res.levels)]["HUM_TYPE" := Tag(name)];
        return;
      }
      h := h + 1;
    }
  }

  /**
    One attempt at the run of `time`, the body of the loop's `try` block.
    `data` is the profile table as left by earlier attempts (only core
    columns, since an attempt that sets the humidity also completes). The
    attempt makes the requests `AttemptLog` lists; it completes exactly when
    the run is complete, and then the table is exactly that run's table;
    otherwise the table still holds only core columns.
  */
  method AttemptRun(columns: ColumnSource, time: Moment, data: map<string, Entry>)
    returns (complete: bool, data': map<string, Entry>, calls: seq<Request>)
    requires forall key :: key in data ==> key in CoreVars
    ensures calls == AttemptLog(columns, time)
    ensures complete == RunComplete(columns, time)
    ensures complete ==> data' == RunData(columns, time)
    ensures !complete ==> forall key :: key in data' ==> key in CoreVars
  {
    data', calls := data, [];
    var j := 0;
    while j < |CoreVars|
      invariant 0 <= j <= |CoreVars|
      invariant forall k :: 0 <= k < j ==> Usable(columns(time, CoreVars[k]))
      invariant forall key :: key in data' ==> key in CoreVars
      invariant forall k :: 0 <= k < j ==> CoreVars[k] in data' && data'[CoreVars[k]] == Column(LevelsOf(columns(time, CoreVars[k])))
      invariant calls == Requests(time, CoreVars[..j])
    {
      var name := CoreVars[j];
      calls := calls + [Request(time, name)];
      assert Requests(time, CoreVars[..j]) + [Request(time, name)] == Requests(time, CoreVars[..j + 1]);
      var res := columns(time, name);
      if !Usable(res) {
        // `raise ValueError`: the run is abandoned
        CoreAbandons(columns, time, j);
        return false, data', calls;
      }
      data' := data'[name := Column(res.levels)];
      j := j + 1;
    }
    assert CoreVars[..j] == CoreVars;
    var core := data';
    var h, humidityCalls;
    h, data', humidityCalls := FetchHumidity(columns, time, core);
    calls := calls + humidityCalls;
    HumidityOutcome(columns, time, h);
    if h < |HumidityNames| {
      TableOfRun(columns, time, core, h);
    }
    // `if "HUM" not in profile_data: raise ValueError`
    complete := "HUM" in data';
  }

  /**
    The run-selection loop. `calls` lists the requests made to the data
    source. It succeeds exactly when some candidate is complete; then the
    first such candidate is the reference time and the profile table is that
    run's, and the requests are those of the candidates up to it. Otherwise
    there is no reference time and no humidity in the table.
  */
  method SelectRun(columns: ColumnSource, times: seq<Moment>)
    returns (success: bool, data: map<string, Entry>, refTime: Option<Moment>, calls: seq<Request>)
    ensures calls == SelectionLog(columns, times)
    ensures success <==> FirstComplete(columns, times).Some?
    ensures success ==> (refTime == Some(times[FirstComplete(columns, times).value]) &&
      data == RunData(columns, times[FirstComplete(columns, times).value]))
    ensures !success ==> refTime == None && "HUM" !in data && "HUM_TYPE" !in data
  {
    success, data, refTime, calls := false, map[], None, [];
    var i := 0;
    while i < |times|
      invariant 0 <= i <= |times|
      invariant !success && refTime == None
      invariant forall key :: key in data ==> key in CoreVars
      invariant FirstComplete(columns, times[..i]) == None
      invariant calls == SelectionLog(columns, times[..i])
    {
      StepLog(columns, times, i);
      var complete, attemptCalls;
      complete, data, attemptCalls := AttemptRun(columns, times[i], data);
      calls := calls + attemptCalls;
      if complete {
        success, refTime := true, Some(times[i]);
        PrefixDecides(columns, times, i + 1);
        break;
      }
      i := i + 1;
    }
    if !success {
      assert times[..i] == times;
      assert "HUM" !in CoreVars && "HUM_TYPE" !in CoreVars;
    }
  }

  /** A run is complete exactly when every core variable and at least one humidity name give usable columns. */
  lemma CompleteRunIff(columns: ColumnSource, time: Moment)
    ensures RunComplete(columns, time) <==>
      (forall k :: 0 <= k < |CoreVars| ==> Usable(columns(time, CoreVars[k]))) &&
      (exists k :: 0 <= k < |HumidityNames| && Usable(columns(time, HumidityNames[k])))
  {
    var c := CoreFailure(columns, time);
    var h := HumidityChoice(columns, time);
    if h == |HumidityNames| {
      assert forall k :: 0 <= k < |HumidityNames| ==> !Usable(columns(time, HumidityNames[k]));
    }
  }

  /**
    The humidity fallback of a complete run: "RELHUM" is used whenever it
    gives a usable column, "QV" only when "RELHUM" does not and "QV" does,
    and "HUM" holds the column of the name recorded in "HUM_TYPE".
  */
  lemma HumidityFallback(columns: ColumnSource, time: Moment)
    requires RunComplete(columns, time)
    ensures var data := RunData(columns, time);
      "HUM_TYPE" in data && "HUM" in data &&
      (data["HUM_TYPE"] == Tag("RELHUM") <==> Usable(columns(time, "RELHUM"))) &&
      (data["HUM_TYPE"] == Tag("QV") <==> !Usable(columns(time, "RELHUM")) && Usable(columns(time, "QV"))) &&
      (data["HUM_TYPE"].Tag? && data["HUM"] == Column(LevelsOf(columns(time, data["HUM_TYPE"].name))))
  {
    var h := HumidityChoice(columns, time);
    assert HumidityNames[0] == "RELHUM" && HumidityNames[1] == "QV";
    if Usable(columns(time, "RELHUM")) {
      FirstWhereIs(columns, time, HumidityNames, true, 0);
    } else {
      FirstWhereIs(columns, time, HumidityNames, true, 1);
    }
  }

  /** Every column in the table of a complete run has at least the minimum number of levels. */
  lemma RunDataUsable(columns: ColumnSource, time: Moment)
    requires RunComplete(columns, time)
    ensures var data := RunData(columns, time);
      (forall v :: v in CoreVars ==> v in data && data[v].Column? && |data[v].values| >= MinLevels) &&
      "HUM" in data && data["HUM"].Column? && |data["HUM"].values| >= MinLevels &&
      "HUM_TYPE" in data && data["HUM_TYPE"].Tag? && data["HUM_TYPE"].name in HumidityNames
  {
    var data := RunData(columns, time);
    forall v | v in CoreVars
      ensures v in data && data[v].Column? && |data[v].values| >= MinLevels
    {
      var k :| 0 <= k < |CoreVars| && CoreVars[k] == v;
      assert Usable(columns(time, CoreVars[k]));
    }
  }

  /** The entries of a complete run's table, by name. */
  lemma RunTable(columns: ColumnSource, time: Moment)
    requires RunComplete(columns, time)
    ensures var data, hum := RunData(columns, time), HumidityNames[HumidityChoice(columns, time)];
      data.Keys == {"T", "U", "V", "P", "HUM", "HUM_TYPE"} &&
      data["T"] == Column(LevelsOf(columns(time, "T"))) && data["U"] == Column(LevelsOf(columns(time, "U"))) &&
      data["V"] == Column(LevelsOf(columns(time, "V"))) && data["P"] == Column(LevelsOf(columns(time, "P"))) &&
      data["HUM"] == Column(LevelsOf(columns(time, hum))) && data["HUM_TYPE"] == Tag(hum)
  {
    assert CoreVars == ["T", "U", "V", "P"];
  }

  /**
    A fetched variable is usable exactly when the data source returns a
    field with at least one horizontal point and at least the minimum number
    of levels.
  */
  lemma UsableRetrieved(fetch: Source, time: Moment, name: string)
    ensures Usable(Retrieve(fetch, time, name)) <==>
      (var got := fetch(time, name);
       got.Returned? && got.ds.Some? && PointCount(got.ds.value) > 0 && got.ds.value.levels >= MinLevels)
  {
  }

  /** Every request of an attempt is for that attempt's reference time. */
  lemma AttemptTimes(columns: ColumnSource, time: Moment)
    ensures forall r :: r in AttemptLog(columns, time) ==> r.time == time
  {
  }

  /** Every request made while trying `times` is for one of them. */
  lemma {:induction false} LogTimes(columns: ColumnSource, times: seq<Moment>)
    ensures forall r :: r in SelectionLog(columns, times) ==> r.time in times
  {
    if times != [] {
      var before := times[..|times| - 1];
      LogTimes(columns, before);
      AttemptTimes(columns, times[|times| - 1]);
      assert forall t :: t in before ==> t in times;
    }
  }

  /** No candidate after the first complete one is requested at all. */
  lemma NothingAfterWinner(columns: ColumnSource, times: seq<Moment>)
    requires FirstComplete(columns, times).Some?
    ensures var w := FirstComplete(columns, times).value;
      forall r :: r in SelectionLog(columns, times) ==> r.time in times[..w + 1]
  {
    var w := FirstComplete(columns, times).value;
    assert times[..w + 1][w] == times[w];
    PrefixDecides(columns, times, w + 1);
    LogTimes(columns, times[..w + 1]);
  }

  /** The log of a shorter run of candidates is kept, unchanged, at the head of the longer one. */
  lemma LogExtends(columns: ColumnSource, times: seq<Moment>)
    requires times != []
    ensures var before := times[..|times| - 1];
      SelectionLog(columns, times) == SelectionLog(columns, before) +
        (if FirstComplete(columns, before).Some? then [] else AttemptLog(columns, times[|times| - 1]))
  {
  }

  /**
    Every candidate up to and including the first complete one (every
    candidate when none is complete) is attempted: its first core variable
    is requested.
  */
  lemma {:induction false} TriedUpToWinner(columns: ColumnSource, times: seq<Moment>)
    ensures var w := FirstComplete(columns, times);
      forall j :: 0 <= j < (if w.Some? then w.value + 1 else |times|) ==>
        Request(times[j], CoreVars[0]) in SelectionLog(columns, times)
  {
    if times != [] {
      var before := times[..|times| - 1];
      var last := times[|times| - 1];
      TriedUpToWinner(columns, before);
      var wb := FirstComplete(columns, before);
      var logb := SelectionLog(columns, before);
      var log := SelectionLog(columns, times);
      LogExtends(columns, times);
      var n := if wb.Some? then wb.value + 1 else |before|;
      var w := FirstComplete(columns, times);
      var bound := if w.Some? then w.value + 1 else |times|;
      assert bound == if wb.Some? then n else n + 1;
      forall j | 0 <= j < bound
        ensures Request(times[j], CoreVars[0]) in log
      {
        if j < n {
          assert times[j] == before[j];
          assert Request(before[j], CoreVars[0]) in logb;
        } else {
          var attempt := AttemptLog(columns, last);
          assert log == logb + attempt;
          assert log[|logb|] == attempt[0];
        }
      }
    }
  }
}
