/**
  The whole profile resolution of one invocation: the candidate runs for
  "now", the run selection, then the derived and sorted sounding of the
  winning run. The clock reading and the data source are inputs.
*/
module Pipeline {
  import opened Wrappers
  import opened Clock
  import opened Settings
  import opened CandidateRuns
  import opened RunSelector
  import opened DerivedQuantities

  /** What is handed to the plot: the run used, the humidity variable used and the sounding. */
  datatype Report = Report(refTime: Moment, humType: string, sounding: Sounding)

  /**
    No candidate run complete (the pipeline reports this and stops), or
    arrays of mismatched lengths in the derivation (an uncaught error).
  */
  datatype PipelineError = NoCompleteRun | Derivation(cause: DeriveError)

  /**
    The pipeline up to the plot. `calls` lists the requests made to the data
    source. It reports `NoCompleteRun` exactly when none of the four
    candidates is complete. Otherwise the outcome is decided by the
    derivation on the first complete candidate's columns: the report of that
    candidate, the humidity name it used and the derived sounding when the
    derivation succeeds, and the derivation's error when it does not. When
    the five columns of that run have one length, the report is produced.
  */
  method ProduceSounding(now: Moment, fetch: Source, phys: Physics)
    returns (outcome: Result<Report, PipelineError>, calls: seq<Request>)
    ensures calls == SelectionLog(Columns(fetch), Candidates(now))
    ensures outcome == Failure(NoCompleteRun) <==> FirstComplete(Columns(fetch), Candidates(now)).None?
    ensures FirstComplete(Columns(fetch), Candidates(now)).Some? ==>
      var time := Candidates(now)[FirstComplete(Columns(fetch), Candidates(now)).value];
      var columns := Columns(fetch);
      var hum := HumidityNames[HumidityChoice(columns, time)];
      var derived := Derive(phys, hum, LevelsOf(columns(time, "P")), LevelsOf(columns(time, "T")),
                            LevelsOf(columns(time, "U")), LevelsOf(columns(time, "V")), LevelsOf(columns(time, hum)));
      outcome == (if derived.Success? then Success(Report(time, hum, derived.value)) else Failure(Derivation(derived.error)))
    ensures FirstComplete(Columns(fetch), Candidates(now)).Some? ==>
      var time := Candidates(now)[FirstComplete(Columns(fetch), Candidates(now)).value];
      var columns := Columns(fetch);
      var hum := HumidityNames[HumidityChoice(columns, time)];
      var n := |LevelsOf(columns(time, "P"))|;
      |LevelsOf(columns(time, "T"))| == n && |LevelsOf(columns(time, "U"))| == n &&
      |LevelsOf(columns(time, "V"))| == n && |LevelsOf(columns(time, hum))| == n ==>
        outcome.Success?
  {
    var columns := Columns(fetch);
    var times := Candidates(now);
    var success, data, refTime;
    success, data, refTime, calls := SelectRun(columns, times);
    if !success {
      return Failure(NoCompleteRun), calls;
    }
    var time := refTime.value;
    RunTable(columns, time);
    var humType := data["HUM_TYPE"].name;
    var p, t, u, v := data["P"].values, data["T"].values, data["U"].values, data["V"].values;
    var hum := data["HUM"].values;
    if |t| == |p| && |u| == |p| && |v| == |p| && |hum| == |p| {
      EqualLengthsSort(phys, humType, p, t, u, v, hum);
    }
    var derived := Derive(phys, humType, p, t, u, v, hum);
    match derived {
      case Failure(e) => outcome := Failure(Derivation(e));
      case Success(s) => outcome := Success(Report(time, humType, s));
    }
  }
}
