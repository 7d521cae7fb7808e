/**
  From the winning run's columns to the sounding that is drawn: dewpoint by
  the formula the humidity variable calls for, wind speed in km/h, and all
  six per-level arrays sorted together so that pressure falls with height.
*/
module DerivedQuantities {
  import opened Wrappers
  import opened ProfileOrder
  import opened Settings

  /**
    The physical formulas of the meteorology library, per level. They are
    not part of this model and enter as given functions.
  */
  datatype Physics = Physics(
    dewpointFromRelative: (real, real) -> real,        // temperature, relative humidity as a fraction
    dewpointFromSpecific: (real, real, real) -> real,  // pressure, temperature, specific humidity
    windSpeed: (real, real) -> real)                   // magnitude of (u, v), in m/s

  /** One m/s in km/h. */
  const KmhPerMs: real := 3.6

  /** The per-level arrays handed to the plot, all of one length. */
  datatype Sounding = Sounding(p: seq<real>, t: seq<real>, td: seq<real>, u: seq<real>, v: seq<real>, speed: seq<real>)

  /** Arrays of different lengths meeting in one elementwise operation or index. */
  datatype DeriveError = ShapeMismatch

  /**
    The dewpoint at level `i`: for relative humidity the formula on the
    level's temperature and its humidity turned from percent into a
    fraction; for specific humidity the formula on the level's pressure,
    temperature and humidity.
  */
  function DewpointAt(phys: Physics, humType: string, p: seq<real>, t: seq<real>, hum: seq<real>, i: nat): (td: real)
    requires i < |t| && i < |hum| && (humType != "RELHUM" ==> i < |p|)
    ensures humType == HumidityNames[0] ==> td == phys.dewpointFromRelative(t[i], hum[i] / 100.0)
    ensures humType == HumidityNames[1] ==> td == phys.dewpointFromSpecific(p[i], t[i], hum[i])
  {
    if humType == "RELHUM" then phys.dewpointFromRelative(t[i], hum[i] / 100.0)
    else phys.dewpointFromSpecific(p[i], t[i], hum[i])
  }

  /** Whether the elementwise formulas and the gathers by the pressure order all find arrays of matching length. */
  predicate ShapesAgree(humType: string, p: seq<real>, t: seq<real>, u: seq<real>, v: seq<real>, hum: seq<real>)
  {
    |t| == |hum| && (humType != "RELHUM" ==> |p| == |t|) && |u| == |v| && |p| <= |t| && |p| <= |u|
  }

  /** Dewpoint of every level; a length mismatch between the arrays combined is an error. */
  function Dewpoints(phys: Physics, humType: string, p: seq<real>, t: seq<real>, hum: seq<real>): (r: Result<seq<real>, DeriveError>)
    ensures r.Success? <==> |t| == |hum| && (humType != "RELHUM" ==> |p| == |t|)
    ensures r.Success? ==> |r.value| == |t| && forall i :: 0 <= i < |t| ==> r.value[i] == DewpointAt(phys, humType, p, t, hum, i)
  {
    if humType == "RELHUM" then
      if |t| == |hum| then Success(seq(|t|, i requires 0 <= i < |t| => DewpointAt(phys, humType, p, t, hum, i)))
      else Failure(ShapeMismatch)
    else
      if |p| == |t| && |t| == |hum| then Success(seq(|t|, i requires 0 <= i < |t| => DewpointAt(phys, humType, p, t, hum, i)))
      else Failure(ShapeMismatch)
  }

  /** Wind speed of every level, in km/h. */
  function WindSpeeds(phys: Physics, u: seq<real>, v: seq<real>): (r: Result<seq<real>, DeriveError>)
    ensures r.Success? <==> |u| == |v|
    ensures r.Success? ==> |r.value| == |u| && forall i :: 0 <= i < |u| ==> r.value[i] == phys.windSpeed(u[i], v[i]) * KmhPerMs
  {
    if |u| == |v| then Success(seq(|u|, i requires 0 <= i < |u| => phys.windSpeed(u[i], v[i]) * KmhPerMs))
    else Failure(ShapeMismatch)
  }

  /**
    The sounding of one run: derived quantities first, then every array
    gathered through the one order that sorts pressure downwards. It fails
    exactly when some arrays combined do not match in length. On success
    every array has one entry per pressure level, pressure is
    non-increasing and holds the same values as before, and output level k
    carries, in every array, the values of one and the same input level.
  */
  function Derive(phys: Physics, humType: string, p: seq<real>, t: seq<real>, u: seq<real>, v: seq<real>, hum: seq<real>): (r: Result<Sounding, DeriveError>)
    ensures Indexes(DescendingOrder(p), p) && IsPermutation(DescendingOrder(p), |p|)
    ensures r.Success? <==> ShapesAgree(humType, p, t, u, v, hum)
    ensures r.Success? ==>
      var s := r.value;
      |s.p| == |p| && |s.t| == |p| && |s.td| == |p| && |s.u| == |p| && |s.v| == |p| && |s.speed| == |p| &&
      NonIncreasing(s.p) && multiset(s.p) == multiset(p)
    ensures r.Success? ==>
      var s, order := r.value, DescendingOrder(p);
      forall k :: 0 <= k < |p| ==>
        s.p[k] == p[order[k]] && s.t[k] == t[order[k]] && s.u[k] == u[order[k]] && s.v[k] == v[order[k]] &&
        s.td[k] == DewpointAt(phys, humType, p, t, hum, order[k]) &&
        s.speed[k] == phys.windSpeed(u[order[k]], v[order[k]]) * KmhPerMs
  {
    SortedPressure(p);
    var td := Dewpoints(phys, humType, p, t, hum);
    var speed := WindSpeeds(phys, u, v);
    if td.Failure? || speed.Failure? || |p| > |t| || |p| > |u| then Failure(ShapeMismatch)
    else
      var order := DescendingOrder(p);
      Success(Sounding(Gather(p, order), Gather(t, order), Gather(td.value, order),
                       Gather(u, order), Gather(v, order), Gather(speed.value, order)))
  }

  /**
    When all five columns have one length, the sounding is produced and
    each of its arrays is a reordering of the corresponding input array.
  */
  lemma {:induction false} EqualLengthsSort(phys: Physics, humType: string, p: seq<real>, t: seq<real>, u: seq<real>, v: seq<real>, hum: seq<real>)
    requires |t| == |p| && |u| == |p| && |v| == |p| && |hum| == |p|
    ensures Derive(phys, humType, p, t, u, v, hum).Success?
    ensures var s := Derive(phys, humType, p, t, u, v, hum).value;
      multiset(s.p) == multiset(p) && multiset(s.t) == multiset(t) &&
      multiset(s.u) == multiset(u) && multiset(s.v) == multiset(v)
  {
    var order := DescendingOrder(p);
    GatherPermutes(t, order);
    GatherPermutes(u, order);
    GatherPermutes(v, order);
  }
}
