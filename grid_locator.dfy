/**
  Nearest-grid-point selection: the vertical column of a forecast field at
  the horizontal point closest, in squared latitude/longitude distance, to a
  target position. Fields come either on an unstructured mesh (one
  horizontal index over cells) or on a regular grid (rows by columns, read
  in row-major order whenever it is flattened).
*/
module GridLocator {
  import opened Wrappers

  /** Where a field's horizontal points lie, and the vertical column at each. */
  datatype Mesh =
    | Unstructured(cellLat: seq<real>, cellLon: seq<real>, cellColumns: seq<seq<real>>)
    | Regular(width: nat, gridLat: seq<seq<real>>, gridLon: seq<seq<real>>, gridColumns: seq<seq<seq<real>>>)

  /** A field with `levels` vertical levels at every horizontal point. */
  datatype RawField = RawField(levels: nat, mesh: Mesh)
  {
    /** Coordinates and data agree in shape, as they do in any labelled array. */
    predicate Valid()
    {
      match mesh
      case Unstructured(lat, lon, cols) =>
        |lat| == |cols| && |lon| == |cols| &&
        forall i :: 0 <= i < |cols| ==> |cols[i]| == levels
      case Regular(w, lat, lon, cols) =>
        |lat| == |cols| && |lon| == |cols| &&
        forall i :: 0 <= i < |cols| ==>
          |lat[i]| == w && |lon[i]| == w && |cols[i]| == w &&
          forall j :: 0 <= j < w ==> |cols[i][j]| == levels
    }
  }

  type Field = f: RawField | f.Valid() witness RawField(0, Unstructured([], [], []))

  /** `argmin` of an empty distance array raises. */
  datatype LocateError = EmptyArgMin

  /** Squared distance in (latitude, longitude) space. */
  function SqDist(lat: real, lon: real, latTarget: real, lonTarget: real): real
  {
    (lat - latTarget) * (lat - latTarget) + (lon - lonTarget) * (lon - lonTarget)
  }

  /** Concatenation of the rows: row-major order. */
  function Flatten<T>(g: seq<seq<T>>): seq<T>
  {
    if g == [] then [] else g[0] + Flatten(g[1..])
  }

  predicate Rectangular<T>(g: seq<seq<T>>, w: nat)
  {
    forall i :: 0 <= i < |g| ==> |g[i]| == w
  }

  /** Row-major flattening puts the entry of row i, column j at position i * w + j. */
  lemma {:induction false} FlattenAt<T>(g: seq<seq<T>>, w: nat, i: nat, j: nat)
    requires Rectangular(g, w) && i < |g| && j < w
    ensures |Flatten(g)| == |g| * w
    ensures i * w + j < |Flatten(g)| && Flatten(g)[i * w + j] == g[i][j]
  {
    var rest := Flatten(g[1..]);
    assert Flatten(g) == g[0] + rest;
    FlattenLength(g[1..], w);
    assert |g| * w == w + (|g| - 1) * w;
    if i > 0 {
      FlattenAt(g[1..], w, i - 1, j);
      assert i * w + j == w + ((i - 1) * w + j);
      assert g[1..][i - 1] == g[i];
    }
  }

  lemma {:induction false} FlattenLength<T>(g: seq<seq<T>>, w: nat)
    requires Rectangular(g, w)
    ensures |Flatten(g)| == |g| * w
  {
    if g != [] {
      FlattenLength(g[1..], w);
      assert |g| * w == w + (|g| - 1) * w;
    }
  }

  /** A flat index below rows * w splits into a row below rows and a column below w. */
  lemma SplitFlatIndex(k: nat, w: nat, rows: nat)
    requires k < rows * w
    ensures w > 0 && k / w < rows && k % w < w && k == (k / w) * w + k % w
  {
  }

  /** `k` is the first index at which `d` takes its least value. */
  predicate IsFirstMin(d: seq<real>, k: nat)
  {
    k < |d| &&
    (forall j :: 0 <= j < |d| ==> d[k] <= d[j]) &&
    (forall j :: 0 <= j < k ==> d[k] < d[j])
  }

  /** `argmin`: the first index holding the smallest value. */
  function FirstArgMin(d: seq<real>): (k: nat)
    requires |d| > 0
    ensures IsFirstMin(d, k)
  {
    if |d| == 1 then 0
    else
      var k := FirstArgMin(d[..|d| - 1]);
      if d[|d| - 1] < d[k] then |d| - 1 else k
  }

  /** Squared distances from the target to every point of a regular grid, row by row. */
  function DistanceGrid(w: nat, lat: seq<seq<real>>, lon: seq<seq<real>>, latTarget: real, lonTarget: real): (g: seq<seq<real>>)
    requires |lon| == |lat| && Rectangular(lat, w) && Rectangular(lon, w)
    ensures |g| == |lat| && Rectangular(g, w)
    ensures forall i, j :: 0 <= i < |lat| && 0 <= j < w ==> g[i][j] == SqDist(lat[i][j], lon[i][j], latTarget, lonTarget)
  {
    seq(|lat|, i requires 0 <= i < |lat| =>
      seq(w, j requires 0 <= j < w => SqDist(lat[i][j], lon[i][j], latTarget, lonTarget)))
  }

  /** Squared distances from the target to every horizontal point, in flat (row-major) order. */
  function FlatDistances(f: Field, latTarget: real, lonTarget: real): (d: seq<real>)
    ensures |d| == PointCount(f)
    ensures f.mesh.Unstructured? ==>
      forall i :: 0 <= i < |d| ==> d[i] == SqDist(f.mesh.cellLat[i], f.mesh.cellLon[i], latTarget, lonTarget)
  {
    match f.mesh
    case Unstructured(lat, lon, cols) =>
      seq(|cols|, i requires 0 <= i < |cols| => SqDist(lat[i], lon[i], latTarget, lonTarget))
    case Regular(w, lat, lon, cols) =>
      FlattenLength(DistanceGrid(w, lat, lon, latTarget, lonTarget), w);
      Flatten(DistanceGrid(w, lat, lon, latTarget, lonTarget))
  }

  /** The vertical columns of all horizontal points in flat order (`stack` for a grid). */
  function FlatColumns(f: Field): (cols: seq<seq<real>>)
    ensures |cols| == PointCount(f)
    ensures forall k :: 0 <= k < |cols| ==> |cols[k]| == f.levels
  {
    match f.mesh
    case Unstructured(_, _, cols) => cols
    case Regular(w, _, _, cols) =>
      FlattenLength(cols, w);
      FlattenKeepsLevels(cols, w, f.levels);
      Flatten(cols)
  }

  /** Number of horizontal points. */
  function PointCount(f: Field): nat
  {
    match f.mesh
    case Unstructured(_, _, cols) => |cols|
    case Regular(w, _, _, cols) => |cols| * w
  }

  lemma {:induction false} FlattenKeepsLevels(cols: seq<seq<seq<real>>>, w: nat, levels: nat)
    requires Rectangular(cols, w)
    requires forall i, j :: 0 <= i < |cols| && 0 <= j < w ==> |cols[i][j]| == levels
    ensures forall k :: 0 <= k < |Flatten(cols)| ==> |Flatten(cols)[k]| == levels
  {
    if cols != [] {
      FlattenKeepsLevels(cols[1..], w, levels);
      assert Flatten(cols) == cols[0] + Flatten(cols[1..]);
    }
  }

  /**
    `get_nearest_profile`: nothing for no dataset, an error when there is no
    horizontal point to take the minimum over, and otherwise the column, of
    `levels` values, at the first point of least distance in flat order.
  */
  function NearestProfile(ds: Option<Field>, latTarget: real, lonTarget: real): (r: Result<Option<seq<real>>, LocateError>)
    ensures ds.None? ==> r == Success(None)
    ensures ds.Some? ==> (r.Failure? <==> PointCount(ds.value) == 0)
    ensures ds.Some? && r.Success? ==>
      r.value.Some? && |r.value.value| == ds.value.levels &&
      exists k: nat :: k < |FlatColumns(ds.value)| && IsFirstMin(FlatDistances(ds.value, latTarget, lonTarget), k) &&
        r.value.value == FlatColumns(ds.value)[k]
  {
    match ds
    case None => Success(None)
    case Some(f) =>
      var dist := FlatDistances(f, latTarget, lonTarget);
      if |dist| == 0 then Failure(EmptyArgMin)
      else
        var k := FirstArgMin(dist);
        Success(Some(FlatColumns(f)[k]))
  }

  /**
    On an unstructured mesh the column is that of the cell `k` at least
    distance from the target, the first such cell when several tie.
  */
  lemma NearestOnMesh(f: Field, latTarget: real, lonTarget: real) returns (k: nat)
    requires f.mesh.Unstructured? && PointCount(f) > 0
    ensures k < |f.mesh.cellColumns|
    ensures NearestProfile(Some(f), latTarget, lonTarget) == Success(Some(f.mesh.cellColumns[k]))
    ensures forall j :: 0 <= j < |f.mesh.cellColumns| ==>
      SqDist(f.mesh.cellLat[k], f.mesh.cellLon[k], latTarget, lonTarget)
        <= SqDist(f.mesh.cellLat[j], f.mesh.cellLon[j], latTarget, lonTarget)
    ensures forall j :: 0 <= j < k ==>
      SqDist(f.mesh.cellLat[k], f.mesh.cellLon[k], latTarget, lonTarget)
        < SqDist(f.mesh.cellLat[j], f.mesh.cellLon[j], latTarget, lonTarget)
  {
    var d := FlatDistances(f, latTarget, lonTarget);
    k := FirstArgMin(d);
  }

  /** The flat distance at row-major position i * w + j is that of grid point (i, j). */
  lemma GridDistanceAt(f: Field, latTarget: real, lonTarget: real, i: nat, j: nat)
    requires f.mesh.Regular? && i < |f.mesh.gridLat| && j < f.mesh.width
    ensures var w := f.mesh.width;
      i * w + j < |FlatDistances(f, latTarget, lonTarget)| &&
      FlatDistances(f, latTarget, lonTarget)[i * w + j] ==
        SqDist(f.mesh.gridLat[i][j], f.mesh.gridLon[i][j], latTarget, lonTarget)
  {
    var w, lat, lon := f.mesh.width, f.mesh.gridLat, f.mesh.gridLon;
    FlattenAt(DistanceGrid(w, lat, lon, latTarget, lonTarget), w, i, j);
  }

  /**
    On a regular grid the flat index splits in row-major order into a row
    `r` and a column `c`: the column returned is the one at grid point
    (r, c), whose distance is least over the whole grid and strictly less
    than that of every point before it in row-major order.
  */
  lemma NearestOnGrid(f: Field, latTarget: real, lonTarget: real) returns (r: nat, c: nat)
    requires f.mesh.Regular? && PointCount(f) > 0
    ensures r < |f.mesh.gridLat| && c < f.mesh.width
    ensures NearestProfile(Some(f), latTarget, lonTarget) == Success(Some(f.mesh.gridColumns[r][c]))
    ensures var w, lat, lon := f.mesh.width, f.mesh.gridLat, f.mesh.gridLon;
      forall i, j :: 0 <= i < |lat| && 0 <= j < w ==>
        SqDist(lat[r][c], lon[r][c], latTarget, lonTarget) <= SqDist(lat[i][j], lon[i][j], latTarget, lonTarget)
    ensures var w, lat, lon := f.mesh.width, f.mesh.gridLat, f.mesh.gridLon;
      forall i, j :: 0 <= i < |lat| && 0 <= j < w && i * w + j < r * w + c ==>
        SqDist(lat[r][c], lon[r][c], latTarget, lonTarget) < SqDist(lat[i][j], lon[i][j], latTarget, lonTarget)
  {
    var w, lat, lon, cols := f.mesh.width, f.mesh.gridLat, f.mesh.gridLon, f.mesh.gridColumns;
    var d := FlatDistances(f, latTarget, lonTarget);
    var k := FirstArgMin(d);
    SplitFlatIndex(k, w, |cols|);
    r, c := k / w, k % w;
    FlattenAt(cols, w, r, c);
    GridDistanceAt(f, latTarget, lonTarget, r, c);
    forall i, j | 0 <= i < |lat| && 0 <= j < w
      ensures SqDist(lat[r][c], lon[r][c], latTarget, lonTarget) <= SqDist(lat[i][j], lon[i][j], latTarget, lonTarget)
      ensures i * w + j < r * w + c ==>
        SqDist(lat[r][c], lon[r][c], latTarget, lonTarget) < SqDist(lat[i][j], lon[i][j], latTarget, lonTarget)
    {
      GridDistanceAt(f, latTarget, lonTarget, i, j);
    }
  }
}
