/**
  The request handlers of backend/main.py over the database the importers
  fill: `get_stalls` (filters, radius cut-off, re-nesting of the attribute
  columns, sort by distance), `get_stall` (one stall or a 404 error) and
  `get_filters` (the distinct values offered as filters).
*/
module Api {
  import opened Wrappers
  import opened StableSort
  import opened Tables
  import opened StallQuery

  /** Python's truth value of `latitude and longitude`: `None` and `0.0` are false. */
  predicate HasLocation(latitude: Option<real>, longitude: Option<real>) {
    latitude.Some? && latitude.value != 0.0 && longitude.Some? && longitude.value != 0.0
  }

  /** `round(x, 2)` on exact reals: the nearest multiple of 0.01, a tie going to the even multiple. */
  function Round2(x: real): real {
    var scaled := x * 100.0;
    var whole := scaled.Floor;
    var fraction := scaled - whole as real;
    var n := if fraction < 0.5 then whole
      else if fraction > 0.5 then whole + 1
      else if whole % 2 == 0 then whole else whole + 1;
    n as real / 100.0
  }

  /** Rounding moves a distance by at most half a hundredth. */
  lemma Round2Close(x: real)
    ensures -0.005 <= Round2(x) - x <= 0.005
  {
  }

  /** Rounding keeps the order of distances, so sorting by the rounded value never inverts two true distances. */
  lemma Round2Monotone(x: real, y: real)
    requires x <= y
    ensures Round2(x) <= Round2(y)
  {
    var wx, wy := (x * 100.0).Floor, (y * 100.0).Floor;
    assert wx <= wy;
    if wx == wy {
      assert x * 100.0 - wx as real <= y * 100.0 - wy as real;
    }
  }

  /**
    Lines 118-125: the four attribute columns are popped and put, unchanged,
    under `attributes`. Every query row has all four (`QueryRow`), so no `pop`
    fails.
  */
  function Nest(r: Record): Record {
    (r - AttributeKeys)[Attributes := Object(map k | k in AttributeKeys && k in r :: r[k])]
  }

  /** The attribute keys leave the top level for `attributes`; every other key keeps its value. */
  lemma NestMovesAttributes(r: Record)
    requires AttributeKeys <= r.Keys
    ensures Attributes in Nest(r) && Nest(r)[Attributes].Object?
    ensures Nest(r)[Attributes].fields.Keys == AttributeKeys
    ensures forall k <- AttributeKeys :: k !in Nest(r) && Nest(r)[Attributes].fields[k] == r[k]
    ensures forall k :: k !in AttributeKeys && k != Attributes ==> (k in Nest(r) <==> k in r)
    ensures forall k :: k !in AttributeKeys && k != Attributes && k in r ==> Nest(r)[k] == r[k]
  {
  }

  /** `calculate_distance(latitude, longitude, stall_data['latitude'], stall_data['longitude'])` */
  function DistanceTo(r: Record, latitude: real, longitude: real, dist: DistanceFn): real
    requires QueryRow(r)
  {
    dist(latitude, longitude, r[Latitude].r, r[Longitude].r)
  }

  /** Lines 104-112: with a location, a row farther than `radius` is skipped; without one, every row is kept. */
  predicate WithinRadius(r: Record, latitude: Option<real>, longitude: Option<real>, radius: real, dist: DistanceFn)
    requires QueryRow(r)
  {
    !HasLocation(latitude, longitude) || DistanceTo(r, latitude.value, longitude.value, dist) <= radius
  }

  /** Lines 114-126: the dict returned for a kept row, with the rounded distance when there is a location. */
  function Shape(r: Record, latitude: Option<real>, longitude: Option<real>, dist: DistanceFn): Record
    requires QueryRow(r)
  {
    if HasLocation(latitude, longitude)
    then Nest(r[Distance := Real(Round2(DistanceTo(r, latitude.value, longitude.value, dist)))])
    else Nest(r)
  }

  /** The dicts of the kept rows, in query order. */
  function Shaped(rows: seq<Record>, latitude: Option<real>, longitude: Option<real>, radius: real, dist: DistanceFn): seq<Record>
    requires forall r <- rows :: QueryRow(r)
  {
    if rows == [] then []
    else
      var r := Last(rows);
      Shaped(Init(rows), latitude, longitude, radius, dist) +
        (if WithinRadius(r, latitude, longitude, radius, dist) then [Shape(r, latitude, longitude, dist)] else [])
  }

  /**
    The sort key `x.get('distance', float('inf'))`. Every dict has a `distance`
    when the sort runs (`ResponseWithinRadius`), so the default is never used;
    it is `0.0` here because the model's keys are reals.
  */
  function DistanceKey(r: Record): real {
    if Distance in r && r[Distance].Real? then r[Distance].r else 0.0
  }

  /** What `get_stalls` returns for the query result `rows`. */
  function StallsResponse(rows: seq<Record>, latitude: Option<real>, longitude: Option<real>, radius: real, dist: DistanceFn): seq<Record>
    requires forall r <- rows :: QueryRow(r)
  {
    var shaped := Shaped(rows, latitude, longitude, radius, dist);
    if HasLocation(latitude, longitude) then SortBy(shaped, DistanceKey) else shaped
  }

  /** Lines 99-130: the loop over the query result, then the in-place sort. */
  method ShapeRows(rows: seq<Record>, latitude: Option<real>, longitude: Option<real>, radius: real, dist: DistanceFn)
    returns (stalls: seq<Record>)
    requires forall r <- rows :: QueryRow(r)
    ensures stalls == StallsResponse(rows, latitude, longitude, radius, dist)
  {
    stalls := [];
    for n := 0 to |rows|
      invariant stalls == Shaped(rows[..n], latitude, longitude, radius, dist)
    {
      assert Init(rows[..n + 1]) == rows[..n] && Last(rows[..n + 1]) == rows[n];
      assert rows[n] in rows;
      var stallData := rows[n];
      if HasLocation(latitude, longitude) {
        var distance := dist(latitude.value, longitude.value, stallData[Latitude].r, stallData[Longitude].r);
        if distance > radius {
          continue;
        }
        stallData := stallData[Distance := Real(Round2(distance))];
      }
      var attributes := map k | k in AttributeKeys :: stallData[k];
      assert attributes == map k | k in AttributeKeys && k in stallData :: stallData[k];
      stallData := (stallData - AttributeKeys)[Attributes := Object(attributes)];
      stalls := stalls + [stallData];
    }
    assert rows[..|rows|] == rows;
    if HasLocation(latitude, longitude) {
      stalls := SortBy(stalls, DistanceKey);
    }
  }

  /**
    Lines 64-133: `GET /stalls`. The query is built from the filters and run
    on the database; its rows are shaped, cut to the radius and sorted.
  */
  method GetStalls(db: Database, latitude: Option<real>, longitude: Option<real>, radius: real,
                   cuisine: Option<string>, price: Option<string>, dietary: Option<string>, dist: DistanceFn)
    returns (stalls: seq<Record>)
    ensures forall r <- Select(db.stalls, db.attributes, Filters(Conditions(cuisine, price, dietary))) :: QueryRow(r)
    ensures stalls == StallsResponse(Select(db.stalls, db.attributes, Filters(Conditions(cuisine, price, dietary))),
      latitude, longitude, radius, dist)
  {
    var query, params := BuildQuery(cuisine, price, dietary);
    var results := Select(db.stalls, db.attributes, Filters(Conditions(cuisine, price, dietary)));
    SelectRowsAreQueryRows(db.stalls, db.attributes, Filters(Conditions(cuisine, price, dietary)));
    stalls := ShapeRows(results, latitude, longitude, radius, dist);
  }

  /** A dict is returned exactly when it is the shape of a kept row. */
  lemma {:induction false} ShapedMembers(rows: seq<Record>, latitude: Option<real>, longitude: Option<real>,
                                         radius: real, dist: DistanceFn, x: Record)
    requires forall r <- rows :: QueryRow(r)
    ensures x in Shaped(rows, latitude, longitude, radius, dist) <==>
      exists r :: r in rows && WithinRadius(r, latitude, longitude, radius, dist) && x == Shape(r, latitude, longitude, dist)
  {
    if rows != [] {
      ShapedMembers(Init(rows), latitude, longitude, radius, dist, x);
      assert rows == Init(rows) + [Last(rows)];
    }
  }

  /**
    With a location, every returned stall has a `distance`: the rounded
    distance of a row no farther than `radius`, so at most half a hundredth
    above `radius`.
  */
  lemma ResponseWithinRadius(rows: seq<Record>, latitude: Option<real>, longitude: Option<real>,
                             radius: real, dist: DistanceFn, x: Record)
    requires forall r <- rows :: QueryRow(r)
    requires HasLocation(latitude, longitude)
    requires x in StallsResponse(rows, latitude, longitude, radius, dist)
    ensures Distance in x && x[Distance].Real?
    ensures exists r :: (r in rows && DistanceTo(r, latitude.value, longitude.value, dist) <= radius &&
      x[Distance].r == Round2(DistanceTo(r, latitude.value, longitude.value, dist)))
    ensures x[Distance].r <= radius + 0.005
  {
    SortBySameElements(Shaped(rows, latitude, longitude, radius, dist), DistanceKey);
    ShapedMembers(rows, latitude, longitude, radius, dist, x);
    var r :| r in rows && WithinRadius(r, latitude, longitude, radius, dist) && x == Shape(r, latitude, longitude, dist);
    Round2Close(DistanceTo(r, latitude.value, longitude.value, dist));
  }

  /** With a location, every row no farther than `radius`, one exactly at `radius` included, is returned. */
  lemma RowsInRadiusReturned(rows: seq<Record>, latitude: Option<real>, longitude: Option<real>,
                             radius: real, dist: DistanceFn, r: Record)
    requires forall r <- rows :: QueryRow(r)
    requires HasLocation(latitude, longitude)
    requires r in rows && DistanceTo(r, latitude.value, longitude.value, dist) <= radius
    ensures Shape(r, latitude, longitude, dist) in StallsResponse(rows, latitude, longitude, radius, dist)
  {
    SortBySameElements(Shaped(rows, latitude, longitude, radius, dist), DistanceKey);
    ShapedMembers(rows, latitude, longitude, radius, dist, Shape(r, latitude, longitude, dist));
  }

  /**
    Without a location no row is dropped, the query order is kept, and no
    `distance` key is added: each dict is its row with the attributes nested.
  */
  lemma {:induction false} NoLocationKeepsRows(rows: seq<Record>, latitude: Option<real>, longitude: Option<real>,
                                               radius: real, dist: DistanceFn)
    requires forall r <- rows :: QueryRow(r)
    requires !HasLocation(latitude, longitude)
    ensures |StallsResponse(rows, latitude, longitude, radius, dist)| == |rows|
    ensures forall k :: 0 <= k < |rows| ==> StallsResponse(rows, latitude, longitude, radius, dist)[k] == Nest(rows[k])
  {
    if rows != [] {
      NoLocationKeepsRows(Init(rows), latitude, longitude, radius, dist);
      var prefix := Shaped(Init(rows), latitude, longitude, radius, dist);
      forall k | 0 <= k < |rows| - 1
        ensures Shaped(rows, latitude, longitude, radius, dist)[k] == Nest(rows[k])
      {
        assert prefix[k] == Nest(Init(rows)[k]);
      }
    }
  }

  /**
    With a location the stalls are ordered by non-decreasing rounded distance,
    are the kept rows' dicts, and stalls at the same rounded distance keep
    their query order.
  */
  lemma ResponseSortedStable(rows: seq<Record>, latitude: Option<real>, longitude: Option<real>,
                             radius: real, dist: DistanceFn)
    requires forall r <- rows :: QueryRow(r)
    requires HasLocation(latitude, longitude)
    ensures SortedBy(StallsResponse(rows, latitude, longitude, radius, dist), DistanceKey)
    ensures multiset(StallsResponse(rows, latitude, longitude, radius, dist)) ==
      multiset(Shaped(rows, latitude, longitude, radius, dist))
    ensures forall k :: (WithKey(StallsResponse(rows, latitude, longitude, radius, dist), DistanceKey, k) ==
      WithKey(Shaped(rows, latitude, longitude, radius, dist), DistanceKey, k))
  {
    SortByIsStableSort(Shaped(rows, latitude, longitude, radius, dist), DistanceKey);
  }

  /** `HTTPException(status_code, detail)` */
  datatype HttpError = HttpError(statusCode: int, detail: string)

  /** FastAPI's answer when a handler raises an exception it does not catch. */
  const InternalError: HttpError := HttpError(500, "Internal Server Error")

  /**
    Lines 135-165: `GET /stalls/{stall_id}`, the first row of the join with that
    stall id. An id outside SQLite's 64-bit range makes `conn.execute` raise
    `OverflowError` (line 146), which FastAPI turns into a 500 response.
  */
  function GetStall(stalls: seq<StallRow>, attributes: seq<AttributeRow>, stallId: int): (result: Result<Record, HttpError>)
    ensures !FitsInt64(stallId) ==> result == Failure(InternalError)
    ensures FitsInt64(stallId) && result.Failure? ==> result.error == HttpError(404, "Stall not found")
  {
    if !FitsInt64(stallId) then Failure(InternalError)
    else
      var rows := Select(stalls, attributes, StallIdIs(stallId));
      if rows == [] then Failure(HttpError(404, "Stall not found")) else Success(Nest(rows[0]))
  }

  /**
    `get_stall` fails exactly when the id is outside 64 bits or no stall with
    that id has an attribute row; otherwise it returns such a stall joined with
    its attribute row, attributes nested.
  */
  lemma GetStallFound(stalls: seq<StallRow>, attributes: seq<AttributeRow>, stallId: int)
    ensures GetStall(stalls, attributes, stallId).Failure? <==>
      !FitsInt64(stallId) || forall s, a :: s in stalls && a in attributes && a.stallId == s.id ==> s.id != stallId
    ensures GetStall(stalls, attributes, stallId).Success? ==>
      exists s, a :: s in stalls && a in attributes && a.stallId == s.id && s.id == stallId &&
        GetStall(stalls, attributes, stallId).value == Nest(JoinRow(s, a))
  {
    var rows := Select(stalls, attributes, StallIdIs(stallId));
    if !FitsInt64(stallId) {
    } else if rows == [] {
      forall s, a | s in stalls && a in attributes && a.stallId == s.id
        ensures s.id != stallId
      {
        SelectMembers(stalls, attributes, StallIdIs(stallId), JoinRow(s, a));
      }
    } else {
      SelectMembers(stalls, attributes, StallIdIs(stallId), rows[0]);
    }
  }

  /** The lists `GET /filters` returns. */
  datatype FilterLists = FilterLists(cuisineTypes: seq<string>, priceRanges: seq<string>, dietaryRequirements: seq<string>)

  /** `SELECT DISTINCT column ... WHERE column != excluded`: each value once, in order of first appearance. */
  function DistinctExcept(values: seq<string>, excluded: string): (r: seq<string>)
    ensures forall i, j :: 0 <= i < j < |r| ==> r[i] != r[j]
    ensures forall v :: v in r <==> v in values && v != excluded
  {
    if values == [] then []
    else
      var r := DistinctExcept(Init(values), excluded);
      var v := Last(values);
      assert values == Init(values) + [v];
      if v == excluded || v in r then r else r + [v]
  }

  /** The column `column` of every attribute row, in table order. */
  function ColumnValues(attributes: seq<AttributeRow>, column: FilterColumn): seq<string> {
    seq(|attributes|, i requires 0 <= i < |attributes| => Column(attributes[i], column))
  }

  /** A value is in the column exactly when some attribute row holds it. */
  lemma ColumnValuesMembers(attributes: seq<AttributeRow>, column: FilterColumn)
    ensures forall v :: v in ColumnValues(attributes, column) <==> exists a <- attributes :: Column(a, column) == v
  {
    var values := ColumnValues(attributes, column);
    forall v | exists a <- attributes :: Column(a, column) == v
      ensures v in values
    {
      var a :| a in attributes && Column(a, column) == v;
      var i :| 0 <= i < |attributes| && attributes[i] == a;
      assert values[i] == v;
    }
  }

  /** The values a filter lists: those of some attribute row, `'Unknown'` excluded, none twice. */
  ghost predicate Offered(values: seq<string>, attributes: seq<AttributeRow>, column: FilterColumn) {
    && (forall i, j :: 0 <= i < j < |values| ==> values[i] != values[j])
    && (forall v :: v in values <==> v != "Unknown" && exists a <- attributes :: Column(a, column) == v)
  }

  /** Lines 167-193: `GET /filters`. */
  function GetFilters(attributes: seq<AttributeRow>): (f: FilterLists)
    ensures Offered(f.cuisineTypes, attributes, Cuisine)
    ensures Offered(f.priceRanges, attributes, Price)
    ensures Offered(f.dietaryRequirements, attributes, Dietary)
  {
    ColumnValuesMembers(attributes, Cuisine);
    ColumnValuesMembers(attributes, Price);
    ColumnValuesMembers(attributes, Dietary);
    FilterLists(
      DistinctExcept(ColumnValues(attributes, Cuisine), "Unknown"),
      DistinctExcept(ColumnValues(attributes, Price), "Unknown"),
      DistinctExcept(ColumnValues(attributes, Dietary), "Unknown"))
  }
}
