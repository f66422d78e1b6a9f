/**
  The data both importers read (GeoJSON features) and write (the SQLite tables
  `stalls` and `stall_attributes`), and the database as an object whose tables
  grow by `INSERT` and whose `cursor.lastrowid` is the id the insert assigned.

  The two importers create slightly different schemas; one row type covers both,
  with `None` for a column the inserting script does not fill
  (`distance_from_bras_basah`, `hpb_certified_items`, `hpb_certification_reason`).
  Which script created the tables, and so which columns exist, is not recorded.
*/
module Tables {
  import opened Wrappers

  /**
    `calculate_distance(lat1, lon1, lat2, lon2)`, the haversine distance in
    kilometres. Both scripts and the API use it; it is a parameter of the model.
  */
  type DistanceFn = (real, real, real, real) -> real

  /** The two properties of a GeoJSON feature that the importers read. */
  datatype Properties = Properties(description: Option<string>, name: Option<string>)

  /** A GeoJSON point feature; `coordinates` is `[longitude, latitude]`. */
  datatype Feature = Feature(properties: Properties, coordinates: seq<real>)

  /** `props.get('Description', '')` */
  function DescriptionOf(p: Properties): string {
    p.description.GetOr("")
  }

  datatype StallRow = StallRow(
    id: int,
    name: string,
    description: string,
    addressBlock: string,
    addressBuilding: string,
    addressPostalCode: string,
    addressStreet: string,
    addressFloor: string,
    addressUnit: string,
    latitude: real,
    longitude: real,
    addressType: string,
    lastUpdated: string,
    distanceFromBrasBasah: Option<real>)

  datatype AttributeRow = AttributeRow(
    id: int,
    stallId: int,
    cuisineType: string,
    priceRange: string,
    dietaryRequirements: string,
    hpbCertifiedItems: Option<string>,
    hpbCertificationReason: Option<string>,
    avgCalorieCount: int)

  /** The `id` column of a table, in row order. */
  function Ids<R>(rows: seq<R>, id: R -> int): seq<int> {
    seq(|rows|, i requires 0 <= i < |rows| => id(rows[i]))
  }

  function StallId(row: StallRow): int {
    row.id
  }

  function AttributeId(row: AttributeRow): int {
    row.id
  }

  /**
    SQLite's 64-bit `INTEGER` range. `sqlite3` raises `OverflowError` when a
    Python `int` outside it is bound to a `?` parameter.
  */
  predicate FitsInt64(x: int) {
    -0x8000_0000_0000_0000 <= x < 0x8000_0000_0000_0000
  }

  /** Row ids as an `INTEGER PRIMARY KEY` table holds them here: positive and increasing in insertion order. */
  predicate IncreasingIds(ids: seq<int>) {
    && (forall i :: 0 <= i < |ids| ==> 1 <= ids[i])
    && (forall i, j :: 0 <= i < j < |ids| ==> ids[i] < ids[j])
  }

  function MaxId(ids: seq<int>): (m: int)
    ensures forall i :: 0 <= i < |ids| ==> ids[i] <= m
    ensures ids == [] ==> m == 0
  {
    if ids == [] then 0
    else
      var m := MaxId(ids[..|ids| - 1]);
      var x := ids[|ids| - 1];
      assert forall i :: 0 <= i < |ids| - 1 ==> ids[i] == ids[..|ids| - 1][i];
      if x < m then m else x
  }

  /** SQLite's rowid for an insert without an explicit id: one more than the largest, 1 in an empty table. */
  function NextRowId(ids: seq<int>): (id: int)
    requires IncreasingIds(ids)
    ensures 1 <= id
    ensures forall i :: 0 <= i < |ids| ==> ids[i] < id
    ensures IncreasingIds(ids + [id])
  {
    MaxId(ids) + 1
  }

  /** The SQLite database file `hpb_food_stalls.db` with its two tables. */
  class Database {
    var stalls: seq<StallRow>
    var attributes: seq<AttributeRow>

    ghost predicate Valid()
      reads this
    {
      IncreasingIds(Ids(stalls, StallId)) && IncreasingIds(Ids(attributes, AttributeId))
    }

    /** A fresh database file: `CREATE TABLE IF NOT EXISTS` creates both tables empty. */
    constructor ()
      ensures Valid() && stalls == [] && attributes == []
    {
      stalls := [];
      attributes := [];
    }

    /** `DROP TABLE IF EXISTS` on both tables followed by `CREATE TABLE`. */
    method Recreate()
      modifies this
      ensures Valid() && stalls == [] && attributes == []
    {
      stalls := [];
      attributes := [];
    }

    /** `INSERT INTO stalls ...`; returns `cursor.lastrowid`. */
    method InsertStall(row: StallRow) returns (rowid: int)
      requires Valid()
      modifies this
      ensures Valid()
      ensures rowid == NextRowId(Ids(old(stalls), StallId))
      ensures stalls == old(stalls) + [row.(id := rowid)]
      ensures attributes == old(attributes)
    {
      rowid := NextRowId(Ids(stalls, StallId));
      assert Ids(stalls + [row.(id := rowid)], StallId) == Ids(stalls, StallId) + [rowid];
      stalls := stalls + [row.(id := rowid)];
    }

    /** `INSERT INTO stall_attributes ...`; returns `cursor.lastrowid`. */
    method InsertAttributes(row: AttributeRow) returns (rowid: int)
      requires Valid()
      modifies this
      ensures Valid()
      ensures rowid == NextRowId(Ids(old(attributes), AttributeId))
      ensures attributes == old(attributes) + [row.(id := rowid)]
      ensures stalls == old(stalls)
    {
      rowid := NextRowId(Ids(attributes, AttributeId));
      assert Ids(attributes + [row.(id := rowid)], AttributeId) == Ids(attributes, AttributeId) + [rowid];
      attributes := attributes + [row.(id := rowid)];
    }
  }
}
