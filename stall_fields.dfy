/**
  The nine stall columns both importers fill from a feature's `Description`
  HTML, each with the same field lookup, and the stall row built from them.
*/
module StallFields {
  import opened Wrappers
  import opened HtmlExtract
  import opened Tables

  /** The fields looked up in the description, in the order of `FieldValues`. */
  const FieldNames: seq<string> := ["DESCRIPTION", "ADDRESSBLOCKHOUSENUMBER", "ADDRESSBUILDINGNAME",
    "ADDRESSPOSTALCODE", "ADDRESSSTREETNAME", "ADDRESSFLOORNUMBER", "ADDRESSUNITNUMBER", "ADDRESSTYPE", "FMEL_UPD_D"]

  /** One field lookup per name, in order. */
  function ExtractAll(desc: string, names: seq<string>): (values: seq<string>)
    ensures |values| == |names|
  {
    if names == [] then [] else ExtractAll(desc, names[..|names| - 1]) + [Extract(desc, names[|names| - 1])]
  }

  lemma {:induction false} ExtractAllAt(desc: string, names: seq<string>, k: nat)
    requires k < |names|
    ensures ExtractAll(desc, names)[k] == Extract(desc, names[k])
  {
    if k < |names| - 1 {
      ExtractAllAt(desc, names[..|names| - 1], k);
    }
  }

  /**
    A stall row with `name`, the nine looked-up `values` in the order of
    `FieldNames`, and the coordinates; its `id` is assigned by the insert.
  */
  function RowWithFields(name: string, values: seq<string>, latitude: real, longitude: real,
                         distance: Option<real>): StallRow
    requires |values| == |FieldNames|
  {
    StallRow(0, name, values[0], values[1], values[2], values[3], values[4], values[5], values[6],
      latitude, longitude, values[7], values[8], distance)
  }

  /** The nine text columns filled from the description, in the order of `FieldNames`. */
  function FieldValues(row: StallRow): seq<string> {
    [row.description, row.addressBlock, row.addressBuilding, row.addressPostalCode, row.addressStreet,
     row.addressFloor, row.addressUnit, row.addressType, row.lastUpdated]
  }

  /**
    Column `k` of a row built from the description `desc` holds the leftmost
    capture of field `k`'s pattern, and `''` when the description has no match for it.
  */
  lemma FieldIsLeftmostCapture(desc: string, name: string, latitude: real, longitude: real,
                               distance: Option<real>, k: nat)
    requires k < |FieldNames|
    ensures var row := RowWithFields(name, ExtractAll(desc, FieldNames), latitude, longitude, distance);
      && (forall i, w, v :: LeftmostOccurrence(desc, FieldNames[k], i, w, v) ==> FieldValues(row)[k] == v)
      && ((forall i, w, v :: !Occurrence(desc, FieldNames[k], i, w, v)) ==> FieldValues(row)[k] == "")
  {
    var values := ExtractAll(desc, FieldNames);
    assert FieldValues(RowWithFields(name, values, latitude, longitude, distance)) == values;
    ExtractAllAt(desc, FieldNames, k);
    forall i, w, v | LeftmostOccurrence(desc, FieldNames[k], i, w, v) ensures values[k] == v {
      ExtractLeftmost(desc, FieldNames[k], i, w, v);
    }
    if forall i, w, v :: !Occurrence(desc, FieldNames[k], i, w, v) {
      ExtractNoMatch(desc, FieldNames[k]);
    }
  }
}
