/**
  backend/data/load_data.py: the first importer. It opens the database
  without clearing it (`CREATE TABLE IF NOT EXISTS` only), and for every GeoJSON
  feature inserts one stall row, with nine fields pulled out of the
  `Description` HTML and the `[longitude, latitude]` pair swapped into the
  latitude and longitude columns, followed by one attribute row of
  placeholders that points at that stall row through `cursor.lastrowid`.
*/
module LoadData {
  import opened Wrappers
  import opened HtmlExtract
  import opened Tables
  import opened StallFields
  import opened StableSort

  /** The stall row inserted for `f`; its `id` is assigned by the insert. */
  function StallRowFor(f: Feature): StallRow
    requires |f.coordinates| >= 2
  {
    RowWithFields(f.properties.name.GetOr(""), ExtractAll(DescriptionOf(f.properties), FieldNames),
      f.coordinates[1], f.coordinates[0], None)
  }

  /** The placeholder attribute row for stall `stallId`; its `id` is assigned by the insert. */
  function PlaceholderAttributes(stallId: int): AttributeRow {
    AttributeRow(0, stallId, "Unknown", "Unknown", "Unknown", None, None, 0)
  }

  /**
    The name column is the `Name` property, `''` when it is absent: a `NAME`
    cell in the description is never consulted.
  */
  lemma NameIgnoresDescription(f: Feature, g: Feature)
    requires |f.coordinates| >= 2 && |g.coordinates| >= 2
    requires f.properties.name == g.properties.name
    ensures StallRowFor(f).name == StallRowFor(g).name
    ensures f.properties.name.Some? ==> StallRowFor(f).name == f.properties.name.value
    ensures f.properties.name.None? ==> StallRowFor(f).name == ""
  {
  }

  /** GeoJSON stores `[longitude, latitude]`; the row stores them the other way round. */
  lemma CoordinatesSwapped(f: Feature)
    requires |f.coordinates| >= 2
    ensures StallRowFor(f).latitude == f.coordinates[1] && StallRowFor(f).longitude == f.coordinates[0]
    ensures StallRowFor(f).distanceFromBrasBasah.None?
  {
  }

  /**
    Each of the nine columns holds the leftmost capture of its field's
    pattern, and `''` when the description has no match for it.
  */
  lemma ColumnIsLeftmostCapture(f: Feature, k: nat)
    requires |f.coordinates| >= 2 && k < |FieldNames|
    ensures forall i, w, v :: LeftmostOccurrence(DescriptionOf(f.properties), FieldNames[k], i, w, v) ==>
      FieldValues(StallRowFor(f))[k] == v
    ensures (forall i, w, v :: !Occurrence(DescriptionOf(f.properties), FieldNames[k], i, w, v)) ==>
      FieldValues(StallRowFor(f))[k] == ""
  {
    FieldIsLeftmostCapture(DescriptionOf(f.properties), f.properties.name.GetOr(""), f.coordinates[1], f.coordinates[0], None, k);
  }

  /**
    `stalls` and `attributes` are the rows the loop adds for `features`: row
    `k` of each comes from feature `k`, and attribute row `k` points at stall row `k`.
  */
  ghost predicate ImportedRows(stalls: seq<StallRow>, attributes: seq<AttributeRow>, features: seq<Feature>)
    requires forall f <- features :: |f.coordinates| >= 2
  {
    if features == [] then stalls == [] && attributes == []
    else
      var f := features[|features| - 1];
      && |stalls| == |features| && |attributes| == |features|
      && ImportedRows(stalls[..|stalls| - 1], attributes[..|attributes| - 1], features[..|features| - 1])
      && stalls[|stalls| - 1] == StallRowFor(f).(id := stalls[|stalls| - 1].id)
      && attributes[|attributes| - 1] == PlaceholderAttributes(stalls[|stalls| - 1].id).(id := attributes[|attributes| - 1].id)
  }

  /** Row `k` of each table comes from feature `k`, and attribute row `k` points at stall row `k`. */
  lemma {:induction false} ImportedRowsAt(stalls: seq<StallRow>, attributes: seq<AttributeRow>, features: seq<Feature>, k: nat)
    requires forall f <- features :: |f.coordinates| >= 2
    requires ImportedRows(stalls, attributes, features) && k < |features|
    ensures |stalls| == |features| && |attributes| == |features|
    ensures stalls[k] == StallRowFor(features[k]).(id := stalls[k].id)
    ensures attributes[k] == PlaceholderAttributes(stalls[k].id).(id := attributes[k].id)
  {
    if k < |features| - 1 {
      ImportedRowsAt(stalls[..|stalls| - 1], attributes[..|attributes| - 1], features[..|features| - 1], k);
    }
  }

  lemma ImportedRowsAppend(stalls: seq<StallRow>, attributes: seq<AttributeRow>, features: seq<Feature>,
                           n: nat, stallId: int, attributeId: int)
    requires n < |features|
    requires forall f <- features :: |f.coordinates| >= 2
    requires ImportedRows(stalls, attributes, features[..n])
    ensures ImportedRows(stalls + [StallRowFor(features[n]).(id := stallId)],
      attributes + [PlaceholderAttributes(stallId).(id := attributeId)], features[..n + 1])
  {
    assert features[..n + 1][..n] == features[..n];
    InitAppend(stalls, StallRowFor(features[n]).(id := stallId));
    InitAppend(attributes, PlaceholderAttributes(stallId).(id := attributeId));
  }

  /**
    The import loop. Existing rows are kept, so a rerun appends; each feature
    adds exactly one stall row and then one placeholder attribute row whose
    `stall_id` is that stall row's id.
  */
  method ImportFeatures(db: Database, features: seq<Feature>)
    requires db.Valid()
    requires forall f <- features :: |f.coordinates| >= 2
    modifies db
    ensures db.Valid()
    ensures |old(db.stalls)| <= |db.stalls| && db.stalls[..|old(db.stalls)|] == old(db.stalls)
    ensures |old(db.attributes)| <= |db.attributes| && db.attributes[..|old(db.attributes)|] == old(db.attributes)
    ensures ImportedRows(db.stalls[|old(db.stalls)|..], db.attributes[|old(db.attributes)|..], features)
  {
    ghost var oldStalls, oldAttributes := db.stalls, db.attributes;
    ghost var newStalls: seq<StallRow>, newAttributes: seq<AttributeRow> := [], [];
    for n := 0 to |features|
      invariant db.Valid()
      invariant db.stalls == oldStalls + newStalls && db.attributes == oldAttributes + newAttributes
      invariant ImportedRows(newStalls, newAttributes, features[..n])
    {
      var stallId := db.InsertStall(StallRowFor(features[n]));
      var attributeId := db.InsertAttributes(PlaceholderAttributes(stallId));
      ImportedRowsAppend(newStalls, newAttributes, features, n, stallId, attributeId);
      AppendAssoc(oldStalls, newStalls, [StallRowFor(features[n]).(id := stallId)]);
      AppendAssoc(oldAttributes, newAttributes, [PlaceholderAttributes(stallId).(id := attributeId)]);
      newStalls := newStalls + [StallRowFor(features[n]).(id := stallId)];
      newAttributes := newAttributes + [PlaceholderAttributes(stallId).(id := attributeId)];
    }
    assert features[..|features|] == features;
    assert db.stalls[|oldStalls|..] == newStalls by {
      assert db.stalls == oldStalls + newStalls;
    }
    assert db.attributes[|oldAttributes|..] == newAttributes by {
      assert db.attributes == oldAttributes + newAttributes;
    }
  }
}
