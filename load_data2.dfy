/**
  backend/data/load_data2.py: the second importer. It recreates both tables,
  keeps the GeoJSON features within 5 km of Bras Basah, sorts them by distance
  (stably), keeps the nearest 100, and then either writes a CSV template for
  them (when `stall_data.csv` does not exist yet) or joins stall number
  `idx + 1` with the CSV row whose `id` is `str(idx + 1)` and inserts a stall
  row and an attribute row for each stall that has one.
*/
module LoadData2 {
  import opened Wrappers
  import opened HtmlExtract
  import opened StableSort
  import opened Tables
  import opened StallFields
  import opened Numbers

  const BrasBasahLat: real := 1.2966
  const BrasBasahLon: real := 103.8517
  const MaxDistanceKm: real := 5.0
  const MaxStalls: nat := 100

  /** A feature that passed the range filter, with the distance stored in `feature['distance']`. */
  datatype Located = Located(feature: Feature, distance: real)

  /** The sort key `lambda x: x['distance']`. */
  function DistanceOf(x: Located): real {
    x.distance
  }

  predicate HasPosition(f: Feature) {
    |f.coordinates| >= 2
  }

  /** Distance of `f` from Bras Basah; GeoJSON coordinates are `[longitude, latitude]`. */
  function FromCentre(f: Feature, dist: DistanceFn): real
    requires HasPosition(f)
  {
    dist(BrasBasahLat, BrasBasahLon, f.coordinates[1], f.coordinates[0])
  }

  /** The features within range, in GeoJSON order, each with its distance. */
  function InRange(features: seq<Feature>, dist: DistanceFn): (r: seq<Located>)
    requires forall f <- features :: HasPosition(f)
    ensures forall x <- r :: HasPosition(x.feature)
  {
    if features == [] then []
    else
      var f := Last(features);
      var d := FromCentre(f, dist);
      InRange(Init(features), dist) + (if d <= MaxDistanceKm then [Located(f, d)] else [])
  }

  function Min(a: nat, b: nat): nat {
    if a <= b then a else b
  }

  /** The selected stalls: the in-range features sorted by distance, at most the first 100. */
  function Nearby(features: seq<Feature>, dist: DistanceFn): (r: seq<Located>)
    requires forall f <- features :: HasPosition(f)
    ensures forall x <- r :: HasPosition(x.feature)
  {
    var candidates := InRange(features, dist);
    var sorted := SortBy(candidates, DistanceOf);
    SortBySameElements(candidates, DistanceOf);
    sorted[..Min(MaxStalls, |sorted|)]
  }

  /** A feature is a candidate exactly when it is within 5 km, inclusive, carrying its own distance. */
  lemma {:induction false} InRangeMembers(features: seq<Feature>, dist: DistanceFn, x: Located)
    requires forall f <- features :: HasPosition(f)
    ensures x in InRange(features, dist) <==>
      x.feature in features && x.distance == FromCentre(x.feature, dist) && x.distance <= MaxDistanceKm
  {
    if features != [] {
      InRangeMembers(Init(features), dist, x);
      assert features == Init(features) + [Last(features)];
    }
  }

  /** Every selected stall is an in-range feature with its own distance, at most 5 km away. */
  lemma NearbyWithinRange(features: seq<Feature>, dist: DistanceFn, x: Located)
    requires forall f <- features :: HasPosition(f)
    requires x in Nearby(features, dist)
    ensures x.feature in features && x.distance == FromCentre(x.feature, dist) && x.distance <= MaxDistanceKm
  {
    var candidates := InRange(features, dist);
    SortBySameElements(candidates, DistanceOf);
    assert x in SortBy(candidates, DistanceOf);
    InRangeMembers(features, dist, x);
  }

  /**
    The selection is sorted by distance, has `min(100, #in-range)` elements, and
    keeps the GeoJSON order among stalls at the same distance.
  */
  lemma NearbyIsSortedPrefix(features: seq<Feature>, dist: DistanceFn)
    requires forall f <- features :: HasPosition(f)
    ensures SortedBy(Nearby(features, dist), DistanceOf)
    ensures |Nearby(features, dist)| == Min(MaxStalls, |InRange(features, dist)|)
    ensures forall k :: WithKey(Nearby(features, dist), DistanceOf, k) <= WithKey(InRange(features, dist), DistanceOf, k)
  {
    var candidates := InRange(features, dist);
    var sorted := SortBy(candidates, DistanceOf);
    SortByIsStableSort(candidates, DistanceOf);
    forall k ensures WithKey(Nearby(features, dist), DistanceOf, k) <= WithKey(candidates, DistanceOf, k) {
      WithKeyPrefix(sorted, DistanceOf, k, Min(MaxStalls, |sorted|));
    }
  }

  /** No in-range feature left out of the selection is nearer than a selected one. */
  lemma NearbyAreNearest(features: seq<Feature>, dist: DistanceFn, x: Located, y: Located)
    requires forall f <- features :: HasPosition(f)
    requires x in Nearby(features, dist)
    requires y in InRange(features, dist) && y !in Nearby(features, dist)
    ensures x.distance <= y.distance
  {
    var candidates := InRange(features, dist);
    var sorted := SortBy(candidates, DistanceOf);
    SortByIsStableSort(candidates, DistanceOf);
    SortBySameElements(candidates, DistanceOf);
    SortedPrefixBelow(sorted, DistanceOf, Min(MaxStalls, |sorted|), x, y);
  }

  /** Lines 83-97: the filter loop, the in-place sort and the truncation to 100. */
  method SelectNearby(features: seq<Feature>, dist: DistanceFn) returns (selected: seq<Located>)
    requires forall f <- features :: HasPosition(f)
    ensures selected == Nearby(features, dist)
  {
    var candidates: seq<Located> := [];
    for n := 0 to |features|
      invariant candidates == InRange(features[..n], dist)
    {
      var f := features[n];
      assert HasPosition(f);
      var d := dist(BrasBasahLat, BrasBasahLon, f.coordinates[1], f.coordinates[0]);
      if d <= MaxDistanceKm {
        candidates := candidates + [Located(f, d)];
      }
      assert Init(features[..n + 1]) == features[..n];
    }
    assert features[..|features|] == features;
    candidates := SortBy(candidates, DistanceOf);
    selected := candidates[..Min(MaxStalls, |candidates|)];
  }

  /** A record of `stall_data.csv` as `csv.DictReader` yields it: every cell is text. */
  datatype CsvRow = CsvRow(
    id: string,
    name: string,
    cuisineType: string,
    priceRange: string,
    dietaryRequirements: string,
    hpbCertifiedItems: string,
    hpbCertificationReason: string,
    avgCalorieCount: string)

  /** `stall_data[row['id']] = row` over the rows in file order: a later row with the same id replaces an earlier one. */
  function CsvIndex(rows: seq<CsvRow>): map<string, CsvRow> {
    if rows == [] then map[] else CsvIndex(Init(rows))[Last(rows).id := Last(rows)]
  }

  /** The keys are the ids in the file, and each maps to the last row carrying it. */
  lemma {:induction false} CsvIndexLastWins(rows: seq<CsvRow>, key: string)
    ensures key in CsvIndex(rows) <==> exists i :: 0 <= i < |rows| && rows[i].id == key
    ensures key in CsvIndex(rows) ==> exists i ::
      && 0 <= i < |rows| && CsvIndex(rows)[key] == rows[i] && rows[i].id == key
      && forall j :: i < j < |rows| ==> rows[j].id != key
  {
    if rows != [] {
      var init := Init(rows);
      CsvIndexLastWins(init, key);
      assert rows == init + [Last(rows)];
      if Last(rows).id == key {
        assert rows[|rows| - 1].id == key;
      } else if key in CsvIndex(rows) {
        var i :| 0 <= i < |init| && CsvIndex(init)[key] == init[i] && init[i].id == key
          && forall j :: i < j < |init| ==> init[j].id != key;
        assert rows[i] == init[i];
      }
      if exists i :: 0 <= i < |rows| && rows[i].id == key {
        var i :| 0 <= i < |rows| && rows[i].id == key;
        if i < |init| {
          assert init[i].id == key;
        }
      }
    }
  }

  /** A row whose id no other row carries is the one its key maps to. */
  lemma {:induction false} CsvIndexUniqueKey(rows: seq<CsvRow>, i: nat)
    requires i < |rows|
    requires forall j :: 0 <= j < |rows| && j != i ==> rows[j].id != rows[i].id
    ensures rows[i].id in CsvIndex(rows) && CsvIndex(rows)[rows[i].id] == rows[i]
  {
    if i < |rows| - 1 {
      var init := Init(rows);
      assert init[i] == rows[i];
      forall j | 0 <= j < |init| && j != i
        ensures init[j].id != init[i].id
      {
        assert init[j] == rows[j];
      }
      CsvIndexUniqueKey(init, i);
      assert Last(rows).id != rows[i].id;
    }
  }

  /** Lines 140-145: reading the CSV into `stall_data`. */
  method LoadCsv(rows: seq<CsvRow>) returns (data: map<string, CsvRow>)
    ensures data == CsvIndex(rows)
  {
    data := map[];
    for n := 0 to |rows|
      invariant data == CsvIndex(rows[..n])
    {
      data := data[rows[n].id := rows[n]];
      assert Init(rows[..n + 1]) == rows[..n];
    }
    assert rows[..|rows|] == rows;
  }

  /** The CSV key of the stall at position `idx` of the selection: `str(idx + 1)`. */
  function CsvKey(idx: nat): string {
    NatToString(idx + 1)
  }

  /** The stall's name: the description's `NAME` cell, else the `Name` property, else `'Unknown Eatery'`. */
  function StallName(p: Properties): string {
    var fromDescription := Extract(DescriptionOf(p), "NAME");
    if fromDescription != "" then fromDescription else p.name.GetOr("Unknown Eatery")
  }

  /** A non-empty `NAME` cell wins over the `Name` property. */
  lemma StallNameFromDescription(p: Properties, i: int, w: string, v: string)
    requires LeftmostOccurrence(DescriptionOf(p), "NAME", i, w, v) && v != ""
    ensures StallName(p) == v
  {
    ExtractLeftmost(DescriptionOf(p), "NAME", i, w, v);
  }

  /** Without a non-empty `NAME` cell the `Name` property is used, even when it is `''`, and `'Unknown Eatery'` without it. */
  lemma StallNameFallback(p: Properties)
    requires forall i, w, v :: LeftmostOccurrence(DescriptionOf(p), "NAME", i, w, v) ==> v == ""
    ensures p.name.Some? ==> StallName(p) == p.name.value
    ensures p.name.None? ==> StallName(p) == "Unknown Eatery"
  {
    ExtractIsLeftmostCapture(DescriptionOf(p), "NAME");
  }

  /** The template row written for the stall at position `idx`. */
  function TemplateRow(idx: nat, x: Located): CsvRow {
    CsvRow(CsvKey(idx), StallName(x.feature.properties), "Local", "5-10", "Regular",
      "Healthier meal options", "Lower in calories", "500")
  }

  function Template(selected: seq<Located>): seq<CsvRow> {
    seq(|selected|, idx requires 0 <= idx < |selected| => TemplateRow(idx, selected[idx]))
  }

  /** Lines 112-131: one template row per selected stall, in order. */
  method WriteTemplate(selected: seq<Located>) returns (rows: seq<CsvRow>)
    ensures rows == Template(selected)
  {
    rows := [];
    for idx := 0 to |selected|
      invariant rows == Template(selected[..idx])
    {
      rows := rows + [TemplateRow(idx, selected[idx])];
    }
    assert selected[..|selected|] == selected;
  }

  /**
    Read back, the template has a row for every selected stall, under that
    stall's key and with readable, storable calories: a second run joins every stall.
  */
  lemma TemplateCoversSelection(selected: seq<Located>, idx: nat)
    requires idx < |selected|
    ensures CsvKey(idx) in CsvIndex(Template(selected))
    ensures CsvIndex(Template(selected))[CsvKey(idx)] == TemplateRow(idx, selected[idx])
    ensures IsIntText(CsvIndex(Template(selected))[CsvKey(idx)].avgCalorieCount)
    ensures FitsInt64(IntValue(CsvIndex(Template(selected))[CsvKey(idx)].avgCalorieCount))
  {
    var rows := Template(selected);
    forall j | 0 <= j < |rows| && j != idx
      ensures rows[j].id != rows[idx].id
    {
      if rows[j].id == rows[idx].id {
        NatToStringInjective(j + 1, idx + 1);
      }
    }
    CsvIndexUniqueKey(rows, idx);
    DefaultCaloriesReadable();
  }

  /** The template's calorie count `'500'` is accepted by `int()`. */
  lemma DefaultCaloriesReadable()
    ensures IsIntText("500") && IntValue("500") == 500
  {
    assert IsDigitGroup("500");
    assert DigitsValue("50") == 50;
    assert DigitsValue("500") == 500;
  }

  /** The stall row inserted for `x`; its `id` is assigned by the insert. */
  function StallRowFor(x: Located): StallRow
    requires HasPosition(x.feature)
  {
    var f := x.feature;
    RowWithFields(StallName(f.properties), ExtractAll(DescriptionOf(f.properties), FieldNames),
      f.coordinates[1], f.coordinates[0], Some(x.distance))
  }

  /** The attribute row inserted from CSV row `c` for stall `stallId`; its `id` is assigned by the insert. */
  function AttributeRowFor(c: CsvRow, stallId: int): AttributeRow
    requires IsIntText(c.avgCalorieCount)
  {
    AttributeRow(0, stallId, c.cuisineType, c.priceRange, c.dietaryRequirements,
      Some(c.hpbCertifiedItems), Some(c.hpbCertificationReason), IntValue(c.avgCalorieCount))
  }

  /**
    Every CSV row joined to a selected stall has a calorie count that `int()`
    accepts and that SQLite can store as a 64-bit integer.
  */
  predicate CaloriesReadable(n: nat, data: map<string, CsvRow>) {
    forall idx: nat :: idx < n && CsvKey(idx) in data ==>
      IsIntText(data[CsvKey(idx)].avgCalorieCount) && FitsInt64(IntValue(data[CsvKey(idx)].avgCalorieCount))
  }

  /** The positions below `n` of the selected stalls that have a CSV row, in order. */
  function Kept(n: nat, data: map<string, CsvRow>): (ks: seq<nat>)
    ensures forall k :: 0 <= k < |ks| ==> ks[k] < n && CsvKey(ks[k]) in data
  {
    if n == 0 then [] else Kept(n - 1, data) + (if CsvKey(n - 1) in data then [n - 1] else [])
  }

  /** Exactly the selected stalls with a CSV row are kept, each once, in increasing position. */
  lemma {:induction false} KeptMembers(n: nat, data: map<string, CsvRow>)
    ensures forall idx: nat :: idx in Kept(n, data) <==> idx < n && CsvKey(idx) in data
    ensures forall k, l :: 0 <= k < l < |Kept(n, data)| ==> Kept(n, data)[k] < Kept(n, data)[l]
  {
    if n > 0 {
      KeptMembers(n - 1, data);
    }
  }

  /** `s` and `a` are the stall row and attribute row inserted for stall `x` joined with CSV row `c`. */
  predicate Joined(s: StallRow, a: AttributeRow, x: Located, c: CsvRow)
    requires HasPosition(x.feature) && IsIntText(c.avgCalorieCount)
  {
    s == StallRowFor(x).(id := s.id) && a == AttributeRowFor(c, s.id).(id := a.id)
  }

  /**
    `stalls` and `attributes` are the rows the insert loop adds for `selected`:
    row `k` of each comes from the `k`-th selected stall that has a CSV row, and
    attribute row `k` holds that CSV row's values and points at stall row `k`.
  */
  ghost predicate InsertedFrom(stalls: seq<StallRow>, attributes: seq<AttributeRow>,
                               selected: seq<Located>, data: map<string, CsvRow>)
    requires forall x <- selected :: HasPosition(x.feature)
    requires CaloriesReadable(|selected|, data)
  {
    var kept := Kept(|selected|, data);
    && |stalls| == |kept| && |attributes| == |kept|
    && forall k :: 0 <= k < |kept| ==>
      Joined(stalls[k], attributes[k], selected[kept[k]], data[CsvKey(kept[k])])
  }

  lemma InsertedFromStep(stalls: seq<StallRow>, attributes: seq<AttributeRow>,
                         selected: seq<Located>, data: map<string, CsvRow>, n: nat)
    requires n < |selected|
    requires forall x <- selected :: HasPosition(x.feature)
    requires CaloriesReadable(|selected|, data)
    requires InsertedFrom(stalls, attributes, selected[..n], data)
    requires CsvKey(n) !in data
    ensures InsertedFrom(stalls, attributes, selected[..n + 1], data)
  {
    assert Kept(n + 1, data) == Kept(n, data);
  }

  lemma InsertedFromAppend(stalls: seq<StallRow>, attributes: seq<AttributeRow>,
                           selected: seq<Located>, data: map<string, CsvRow>, n: nat, stallId: int, attributeId: int)
    requires n < |selected|
    requires forall x <- selected :: HasPosition(x.feature)
    requires CaloriesReadable(|selected|, data)
    requires InsertedFrom(stalls, attributes, selected[..n], data)
    requires CsvKey(n) in data
    ensures InsertedFrom(stalls + [StallRowFor(selected[n]).(id := stallId)],
      attributes + [AttributeRowFor(data[CsvKey(n)], stallId).(id := attributeId)], selected[..n + 1], data)
  {
    assert Kept(n + 1, data) == Kept(n, data) + [n];
  }

  /** Lines 157-232: the join-and-insert loop over the selected stalls. */
  method InsertSelected(db: Database, selected: seq<Located>, data: map<string, CsvRow>)
    requires db.Valid()
    requires forall x <- selected :: HasPosition(x.feature)
    requires CaloriesReadable(|selected|, data)
    modifies db
    ensures db.Valid()
    ensures |old(db.stalls)| <= |db.stalls| && db.stalls[..|old(db.stalls)|] == old(db.stalls)
    ensures |old(db.attributes)| <= |db.attributes| && db.attributes[..|old(db.attributes)|] == old(db.attributes)
    ensures InsertedFrom(db.stalls[|old(db.stalls)|..], db.attributes[|old(db.attributes)|..], selected, data)
  {
    ghost var oldStalls, oldAttributes := db.stalls, db.attributes;
    ghost var newStalls: seq<StallRow>, newAttributes: seq<AttributeRow> := [], [];
    for idx := 0 to |selected|
      invariant db.Valid()
      invariant db.stalls == oldStalls + newStalls && db.attributes == oldAttributes + newAttributes
      invariant InsertedFrom(newStalls, newAttributes, selected[..idx], data)
    {
      var key := CsvKey(idx);
      if key !in data {
        InsertedFromStep(newStalls, newAttributes, selected, data, idx);
        continue;
      }
      var stallId := db.InsertStall(StallRowFor(selected[idx]));
      var row := data[key];
      var attributeId := db.InsertAttributes(AttributeRowFor(row, stallId));
      InsertedFromAppend(newStalls, newAttributes, selected, data, idx, stallId, attributeId);
      AppendAssoc(oldStalls, newStalls, [StallRowFor(selected[idx]).(id := stallId)]);
      AppendAssoc(oldAttributes, newAttributes, [AttributeRowFor(row, stallId).(id := attributeId)]);
      newStalls := newStalls + [StallRowFor(selected[idx]).(id := stallId)];
      newAttributes := newAttributes + [AttributeRowFor(row, stallId).(id := attributeId)];
    }
    assert selected[..|selected|] == selected;
    assert db.stalls[|oldStalls|..] == newStalls by {
      assert db.stalls == oldStalls + newStalls;
    }
    assert db.attributes[|oldAttributes|..] == newAttributes by {
      assert db.attributes == oldAttributes + newAttributes;
    }
  }

  /**
    The whole script. The tables are dropped and recreated first. With no
    CSV file (`csvFile == None`) the template is returned and the tables stay
    empty; otherwise the CSV is read and the selected stalls are inserted.
  */
  method ImportNearby(db: Database, features: seq<Feature>, dist: DistanceFn, csvFile: Option<seq<CsvRow>>)
    returns (template: Option<seq<CsvRow>>)
    requires forall f <- features :: HasPosition(f)
    requires csvFile.Some? ==> CaloriesReadable(|Nearby(features, dist)|, CsvIndex(csvFile.value))
    modifies db
    ensures db.Valid()
    ensures csvFile.None? ==> template == Some(Template(Nearby(features, dist))) && db.stalls == [] && db.attributes == []
    ensures csvFile.Some? ==>
      template.None? && InsertedFrom(db.stalls, db.attributes, Nearby(features, dist), CsvIndex(csvFile.value))
  {
    db.Recreate();
    var selected := SelectNearby(features, dist);
    if csvFile.None? {
      var rows := WriteTemplate(selected);
      template := Some(rows);
      return;
    }
    var data := LoadCsv(csvFile.value);
    InsertSelected(db, selected, data);
    template := None;
  }
}
