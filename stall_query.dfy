/**
  The SQL side of backend/main.py: the text and parameters `get_stalls` builds
  for its query, what the `WHERE` clauses it adds mean, and the rows the join
  of `stalls` with `stall_attributes` yields, as `sqlite3.Row` dicts.

  Executing a query is modelled by evaluating the conditions its clauses were
  built from; SQLite does not promise a row order without `ORDER BY`, and the
  model returns the rows stall by stall, each stall's attribute rows in table order.
*/
module StallQuery {
  import opened Wrappers
  import opened StableSort
  import opened Tables
  import opened SqlLike

  /** A value in a result dict: SQLite's INTEGER, REAL and TEXT, and a nested dict. */
  datatype Value = Int(i: int) | Real(r: real) | Text(t: string) | Object(fields: map<Key, Value>)

  /** The keys that occur in the dicts: the columns of the query (named as in the tables), `distance` and `attributes`. */
  datatype Key =
    | Id | Name | Description | AddressBlock | AddressBuilding | AddressPostalCode | AddressStreet
    | AddressFloor | AddressUnit | Latitude | Longitude | AddressType | LastUpdated | DistanceFromBrasBasah
    | CuisineType | PriceRange | DietaryRequirements | AvgCalorieCount | Distance | Attributes

  /** A row as `dict(row)` returns it, or a dict built from one. */
  type Record = map<Key, Value>

  /** The query before any filter clause. */
  const BaseQuery: string :=
    "\n    SELECT s.*, " + "sa.cuisine_type, " + "sa.price_range, " + "sa.dietary_requirements, " +
    "sa.avg_calorie_count" + "\n    FROM stalls s" + "\n    JOIN stall_attributes sa" +
    " ON s.id = sa.stall_id" + "\n    WHERE 1=1\n    "

  /** Python's truth value of an optional string parameter: `None` and `''` are false. */
  predicate Given(v: Option<string>) {
    v.Some? && v.value != ""
  }

  /** The `stall_attributes` columns the filters test. */
  datatype FilterColumn = Cuisine | Price | Dietary

  function ColumnName(c: FilterColumn): string {
    match c
    case Cuisine => "cuisine_type"
    case Price => "price_range"
    case Dietary => "dietary_requirements"
  }

  /** A filter on a `stall_attributes` column: `sa.column = ?` or `sa.column LIKE ?`. */
  datatype Condition = Equals(column: FilterColumn, value: string) | Matches(column: FilterColumn, pattern: string)

  /** The conditions of the given filters, in the order cuisine, price, dietary. */
  function Conditions(cuisine: Option<string>, price: Option<string>, dietary: Option<string>): seq<Condition> {
    (if Given(cuisine) then [Equals(Cuisine, cuisine.value)] else []) +
    (if Given(price) then [Equals(Price, price.value)] else []) +
    (if Given(dietary) then [Matches(Dietary, "%" + dietary.value + "%")] else [])
  }

  function ClauseText(c: Condition): string {
    match c
    case Equals(column, _) => " AND sa." + ColumnName(column) + " = ?"
    case Matches(column, _) => " AND sa." + ColumnName(column) + " LIKE ?"
  }

  /** The parameter bound to the clause's `?`. */
  function Argument(c: Condition): string {
    match c
    case Equals(_, value) => value
    case Matches(_, pattern) => pattern
  }

  function Clauses(cs: seq<Condition>): string {
    if cs == [] then "" else Clauses(Init(cs)) + ClauseText(Last(cs))
  }

  function Arguments(cs: seq<Condition>): seq<string> {
    if cs == [] then [] else Arguments(Init(cs)) + [Argument(Last(cs))]
  }

  /** The clause texts as `get_stalls` spells them. */
  lemma CuisineClause(v: string)
    ensures ClauseText(Equals(Cuisine, v)) == " AND sa.cuisine_type = ?"
  {
  }

  lemma PriceClause(v: string)
    ensures ClauseText(Equals(Price, v)) == " AND sa.price_range = ?"
  {
  }

  lemma DietaryClause(pattern: string)
    ensures ClauseText(Matches(Dietary, pattern)) == " AND sa.dietary_requirements LIKE ?"
  {
  }

  lemma AppendEmpty(s: string)
    ensures s + "" == s
  {
  }

  lemma ClausesAppend(base: string, cs: seq<Condition>, c: Condition)
    ensures base + Clauses(cs) + ClauseText(c) == base + Clauses(cs + [c])
    ensures Arguments(cs) + [Argument(c)] == Arguments(cs + [c])
  {
    InitAppend(cs, c);
    AppendAssoc(base, Clauses(cs), ClauseText(c));
  }

  /** One filter step: appending a clause's text and argument keeps the query and parameters in step with the conditions. */
  lemma AddCondition(base: string, query: string, params: seq<string>, cs: seq<Condition>, c: Condition, text: string, arg: string)
    requires query == base + Clauses(cs) && params == Arguments(cs)
    requires ClauseText(c) == text && Argument(c) == arg
    ensures query + text == base + Clauses(cs + [c]) && params + [arg] == Arguments(cs + [c])
  {
    ClausesAppend(base, cs, c);
  }

  /** Lines 76-94: the query grows by `+=` and the parameters by `append`, one filter at a time. */
  method BuildQuery(cuisine: Option<string>, price: Option<string>, dietary: Option<string>)
    returns (query: string, params: seq<string>)
    ensures query == BaseQuery + Clauses(Conditions(cuisine, price, dietary))
    ensures params == Arguments(Conditions(cuisine, price, dietary))
  {
    ghost var cs: seq<Condition> := [];
    query := BaseQuery;
    params := [];
    AppendEmpty(BaseQuery);
    if Given(cuisine) {
      CuisineClause(cuisine.value);
      AddCondition(BaseQuery, query, params, cs, Equals(Cuisine, cuisine.value), " AND sa.cuisine_type = ?", cuisine.value);
      query := query + " AND sa.cuisine_type = ?";
      params := params + [cuisine.value];
      cs := cs + [Equals(Cuisine, cuisine.value)];
    }
    if Given(price) {
      PriceClause(price.value);
      AddCondition(BaseQuery, query, params, cs, Equals(Price, price.value), " AND sa.price_range = ?", price.value);
      query := query + " AND sa.price_range = ?";
      params := params + [price.value];
      cs := cs + [Equals(Price, price.value)];
    }
    if Given(dietary) {
      var pattern := "%" + dietary.value + "%";
      DietaryClause(pattern);
      AddCondition(BaseQuery, query, params, cs, Matches(Dietary, pattern), " AND sa.dietary_requirements LIKE ?", pattern);
      query := query + " AND sa.dietary_requirements LIKE ?";
      params := params + [pattern];
      cs := cs + [Matches(Dietary, pattern)];
    }
    assert cs == Conditions(cuisine, price, dietary);
  }

  lemma SelectPartHasNoPlaceholder()
    ensures '?' !in "\n    SELECT s.*, " + "sa.cuisine_type, " + "sa.price_range, "
  {
    assert '?' !in "\n    SELECT s.*, ";
    assert '?' !in "sa.cuisine_type, ";
    assert '?' !in "sa.price_range, ";
  }

  lemma ColumnsPartHasNoPlaceholder()
    ensures '?' !in "sa.dietary_requirements, " + "sa.avg_calorie_count" + "\n    FROM stalls s"
  {
    assert '?' !in "sa.dietary_requirements, ";
    assert '?' !in "sa.avg_calorie_count";
    assert '?' !in "\n    FROM stalls s";
  }

  lemma JoinPartHasNoPlaceholder()
    ensures '?' !in "\n    JOIN stall_attributes sa" + " ON s.id = sa.stall_id" + "\n    WHERE 1=1\n    "
  {
    assert '?' !in "\n    JOIN stall_attributes sa";
    assert '?' !in " ON s.id = sa.stall_id";
    assert '?' !in "\n    WHERE 1=1\n    ";
  }

  /** The base query has no placeholder of its own. */
  lemma BaseQueryHasNoPlaceholder()
    ensures '?' !in BaseQuery
  {
    SelectPartHasNoPlaceholder();
    ColumnsPartHasNoPlaceholder();
    JoinPartHasNoPlaceholder();
  }

  /** How many times `c` occurs in `s`. */
  function Occurrences(c: char, s: string): nat {
    if s == [] then 0 else Occurrences(c, Init(s)) + (if Last(s) == c then 1 else 0)
  }

  lemma {:induction false} OccurrencesAppend(c: char, s: string, t: string)
    ensures Occurrences(c, s + t) == Occurrences(c, s) + Occurrences(c, t)
    decreases |t|
  {
    if t == [] {
      assert s + t == s;
    } else {
      OccurrencesAppend(c, s, Init(t));
      assert Init(s + t) == s + Init(t) && Last(s + t) == Last(t);
    }
  }

  lemma {:induction false} OccurrencesAbsent(c: char, s: string)
    requires c !in s
    ensures Occurrences(c, s) == 0
  {
    if s != [] {
      assert Init(s) <= s;
      OccurrencesAbsent(c, Init(s));
    }
  }

  /** Every clause carries exactly one `?`. */
  lemma ClauseHasOnePlaceholder(c: Condition)
    ensures Occurrences('?', ClauseText(c)) == 1
  {
    var name := ColumnName(c.column);
    var op := if c.Equals? then " = " else " LIKE ";
    assert ClauseText(c) == " AND sa." + name + op + "?";
    assert '?' !in " AND sa." && '?' !in name && '?' !in op;
    OccurrencesAbsent('?', " AND sa.");
    OccurrencesAbsent('?', name);
    OccurrencesAbsent('?', op);
    OccurrencesAppend('?', " AND sa.", name);
    OccurrencesAppend('?', " AND sa." + name, op);
    OccurrencesAppend('?', " AND sa." + name + op, "?");
    assert Occurrences('?', "?") == 1 by {
      assert Init("?") == [];
    }
  }

  /** Each condition adds exactly one `?` and one parameter, so placeholders and parameters agree in number. */
  lemma {:induction false} PlaceholdersMatchArguments(base: string, cs: seq<Condition>)
    requires '?' !in base
    ensures Occurrences('?', base + Clauses(cs)) == |Arguments(cs)|
  {
    if cs == [] {
      assert base + Clauses(cs) == base;
      OccurrencesAbsent('?', base);
    } else {
      var c := Last(cs);
      PlaceholdersMatchArguments(base, Init(cs));
      AppendAssoc(base, Clauses(Init(cs)), ClauseText(c));
      ClauseHasOnePlaceholder(c);
      OccurrencesAppend('?', base + Clauses(Init(cs)), ClauseText(c));
    }
  }

  /** The query `get_stalls` sends has one placeholder per parameter, and one parameter per given filter. */
  lemma QueryPlaceholders(cuisine: Option<string>, price: Option<string>, dietary: Option<string>)
    ensures Occurrences('?', BaseQuery + Clauses(Conditions(cuisine, price, dietary))) ==
      |Arguments(Conditions(cuisine, price, dietary))|
    ensures |Arguments(Conditions(cuisine, price, dietary))| ==
      (if Given(cuisine) then 1 else 0) + (if Given(price) then 1 else 0) + (if Given(dietary) then 1 else 0)
  {
    var cs := Conditions(cuisine, price, dietary);
    BaseQueryHasNoPlaceholder();
    PlaceholdersMatchArguments(BaseQuery, cs);
    ArgumentsLength(cs);
  }

  lemma {:induction false} ArgumentsLength(cs: seq<Condition>)
    ensures |Arguments(cs)| == |cs|
  {
    if cs != [] {
      ArgumentsLength(Init(cs));
    }
  }

  /** The value of a `stall_attributes` column the filters refer to. */
  function Column(a: AttributeRow, column: FilterColumn): string {
    match column
    case Cuisine => a.cuisineType
    case Price => a.priceRange
    case Dietary => a.dietaryRequirements
  }

  /** SQLite's `=` on text compares exactly; `LIKE` is `SqlLike.Like`. */
  predicate Holds(c: Condition, a: AttributeRow) {
    match c
    case Equals(column, value) => Column(a, column) == value
    case Matches(column, pattern) => Like(Column(a, column), pattern)
  }

  predicate HoldsAll(cs: seq<Condition>, a: AttributeRow) {
    forall c <- cs :: Holds(c, a)
  }

  /**
    The filters' meaning: cuisine and price must be equal to the given text,
    the dietary requirements must match `%dietary%`; an absent or empty filter
    lets every row through.
  */
  lemma FiltersMeaning(cuisine: Option<string>, price: Option<string>, dietary: Option<string>, a: AttributeRow)
    ensures HoldsAll(Conditions(cuisine, price, dietary), a) <==>
      && (Given(cuisine) ==> a.cuisineType == cuisine.value)
      && (Given(price) ==> a.priceRange == price.value)
      && (Given(dietary) ==> Like(a.dietaryRequirements, "%" + dietary.value + "%"))
  {
    var cs := Conditions(cuisine, price, dietary);
    if Given(cuisine) {
      assert Equals(Cuisine, cuisine.value) in cs;
    }
    if Given(price) {
      assert Equals(Price, price.value) in cs;
    }
    if Given(dietary) {
      assert Matches(Dietary, "%" + dietary.value + "%") in cs;
    }
  }

  /** A dietary filter without `%` or `_` keeps the rows whose requirements contain it, ignoring ASCII case. */
  lemma DietaryIsSubstring(dietary: string, a: AttributeRow)
    requires dietary != "" && Literal(dietary)
    ensures HoldsAll(Conditions(None, None, Some(dietary)), a) <==> ContainsFolded(a.dietaryRequirements, dietary)
  {
    FiltersMeaning(None, None, Some(dietary), a);
    LikeSubstring(a.dietaryRequirements, dietary);
  }

  /** The `WHERE` clause of a query over the join. */
  datatype Where = Filters(conditions: seq<Condition>) | StallIdIs(id: int)

  predicate Admits(w: Where, s: StallRow, a: AttributeRow) {
    match w
    case Filters(cs) => HoldsAll(cs, a)
    case StallIdIs(id) => s.id == id
  }

  /**
    The columns of `s.*`. `distance_from_bras_basah` is included when the row
    has a value for it, that is for the rows the second importer inserts.
  */
  function StallColumns(s: StallRow): Record {
    map[
      Id := Int(s.id), Name := Text(s.name), Description := Text(s.description),
      AddressBlock := Text(s.addressBlock), AddressBuilding := Text(s.addressBuilding),
      AddressPostalCode := Text(s.addressPostalCode), AddressStreet := Text(s.addressStreet),
      AddressFloor := Text(s.addressFloor), AddressUnit := Text(s.addressUnit),
      Latitude := Real(s.latitude), Longitude := Real(s.longitude),
      AddressType := Text(s.addressType), LastUpdated := Text(s.lastUpdated)]
    + (if s.distanceFromBrasBasah.Some? then map[DistanceFromBrasBasah := Real(s.distanceFromBrasBasah.value)] else map[])
  }

  const AttributeKeys: set<Key> := {CuisineType, PriceRange, DietaryRequirements, AvgCalorieCount}

  /** The four attribute columns the query selects. */
  function AttributeColumns(a: AttributeRow): (r: Record)
    ensures r.Keys == AttributeKeys
  {
    map[CuisineType := Text(a.cuisineType), PriceRange := Text(a.priceRange),
      DietaryRequirements := Text(a.dietaryRequirements), AvgCalorieCount := Int(a.avgCalorieCount)]
  }

  /** A row of the query: what every joined row has and `get_stalls` relies on. */
  predicate QueryRow(r: Record) {
    && AttributeKeys <= r.Keys
    && Latitude in r && r[Latitude].Real?
    && Longitude in r && r[Longitude].Real?
  }

  /** One row of the join: the stall's columns followed by the four attribute columns. */
  function JoinRow(s: StallRow, a: AttributeRow): (r: Record)
    ensures QueryRow(r)
    ensures r[Latitude] == Real(s.latitude) && r[Longitude] == Real(s.longitude)
    ensures forall k <- AttributeKeys :: r[k] == AttributeColumns(a)[k]
  {
    StallColumns(s) + AttributeColumns(a)
  }

  /** The pairs of stall `s` with its attribute rows that pass `w`, in table order. */
  function PairsOf(s: StallRow, attributes: seq<AttributeRow>, w: Where): seq<(StallRow, AttributeRow)> {
    if attributes == [] then []
    else
      var a := Last(attributes);
      PairsOf(s, Init(attributes), w) + (if a.stallId == s.id && Admits(w, s, a) then [(s, a)] else [])
  }

  /** The pairs the join produces, stall by stall. */
  function Matching(stalls: seq<StallRow>, attributes: seq<AttributeRow>, w: Where): seq<(StallRow, AttributeRow)> {
    if stalls == [] then [] else Matching(Init(stalls), attributes, w) + PairsOf(Last(stalls), attributes, w)
  }

  /** `SELECT ... FROM stalls s JOIN stall_attributes sa ON s.id = sa.stall_id WHERE ...` */
  function Select(stalls: seq<StallRow>, attributes: seq<AttributeRow>, w: Where): seq<Record> {
    var pairs := Matching(stalls, attributes, w);
    seq(|pairs|, i requires 0 <= i < |pairs| => JoinRow(pairs[i].0, pairs[i].1))
  }

  lemma {:induction false} PairsOfMembers(s: StallRow, attributes: seq<AttributeRow>, w: Where, p: (StallRow, AttributeRow))
    ensures p in PairsOf(s, attributes, w) <==>
      p.0 == s && p.1 in attributes && p.1.stallId == s.id && Admits(w, s, p.1)
  {
    if attributes != [] {
      PairsOfMembers(s, Init(attributes), w, p);
      assert attributes == Init(attributes) + [Last(attributes)];
    }
  }

  lemma {:induction false} MatchingMembers(stalls: seq<StallRow>, attributes: seq<AttributeRow>, w: Where, p: (StallRow, AttributeRow))
    ensures p in Matching(stalls, attributes, w) <==>
      p.0 in stalls && p.1 in attributes && p.1.stallId == p.0.id && Admits(w, p.0, p.1)
  {
    if stalls != [] {
      MatchingMembers(Init(stalls), attributes, w, p);
      PairsOfMembers(Last(stalls), attributes, w, p);
      assert stalls == Init(stalls) + [Last(stalls)];
    }
  }

  /** A row is in the result exactly when it joins a stall with one of its attribute rows that passes the `WHERE` clause. */
  lemma SelectMembers(stalls: seq<StallRow>, attributes: seq<AttributeRow>, w: Where, r: Record)
    ensures r in Select(stalls, attributes, w) <==>
      exists s, a :: s in stalls && a in attributes && a.stallId == s.id && Admits(w, s, a) && r == JoinRow(s, a)
  {
    var pairs := Matching(stalls, attributes, w);
    var rows := Select(stalls, attributes, w);
    if r in rows {
      var i :| 0 <= i < |rows| && rows[i] == r;
      MatchingMembers(stalls, attributes, w, pairs[i]);
    }
    if exists s, a :: s in stalls && a in attributes && a.stallId == s.id && Admits(w, s, a) && r == JoinRow(s, a) {
      var s, a :| s in stalls && a in attributes && a.stallId == s.id && Admits(w, s, a) && r == JoinRow(s, a);
      MatchingMembers(stalls, attributes, w, (s, a));
      var i :| 0 <= i < |pairs| && pairs[i] == (s, a);
      assert rows[i] == r;
    }
  }

  /** Every row of the result has the columns `get_stalls` reads. */
  lemma {:induction false} SelectRowsAreQueryRows(stalls: seq<StallRow>, attributes: seq<AttributeRow>, w: Where)
    ensures forall r <- Select(stalls, attributes, w) :: QueryRow(r)
  {
    forall r <- Select(stalls, attributes, w) ensures QueryRow(r) {
      SelectMembers(stalls, attributes, w, r);
    }
  }
}
