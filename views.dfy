/** The query layer of the two viewsets (hydroponic_manager/views.py): per-user
    visibility of systems and measurements, the two filters, list ordering, the choice
    of serializer, and the isolation between users. The requests built from them are
    in viewsets.dfy. */
module Views {
  import opened Common
  import opened Sequences
  import opened Models
  import opened Serializers

  // Ownership guard: the querysets of the two viewsets.

  function OwnedBy(u: UserId): System -> bool {
    (s: System) => s.owner == u
  }

  /** `get_queryset` of the system viewset: the user's own systems. */
  function VisibleSystems(systems: seq<System>, u: UserId): (r: seq<System>)
    ensures forall s :: s in r <==> s in systems && s.owner == u
  {
    Select(systems, OwnedBy(u))
  }

  /** The join `system__owner = u`: the measurement's system is owned by `u`. */
  function OwnedThroughSystem(systems: seq<System>, u: UserId): Measurement -> bool {
    (m: Measurement) => OwnerOf(systems, m.system) == Some(u)
  }

  /** `get_queryset` of the measurement viewset: measurements of the user's own systems. */
  function VisibleMeasurements(systems: seq<System>, measurements: seq<Measurement>, u: UserId)
    : (r: seq<Measurement>)
    ensures forall m :: m in r <==> m in measurements && OwnerOf(systems, m.system) == Some(u)
  {
    Select(measurements, OwnedThroughSystem(systems, u))
  }

  /** A measurement is visible to `u` exactly when some system row with its foreign key
      is owned by `u`; in particular, one whose system belongs to someone else never is. */
  lemma VisibleMeasurementsJoin(systems: seq<System>, measurements: seq<Measurement>, u: UserId)
    requires Ordered(systems, SystemBefore)
    ensures forall m :: m in VisibleMeasurements(systems, measurements, u) <==>
      m in measurements && exists s :: s in systems && s.id == m.system && s.owner == u
    ensures forall m, s :: m in measurements && s in systems && s.id == m.system && s.owner != u ==>
      m !in VisibleMeasurements(systems, measurements, u)
  {
    forall m, s | m in measurements && s in systems && s.id == m.system
      ensures m in VisibleMeasurements(systems, measurements, u) <==> s.owner == u
    {
      OwnerOfUnique(systems, s);
    }
  }

  /** Two different users never see the same system or the same measurement. */
  lemma VisibleSetsAreDisjoint(systems: seq<System>, measurements: seq<Measurement>, u: UserId, v: UserId)
    requires u != v
    ensures forall s :: s in VisibleSystems(systems, u) ==> s !in VisibleSystems(systems, v)
    ensures forall m :: m in VisibleMeasurements(systems, measurements, u) ==>
      m !in VisibleMeasurements(systems, measurements, v)
  {
  }

  /** `get_object` of the system viewset: the system with primary key `id`, looked up
      in the filtered queryset, so among the user's own systems that also pass the
      request's filter parameters. */
  function VisibleSystem(systems: seq<System>, u: UserId, f: SystemFilterParams, id: nat): (r: Option<System>)
    ensures r.Some? ==> r.value in systems && r.value.id == id && r.value.owner == u && SystemMatches(r.value, f)
    ensures r.None? <==> forall s :: s in systems && s.id == id && s.owner == u ==> !SystemMatches(s, f)
  {
    FindSystem(Select(VisibleSystems(systems, u), SystemMatchesParams(f)), id)
  }

  /** `get_object` of the measurement viewset, looked up among the user's measurements
      that pass the request's filter parameters. */
  function VisibleMeasurement(systems: seq<System>, measurements: seq<Measurement>, u: UserId,
                              params: map<string, real>, id: nat)
    : (r: Option<Measurement>)
    ensures r.Some? ==> r.value in measurements && r.value.id == id && OwnerOf(systems, r.value.system) == Some(u)
    ensures r.Some? ==> Matches(r.value, params)
    ensures r.None? <==> forall m :: m in measurements && m.id == id && OwnerOf(systems, m.system) == Some(u) ==>
      !Matches(m, params)
  {
    FindMeasurement(FilterMeasurements(VisibleMeasurements(systems, measurements, u), params), id)
  }

  /** In a consistent store the object found is the row with that key: the lookup
      misses exactly when the row is missing, belongs to another user or fails the
      filter parameters. */
  lemma VisibleObjectIsTheRow(systems: seq<System>, measurements: seq<Measurement>, u: UserId,
                              f: SystemFilterParams, params: map<string, real>, id: nat)
    requires TablesConsistent(systems, measurements)
    ensures VisibleSystem(systems, u, f, id).Some? <==>
      OwnerOf(systems, id) == Some(u) && SystemMatches(FindSystem(systems, id).value, f)
    ensures VisibleSystem(systems, u, f, id).Some? ==> VisibleSystem(systems, u, f, id) == FindSystem(systems, id)
    ensures VisibleMeasurement(systems, measurements, u, params, id).Some? <==>
      && FindMeasurement(measurements, id).Some?
      && OwnerOf(systems, FindMeasurement(measurements, id).value.system) == Some(u)
      && Matches(FindMeasurement(measurements, id).value, params)
    ensures VisibleMeasurement(systems, measurements, u, params, id).Some? ==>
      VisibleMeasurement(systems, measurements, u, params, id) == FindMeasurement(measurements, id)
  {
    var s := VisibleSystem(systems, u, f, id);
    if s.Some? {
      FindSystemUnique(systems, s.value);
    }
    if OwnerOf(systems, id).Some? {
      FindSystemUnique(systems, FindSystem(systems, id).value);
    }
    var m := VisibleMeasurement(systems, measurements, u, params, id);
    if m.Some? {
      FindMeasurementUnique(measurements, m.value);
    }
  }

  // The system filter: exact matches on `filterset_fields`.

  datatype SystemFilterParams = SystemFilterParams(name: Option<string>, createdAt: Option<nat>)

  predicate SystemMatches(s: System, f: SystemFilterParams) {
    && (f.name.Some? ==> s.name == f.name.value)
    && (f.createdAt.Some? ==> s.createdAt == f.createdAt.value)
  }

  /** `filterset_fields` filters by exact match: no parameter keeps every system, each
      given parameter keeps the systems equal to it in that field, and two parameters
      are combined by AND. */
  lemma SystemFilterIsExact(s: System, f: SystemFilterParams)
    ensures SystemMatches(s, SystemFilterParams(None, None))
    ensures forall n :: SystemMatches(s, SystemFilterParams(Some(n), None)) <==> s.name == n
    ensures forall t :: SystemMatches(s, SystemFilterParams(None, Some(t))) <==> s.createdAt == t
    ensures SystemMatches(s, f) <==>
      SystemMatches(s, SystemFilterParams(f.name, None)) && SystemMatches(s, SystemFilterParams(None, f.createdAt))
  {
  }

  function SystemMatchesParams(f: SystemFilterParams): System -> bool {
    (s: System) => SystemMatches(s, f)
  }

  // MeasurementFilter

  /** The parameter names of the eight bounds the filter set declares. */
  const DeclaredFilters: set<string> := {
    "created_at_after", "created_at_before", "ph_min", "ph_max",
    "tds_min", "tds_max", "temperature_min", "temperature_max"}

  /** The parameter names generated from the `fields` option. */
  const GeneratedFilters: set<string> := {
    "system", "ph", "ph__lt", "ph__gt", "tds", "tds__lt", "tds__gt",
    "water_temperature", "water_temperature__lt", "water_temperature__gt"}

  datatype Lookup = Exact | LessThan | GreaterThan | AtLeast | AtMost

  /** The filters of the measurement filter set, by query parameter name: the eight
      declared bounds, and the lookups generated from its `fields` option (the exact
      lookup under the bare field name, the others under `field__lookup`). Any other
      name is not a filter. */
  function MeasurementFilter(name: string): Option<(MeasurementColumn, Lookup)> {
    match name
    case "created_at_after" => Some((CreatedAtColumn, AtLeast))
    case "created_at_before" => Some((CreatedAtColumn, AtMost))
    case "ph_min" => Some((PhColumn, AtLeast))
    case "ph_max" => Some((PhColumn, AtMost))
    case "tds_min" => Some((TdsColumn, AtLeast))
    case "tds_max" => Some((TdsColumn, AtMost))
    case "temperature_min" => Some((WaterTemperatureColumn, AtLeast))
    case "temperature_max" => Some((WaterTemperatureColumn, AtMost))
    case "system" => Some((SystemColumn, Exact))
    case "ph" => Some((PhColumn, Exact))
    case "ph__lt" => Some((PhColumn, LessThan))
    case "ph__gt" => Some((PhColumn, GreaterThan))
    case "tds" => Some((TdsColumn, Exact))
    case "tds__lt" => Some((TdsColumn, LessThan))
    case "tds__gt" => Some((TdsColumn, GreaterThan))
    case "water_temperature" => Some((WaterTemperatureColumn, Exact))
    case "water_temperature__lt" => Some((WaterTemperatureColumn, LessThan))
    case "water_temperature__gt" => Some((WaterTemperatureColumn, GreaterThan))
    case _ => None
  }

  predicate LookupHolds(x: real, lookup: Lookup, bound: real) {
    match lookup
    case Exact => x == bound
    case LessThan => x < bound
    case GreaterThan => x > bound
    case AtLeast => x >= bound
    case AtMost => x <= bound
  }

  /** The clause one query parameter adds: none for a name that is not a filter. */
  predicate ClauseHolds(m: Measurement, p: map<string, real>, name: string) {
    name in p ==>
      match MeasurementFilter(name)
      case None => true
      case Some(filter) => LookupHolds(ColumnValue(m, filter.0), filter.1, p[name])
  }

  /** The clauses of all present parameters, combined by AND. */
  predicate Matches(m: Measurement, params: map<string, real>) {
    forall name :: name in params ==> ClauseHolds(m, params, name)
  }

  function MatchesParams(params: map<string, real>): Measurement -> bool {
    (m: Measurement) => Matches(m, params)
  }

  function FilterMeasurements(measurements: seq<Measurement>, params: map<string, real>): (r: seq<Measurement>)
    ensures forall m :: m in r <==> m in measurements && Matches(m, params)
  {
    Select(measurements, MatchesParams(params))
  }

  /** The filter written out clause by clause, independently of the table: "min" and
      "after" bounds are inclusive lower bounds, "max" and "before" inclusive upper
      bounds, `lt` and `gt` strict, the bare field names equality. */
  predicate MatchesWrittenOut(m: Measurement, p: map<string, real>) {
    && ("created_at_after" in p ==> m.createdAt as real >= p["created_at_after"])
    && ("created_at_before" in p ==> m.createdAt as real <= p["created_at_before"])
    && ("ph_min" in p ==> m.ph >= p["ph_min"])
    && ("ph_max" in p ==> m.ph <= p["ph_max"])
    && ("tds_min" in p ==> m.tds as real >= p["tds_min"])
    && ("tds_max" in p ==> m.tds as real <= p["tds_max"])
    && ("temperature_min" in p ==> m.waterTemperature >= p["temperature_min"])
    && ("temperature_max" in p ==> m.waterTemperature <= p["temperature_max"])
    && ("system" in p ==> m.system as real == p["system"])
    && ("ph" in p ==> m.ph == p["ph"])
    && ("ph__lt" in p ==> m.ph < p["ph__lt"])
    && ("ph__gt" in p ==> m.ph > p["ph__gt"])
    && ("tds" in p ==> m.tds as real == p["tds"])
    && ("tds__lt" in p ==> m.tds as real < p["tds__lt"])
    && ("tds__gt" in p ==> m.tds as real > p["tds__gt"])
    && ("water_temperature" in p ==> m.waterTemperature == p["water_temperature"])
    && ("water_temperature__lt" in p ==> m.waterTemperature < p["water_temperature__lt"])
    && ("water_temperature__gt" in p ==> m.waterTemperature > p["water_temperature__gt"])
  }

  lemma MeasurementFilterEntries()
    ensures MeasurementFilter("created_at_after") == Some((CreatedAtColumn, AtLeast))
    ensures MeasurementFilter("created_at_before") == Some((CreatedAtColumn, AtMost))
    ensures MeasurementFilter("ph_min") == Some((PhColumn, AtLeast))
    ensures MeasurementFilter("ph_max") == Some((PhColumn, AtMost))
    ensures MeasurementFilter("tds_min") == Some((TdsColumn, AtLeast))
    ensures MeasurementFilter("tds_max") == Some((TdsColumn, AtMost))
    ensures MeasurementFilter("temperature_min") == Some((WaterTemperatureColumn, AtLeast))
    ensures MeasurementFilter("temperature_max") == Some((WaterTemperatureColumn, AtMost))
    ensures MeasurementFilter("system") == Some((SystemColumn, Exact))
    ensures MeasurementFilter("ph") == Some((PhColumn, Exact))
    ensures MeasurementFilter("ph__lt") == Some((PhColumn, LessThan))
    ensures MeasurementFilter("ph__gt") == Some((PhColumn, GreaterThan))
    ensures MeasurementFilter("tds") == Some((TdsColumn, Exact))
    ensures MeasurementFilter("tds__lt") == Some((TdsColumn, LessThan))
    ensures MeasurementFilter("tds__gt") == Some((TdsColumn, GreaterThan))
    ensures MeasurementFilter("water_temperature") == Some((WaterTemperatureColumn, Exact))
    ensures MeasurementFilter("water_temperature__lt") == Some((WaterTemperatureColumn, LessThan))
    ensures MeasurementFilter("water_temperature__gt") == Some((WaterTemperatureColumn, GreaterThan))
  {
  }

  /** The names the filter set recognises are exactly its eight declared bounds and the
      ten generated lookups, and the declared ones are exactly the inclusive bounds. */
  lemma MeasurementFilterNames(name: string)
    ensures MeasurementFilter(name).Some? <==> name in DeclaredFilters + GeneratedFilters
    ensures MeasurementFilter(name).Some? && MeasurementFilter(name).value.1 in {AtLeast, AtMost} <==>
      name in DeclaredFilters
  {
  }

  /** The table-driven filter and the clause-by-clause one accept the same measurements. */
  lemma MatchesClauses(m: Measurement, p: map<string, real>)
    ensures Matches(m, p) <==> MatchesWrittenOut(m, p)
  {
    if Matches(m, p) {
      MatchesImpliesClauses(m, p);
    }
    if MatchesWrittenOut(m, p) {
      ClausesImplyMatches(m, p);
    }
  }

  lemma MatchesImpliesClauses(m: Measurement, p: map<string, real>)
    requires Matches(m, p)
    ensures MatchesWrittenOut(m, p)
  {
    MeasurementFilterEntries();
    assert "created_at_after" in p ==> ClauseHolds(m, p, "created_at_after");
    assert "created_at_before" in p ==> ClauseHolds(m, p, "created_at_before");
    assert "ph_min" in p ==> ClauseHolds(m, p, "ph_min");
    assert "ph_max" in p ==> ClauseHolds(m, p, "ph_max");
    assert "tds_min" in p ==> ClauseHolds(m, p, "tds_min");
    assert "tds_max" in p ==> ClauseHolds(m, p, "tds_max");
    assert "temperature_min" in p ==> ClauseHolds(m, p, "temperature_min");
    assert "temperature_max" in p ==> ClauseHolds(m, p, "temperature_max");
    assert "system" in p ==> ClauseHolds(m, p, "system");
    assert "ph" in p ==> ClauseHolds(m, p, "ph");
    assert "ph__lt" in p ==> ClauseHolds(m, p, "ph__lt");
    assert "ph__gt" in p ==> ClauseHolds(m, p, "ph__gt");
    assert "tds" in p ==> ClauseHolds(m, p, "tds");
    assert "tds__lt" in p ==> ClauseHolds(m, p, "tds__lt");
    assert "tds__gt" in p ==> ClauseHolds(m, p, "tds__gt");
    assert "water_temperature" in p ==> ClauseHolds(m, p, "water_temperature");
    assert "water_temperature__lt" in p ==> ClauseHolds(m, p, "water_temperature__lt");
    assert "water_temperature__gt" in p ==> ClauseHolds(m, p, "water_temperature__gt");
  }

  lemma ClausesImplyMatches(m: Measurement, p: map<string, real>)
    requires MatchesWrittenOut(m, p)
    ensures Matches(m, p)
  {
    forall name | name in p ensures ClauseHolds(m, p, name) {
    }
  }

  /** With no parameter that names a filter, the filter returns its input unchanged. */
  lemma FilterWithoutClausesIsIdentity(measurements: seq<Measurement>, params: map<string, real>)
    requires forall name :: name in params ==> MeasurementFilter(name).None?
    ensures FilterMeasurements(measurements, params) == measurements
  {
    SelectAll(measurements, MatchesParams(params));
  }

  /** Parameters combine by AND: filtering by two disjoint groups of parameters at once is
      filtering by one group and then by the other. */
  lemma FilterConjunction(measurements: seq<Measurement>, p: map<string, real>, q: map<string, real>)
    requires p.Keys !! q.Keys
    ensures FilterMeasurements(measurements, p + q)
         == FilterMeasurements(FilterMeasurements(measurements, p), q)
  {
    forall m ensures MatchesParams(p + q)(m) == (MatchesParams(p)(m) && MatchesParams(q)(m)) {
      forall name | name in p ensures ClauseHolds(m, p + q, name) == ClauseHolds(m, p, name) {
        assert (p + q)[name] == p[name];
      }
      forall name | name in q ensures ClauseHolds(m, p + q, name) == ClauseHolds(m, q, name) {
        assert (p + q)[name] == q[name];
      }
    }
    SelectSelect(measurements, MatchesParams(p), MatchesParams(q), MatchesParams(p + q));
  }

  // Ordering

  /** One term of the `ordering` query parameter: a field name, `-` in front for descending. */
  function ParseOrderingTerm(term: string): (string, Direction) {
    if |term| > 0 && term[0] == '-' then (term[1..], Descending) else (term, Ascending)
  }

  /** `ordering_fields` of the measurement viewset: the four measured or timestamped
      columns, and not the foreign key `system`. */
  function MeasurementOrderingColumn(field: string): (r: Option<MeasurementColumn>)
    ensures r.Some? <==> field in {"created_at", "ph", "tds", "water_temperature"}
    ensures r != Some(SystemColumn)
  {
    if field == "created_at" then Some(CreatedAtColumn)
    else if field == "ph" then Some(PhColumn)
    else if field == "tds" then Some(TdsColumn)
    else if field == "water_temperature" then Some(WaterTemperatureColumn)
    else None
  }

  /** `ordering_fields` of the system viewset: only `description` and `owner` are not
      among them. */
  function SystemOrderingColumn(field: string): (r: Option<SystemOrderColumn>)
    ensures r.Some? <==> field in {"name", "created_at", "updated_at"}
  {
    if field == "name" then Some(NameColumn)
    else if field == "created_at" then Some(SystemCreatedAtColumn)
    else if field == "updated_at" then Some(UpdatedAtColumn)
    else None
  }

  /** The ordering a measurement listing uses: the requested term when it names an allowed
      field, and otherwise the viewset's default, `-created_at`. */
  function MeasurementListOrder(ordering: Option<string>): (r: (MeasurementColumn, Direction))
    ensures ordering.None? ==> r == (CreatedAtColumn, Descending)
    ensures ordering.Some? && MeasurementOrderingColumn(ParseOrderingTerm(ordering.value).0).None? ==>
      r == (CreatedAtColumn, Descending)
  {
    if ordering.Some? then
      var (field, direction) := ParseOrderingTerm(ordering.value);
      match MeasurementOrderingColumn(field)
      case Some(c) => (c, direction)
      case None => (CreatedAtColumn, Descending)
    else (CreatedAtColumn, Descending)
  }

  /** The same for system listings, whose default is also `-created_at`. */
  function SystemListOrder(ordering: Option<string>): (r: (SystemOrderColumn, Direction))
    ensures ordering.None? ==> r == (SystemCreatedAtColumn, Descending)
    ensures ordering.Some? && SystemOrderingColumn(ParseOrderingTerm(ordering.value).0).None? ==>
      r == (SystemCreatedAtColumn, Descending)
  {
    if ordering.Some? then
      var (field, direction) := ParseOrderingTerm(ordering.value);
      match SystemOrderingColumn(field)
      case Some(c) => (c, direction)
      case None => (SystemCreatedAtColumn, Descending)
    else (SystemCreatedAtColumn, Descending)
  }

  /** An allowed field is honoured: its bare name orders ascending by that column, and
      the name with `-` in front descending. */
  lemma MeasurementOrderingHonoured(field: string)
    requires MeasurementOrderingColumn(field).Some?
    ensures MeasurementListOrder(Some(field)) == (MeasurementOrderingColumn(field).value, Ascending)
    ensures MeasurementListOrder(Some("-" + field)) == (MeasurementOrderingColumn(field).value, Descending)
  {
    assert ("-" + field)[1..] == field;
  }

  /** The same for the system viewset's allowed fields. */
  lemma SystemOrderingHonoured(field: string)
    requires SystemOrderingColumn(field).Some?
    ensures SystemListOrder(Some(field)) == (SystemOrderingColumn(field).value, Ascending)
    ensures SystemListOrder(Some("-" + field)) == (SystemOrderingColumn(field).value, Descending)
  {
    assert ("-" + field)[1..] == field;
  }

  /** The measurement listing before pagination: the visible measurements that pass the
      filter, in the effective order. */
  function MeasurementListing(systems: seq<System>, measurements: seq<Measurement>, u: UserId,
                              params: map<string, real>, ordering: Option<string>): (r: seq<Measurement>)
    ensures multiset(r) == multiset(FilterMeasurements(VisibleMeasurements(systems, measurements, u), params))
    ensures Ordered(r, MeasurementOrder(MeasurementListOrder(ordering).0, MeasurementListOrder(ordering).1))
  {
    var (c, d) := MeasurementListOrder(ordering);
    MeasurementOrderIsTotalPreorder(c, d);
    SortBy(FilterMeasurements(VisibleMeasurements(systems, measurements, u), params), MeasurementOrder(c, d))
  }

  /** The listing holds exactly the caller's measurements that match the filter, and by
      default the newest comes first. */
  lemma MeasurementListingContents(systems: seq<System>, measurements: seq<Measurement>, u: UserId,
                                   params: map<string, real>, ordering: Option<string>)
    ensures forall m :: m in MeasurementListing(systems, measurements, u, params, ordering) <==>
      m in measurements && OwnerOf(systems, m.system) == Some(u) && Matches(m, params)
    ensures |MeasurementListing(systems, measurements, u, params, ordering)|
         == |FilterMeasurements(VisibleMeasurements(systems, measurements, u), params)|
    ensures ordering.None? ==>
      var r := MeasurementListing(systems, measurements, u, params, ordering);
      forall i, j :: 0 <= i < j < |r| ==> r[i].createdAt >= r[j].createdAt
  {
    var (c, d) := MeasurementListOrder(ordering);
    MeasurementOrderIsTotalPreorder(c, d);
    var selected := FilterMeasurements(VisibleMeasurements(systems, measurements, u), params);
    SortByMembers(selected, MeasurementOrder(c, d));
    var r := MeasurementListing(systems, measurements, u, params, ordering);
    if ordering.None? {
      forall i, j | 0 <= i < j < |r| ensures r[i].createdAt >= r[j].createdAt {
        assert MeasurementOrder(CreatedAtColumn, Descending)(r[i], r[j]);
      }
    }
  }

  /** The system listing before pagination: the user's systems that pass the filter, in
      the effective order. */
  function SystemListing(systems: seq<System>, u: UserId, f: SystemFilterParams, ordering: Option<string>)
    : (r: seq<System>)
    ensures multiset(r) == multiset(Select(VisibleSystems(systems, u), SystemMatchesParams(f)))
    ensures Ordered(r, SystemOrder(SystemListOrder(ordering).0, SystemListOrder(ordering).1))
  {
    var (c, d) := SystemListOrder(ordering);
    SystemOrderIsTotalPreorder(c, d);
    SortBy(Select(VisibleSystems(systems, u), SystemMatchesParams(f)), SystemOrder(c, d))
  }

  /** The listing holds exactly the caller's systems that match, by default newest first. */
  lemma SystemListingContents(systems: seq<System>, u: UserId, f: SystemFilterParams, ordering: Option<string>)
    ensures forall s :: s in SystemListing(systems, u, f, ordering) <==>
      s in systems && s.owner == u && SystemMatches(s, f)
    ensures ordering.None? ==>
      var r := SystemListing(systems, u, f, ordering);
      forall i, j :: 0 <= i < j < |r| ==> r[i].createdAt >= r[j].createdAt
  {
    var (c, d) := SystemListOrder(ordering);
    SystemOrderIsTotalPreorder(c, d);
    SortByMembers(Select(VisibleSystems(systems, u), SystemMatchesParams(f)), SystemOrder(c, d));
    var r := SystemListing(systems, u, f, ordering);
    if ordering.None? {
      forall i, j | 0 <= i < j < |r| ensures r[i].createdAt >= r[j].createdAt {
        assert SystemOrder(SystemCreatedAtColumn, Descending)(r[i], r[j]);
      }
    }
  }

  // Serializer choice of the measurement viewset

  datatype Action = ListAction | RetrieveAction | CreateAction | UpdateAction | PartialUpdateAction | DestroyAction

  datatype MeasurementSerializerClass = MeasurementSerializer | MeasurementCreateSerializer

  /** `get_serializer_class`: the write serializer for create and both kinds of update,
      the read serializer for list, retrieve and destroy. */
  function SerializerFor(action: Action): (r: MeasurementSerializerClass)
    ensures r == MeasurementCreateSerializer <==> action in {CreateAction, UpdateAction, PartialUpdateAction}
    ensures r == MeasurementSerializer <==> action in {ListAction, RetrieveAction, DestroyAction}
  {
    match action
    case CreateAction | UpdateAction | PartialUpdateAction => MeasurementCreateSerializer
    case ListAction | RetrieveAction | DestroyAction => MeasurementSerializer
  }

  function Serialize(c: MeasurementSerializerClass, m: Measurement): Representation {
    match c
    case MeasurementSerializer => MeasurementRepresentation(m)
    case MeasurementCreateSerializer => MeasurementCreateRepresentation(m)
  }

  /** Responses to writes carry the write fields (with `system`, without `id` and
      `created_at`); every other response carries the read fields. */
  lemma ResponseFields(action: Action, m: Measurement)
    ensures Serialize(SerializerFor(action), m).Keys ==
      if action in {CreateAction, UpdateAction, PartialUpdateAction} then MeasurementCreateFields
      else MeasurementFields
    ensures "id" in Serialize(SerializerFor(action), m) <==>
      action !in {CreateAction, UpdateAction, PartialUpdateAction}
  {
  }

  // Isolation between users

  /** What every user other than `u` can see is the same before and after. */
  ghost predicate OthersUnchanged(systems: seq<System>, measurements: seq<Measurement>,
                                  systems': seq<System>, measurements': seq<Measurement>, u: UserId)
  {
    forall v :: v != u ==>
      && VisibleSystems(systems', v) == VisibleSystems(systems, v)
      && VisibleMeasurements(systems', measurements', v) == VisibleMeasurements(systems, measurements, v)
  }

  /** Measurements whose systems keep their owners are visible to the same users. */
  lemma {:induction false} SameOwnersSameVisibleMeasurements(systems: seq<System>, systems': seq<System>,
                                                             measurements: seq<Measurement>, v: UserId)
    requires forall m :: m in measurements ==> OwnerOf(systems', m.system) == OwnerOf(systems, m.system)
    ensures VisibleMeasurements(systems', measurements, v) == VisibleMeasurements(systems, measurements, v)
  {
    SelectCongruent(measurements, OwnedThroughSystem(systems', v), OwnedThroughSystem(systems, v));
  }

  /** Adding a system owned by `u` changes nothing that another user sees. */
  lemma AppendSystemIsolated(systems: seq<System>, measurements: seq<Measurement>, s: System)
    requires TablesConsistent(systems, measurements)
    ensures OthersUnchanged(systems, measurements, systems + [s], measurements, s.owner)
  {
    forall v | v != s.owner
      ensures VisibleSystems(systems + [s], v) == VisibleSystems(systems, v)
      ensures VisibleMeasurements(systems + [s], measurements, v) == VisibleMeasurements(systems, measurements, v)
    {
      SelectAppend(systems, s, OwnedBy(v));
      forall m | m in measurements ensures OwnerOf(systems + [s], m.system) == OwnerOf(systems, m.system) {
        OwnerOfAppend(systems, s, m.system);
      }
      SameOwnersSameVisibleMeasurements(systems, systems + [s], measurements, v);
    }
  }

  /** Rewriting a row of `u`'s system, keeping its key and owner, changes nothing
      that another user sees. */
  lemma UpdateSystemIsolated(systems: seq<System>, measurements: seq<Measurement>, i: nat, s: System)
    requires i < |systems| && s.id == systems[i].id && s.owner == systems[i].owner
    ensures OthersUnchanged(systems, measurements, systems[i := s], measurements, s.owner)
  {
    forall v | v != s.owner
      ensures VisibleSystems(systems[i := s], v) == VisibleSystems(systems, v)
      ensures VisibleMeasurements(systems[i := s], measurements, v) == VisibleMeasurements(systems, measurements, v)
    {
      SelectUpdateRejected(systems, i, s, OwnedBy(v));
      forall m | m in measurements ensures OwnerOf(systems[i := s], m.system) == OwnerOf(systems, m.system) {
        OwnerOfUpdate(systems, i, s, m.system);
      }
      SameOwnersSameVisibleMeasurements(systems, systems[i := s], measurements, v);
    }
  }

  /** Deleting `u`'s system, with the cascade, changes nothing that another user sees. */
  lemma RemoveSystemIsolated(systems: seq<System>, measurements: seq<Measurement>, id: nat, u: UserId)
    requires TablesConsistent(systems, measurements) && OwnerOf(systems, id) == Some(u)
    ensures OthersUnchanged(systems, measurements, RemoveSystem(systems, id),
                            Cascade(measurements, RemoveSystem(systems, id)), u)
  {
    var remaining := RemoveSystem(systems, id);
    var kept := Cascade(measurements, remaining);
    forall v | v != u
      ensures VisibleSystems(remaining, v) == VisibleSystems(systems, v)
      ensures VisibleMeasurements(remaining, kept, v) == VisibleMeasurements(systems, measurements, v)
    {
      // A system another user owns cannot carry the deleted key.
      forall s | s in systems && s.owner == v ensures s.id != id && s in remaining {
        OwnerOfUnique(systems, s);
      }
      SelectRedundant(systems, IdIsNot(id), OwnedBy(v));
      forall m | m in kept ensures OwnerOf(remaining, m.system) == OwnerOf(systems, m.system) {
        OwnerOfSelect(systems, IdIsNot(id), m.system);
      }
      SelectCongruent(kept, OwnedThroughSystem(remaining, v), OwnedThroughSystem(systems, v));
      forall m | m in measurements && OwnedThroughSystem(systems, v)(m)
        ensures ReferencesOneOf(SystemIds(remaining))(m)
      {
        var s :| s in systems && s.id == m.system && s.owner == v;
      }
      SelectRedundant(measurements, ReferencesOneOf(SystemIds(remaining)), OwnedThroughSystem(systems, v));
    }
  }

  /** Adding a measurement to `u`'s system changes nothing that another user sees. */
  lemma AppendMeasurementIsolated(systems: seq<System>, measurements: seq<Measurement>, m: Measurement, u: UserId)
    requires OwnerOf(systems, m.system) == Some(u)
    ensures OthersUnchanged(systems, measurements, systems, measurements + [m], u)
  {
    forall v | v != u
      ensures VisibleMeasurements(systems, measurements + [m], v) == VisibleMeasurements(systems, measurements, v)
    {
      SelectAppend(measurements, m, OwnedThroughSystem(systems, v));
    }
  }

  /** Rewriting a measurement of `u`'s into another one of `u`'s changes nothing that
      another user sees. */
  lemma UpdateMeasurementIsolated(systems: seq<System>, measurements: seq<Measurement>, i: nat,
                                  m: Measurement, u: UserId)
    requires i < |measurements|
    requires OwnerOf(systems, measurements[i].system) == Some(u) && OwnerOf(systems, m.system) == Some(u)
    ensures OthersUnchanged(systems, measurements, systems, measurements[i := m], u)
  {
    forall v | v != u
      ensures VisibleMeasurements(systems, measurements[i := m], v) == VisibleMeasurements(systems, measurements, v)
    {
      SelectUpdateRejected(measurements, i, m, OwnedThroughSystem(systems, v));
    }
  }

  /** Deleting a measurement of `u`'s changes nothing that another user sees. */
  lemma RemoveMeasurementIsolated(systems: seq<System>, measurements: seq<Measurement>, x: Measurement, u: UserId)
    requires Ordered(measurements, MeasurementBefore)
    requires x in measurements && OwnerOf(systems, x.system) == Some(u)
    ensures OthersUnchanged(systems, measurements, systems, Select(measurements, MeasurementIdIsNot(x.id)), u)
  {
    forall v | v != u
      ensures VisibleMeasurements(systems, Select(measurements, MeasurementIdIsNot(x.id)), v)
           == VisibleMeasurements(systems, measurements, v)
    {
      // Primary keys are distinct, so only `x` carries the deleted key.
      forall m | m in measurements && OwnedThroughSystem(systems, v)(m) ensures m.id != x.id {
        var i :| 0 <= i < |measurements| && measurements[i] == m;
        var j :| 0 <= j < |measurements| && measurements[j] == x;
        assert i != j;
        assert MeasurementBefore(measurements[i], measurements[j]) || MeasurementBefore(measurements[j], measurements[i]);
      }
      SelectRedundant(measurements, MeasurementIdIsNot(x.id), OwnedThroughSystem(systems, v));
    }
  }
}
