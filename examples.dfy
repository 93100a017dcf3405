/** Concrete request sequences against a fresh store, mirroring the behaviour the
    repository's test suites exercise. Each method builds its own store, so it changes
    nothing outside itself, and its postcondition states the observable outcome. */
module Scenarios {
  import opened Common
  import opened Sequences
  import opened Models
  import opened Serializers
  import opened Views
  import opened ViewSets

  const Owner: UserId := 1
  const Stranger: UserId := 2
  /** A request without query parameters. */
  const NoSystemFilter: SystemFilterParams := SystemFilterParams(None, None)
  const NoParams: map<string, real> := map[]

  /** The write payload of a measurement: the four write fields. */
  function Payload(system: nat, ph: real, tds: int, temperature: real): Representation {
    MeasurementCreateRepresentation(Measurement(0, system, ph, tds, temperature, 0))
  }

  /** Full validation rejects a measurement with pH 15 and stores nothing. */
  method PhFifteenIsRejected() returns (r: Result<Measurement>, stored: nat)
    ensures r == Failure(ValidationError({"ph"}))
    ensures stored == 0
  {
    var store := new Store();
    var system := store.CreateSystem(Owner, "Test System", "");
    assert system.Success?;
    r := store.CreateMeasurement(system.value.id, 15.0, 500, 25.0);
    assert store.MeasurementErrors(system.value.id, 15.0, 500) == {"ph"};
    stored := |store.measurements|;
  }

  /** With a single query parameter, matching is that parameter's clause. */
  lemma OneParameterMatches(m: Measurement, name: string, v: real)
    ensures Matches(m, map[name := v]) <==> ClauseHolds(m, map[name := v], name)
  {
  }

  /** A one-element listing: a sequence with the multiset of `[x]` is `[x]`. */
  lemma SingletonByMultiset<T>(s: seq<T>, x: T)
    requires multiset(s) == multiset{x}
    ensures s == [x]
  {
    assert |s| == |multiset(s)| == 1;
    assert s[0] in multiset(s);
  }

  /** Of two visible measurements, `ph_min=7.0` keeps the one with pH at least 7.0. */
  lemma PhMinListing(systems: seq<System>, low: Measurement, high: Measurement, u: UserId)
    requires OwnerOf(systems, low.system) == Some(u) && OwnerOf(systems, high.system) == Some(u)
    requires low.ph < 7.0 <= high.ph
    ensures MeasurementListing(systems, [low, high], u, map["ph_min" := 7.0], None) == [high]
  {
    var params := map["ph_min" := 7.0];
    SelectAll([low, high], OwnedThroughSystem(systems, u));
    OneParameterMatches(low, "ph_min", 7.0);
    OneParameterMatches(high, "ph_min", 7.0);
    assert [low, high][1..] == [high];
    assert FilterMeasurements([low, high], params) == [high];
    SingletonByMultiset(MeasurementListing(systems, [low, high], u, params, None), high);
  }

  /** Of two measurements with pH 6.5 and 7.5, `ph_min=7.0` lists only the second. */
  method PhMinFilter() returns (r: Result<seq<Representation>>)
    ensures r.Success? && |r.value| == 1 && "ph" in r.value[0] && r.value[0]["ph"] == Real(7.5)
  {
    var store := new Store();
    var system := store.CreateSystem(Owner, "Test System", "");
    assert system.Success?;
    OwnerOfUnique(store.systems, system.value);
    var low := store.CreateMeasurement(system.value.id, 6.5, 450, 24.0);
    assert low.Success?;
    var high := store.CreateMeasurement(system.value.id, 7.5, 550, 26.0);
    assert high.Success?;
    assert store.measurements == [low.value, high.value];
    PhMinListing(store.systems, low.value, high.value, Owner);
    r := ListMeasurements(store, Some(Owner), map["ph_min" := 7.0], None);
  }

  /** Create a system through its viewset, ignoring the `owner` the client sends, then a
      measurement on it through the measurement viewset; the store holds exactly them. */
  method CreateThroughViewSets() returns (store: Store, system: System, m: Measurement)
    ensures fresh(store) && store.Valid()
    ensures store.systems == [system] && store.measurements == [m]
    ensures system.owner == Owner && system.name == "Test System" && system.description == "Test Description"
    ensures m.system == system.id && m.ph == 7.0 && m.tds == 500 && m.waterTemperature == 25.0
  {
    store := new Store();
    var systemData := map["name" := Text("Test System"), "description" := Text("Test Description"),
                          "owner" := Int(Stranger)];
    var created := CreateSystem(store, Some(Owner), systemData);
    assert created.Success?;
    system := store.systems[0];
    assert store.systems == [system];
    OwnerOfUnique(store.systems, system);
    var template := Measurement(0, system.id, 7.0, 500, 25.0, 0);
    MeasurementCreateRepresentationRoundTrip(template, store.systems, Owner);
    var added := CreateMeasurement(store, Some(Owner), MeasurementCreateRepresentation(template));
    assert added.Success?;
    m := store.measurements[0];
    assert store.measurements == [m];
  }

  /** A partial update that sends only a pH of 7.5 is accepted. */
  lemma PhPatchIsAccepted(systems: seq<System>, u: UserId)
    requires Ordered(systems, SystemBefore)
    ensures ValidateMeasurementData(map["ph" := Real(7.5)], systems, u, true)
         == Success(MeasurementData(None, Some(7.5), None, None))
  {
    RejectedMeasurementFieldsByField(map["ph" := Real(7.5)], systems, u, true);
  }

  /** The one measurement of the caller's own system is the object the caller finds. */
  lemma OnlyMeasurementIsVisible(systems: seq<System>, m: Measurement, u: UserId)
    requires OwnerOf(systems, m.system) == Some(u)
    ensures VisibleMeasurement(systems, [m], u, NoParams, m.id) == Some(m)
  {
  }

  /** `PATCH {"ph": 7.5}` on the caller's only measurement. */
  method PatchPh(store: Store, m: Measurement) returns (after: Measurement)
    requires store.Valid() && store.measurements == [m] && OwnerOf(store.systems, m.system) == Some(Owner)
    modifies store
    ensures store.Valid() && store.measurements == [after]
    ensures OwnerOf(store.systems, after.system) == Some(Owner)
    ensures after.id == m.id && after.ph == 7.5
  {
    PhPatchIsAccepted(store.systems, Owner);
    OnlyMeasurementIsVisible(store.systems, m, Owner);
    var patched := UpdateMeasurement(store, Some(Owner), NoParams, m.id, map["ph" := Real(7.5)], true);
    assert patched.Success?;
    after := store.measurements[0];
    assert store.measurements == [after];
  }

  /** Fetching the caller's only measurement shows it by the read serializer. */
  lemma FetchOnlyMeasurement(store: Store, m: Measurement)
    requires store.measurements == [m] && OwnerOf(store.systems, m.system) == Some(Owner)
    ensures RetrieveMeasurement(store, Some(Owner), NoParams, m.id) == Success(MeasurementRepresentation(m))
  {
    OnlyMeasurementIsVisible(store.systems, m, Owner);
  }

  /** Patching the pH to 7.5 and fetching the measurement back shows 7.5. */
  method PatchThenFetch() returns (fetched: Result<Representation>)
    ensures fetched.Success? && "ph" in fetched.value && fetched.value["ph"] == Real(7.5)
  {
    var store, system, m := CreateThroughViewSets();
    OwnerOfUnique(store.systems, system);
    var after := PatchPh(store, m);
    FetchOnlyMeasurement(store, after);
    fetched := RetrieveMeasurement(store, Some(Owner), NoParams, after.id);
  }

  /** Deleting the only measurement leaves none. */
  method DeleteLeavesNone() returns (remaining: nat)
    ensures remaining == 0
  {
    var store, system, m := CreateThroughViewSets();
    OwnerOfUnique(store.systems, system);
    OnlyMeasurementIsVisible(store.systems, m, Owner);
    var deleted := DestroyMeasurement(store, Some(Owner), NoParams, m.id);
    assert deleted.Success?;
    assert [m][1..] == [];
    assert store.measurements == Select([m], MeasurementIdIsNot(m.id)) == [];
    remaining := |store.measurements|;
  }

  /** A store with one system of the owner and one measurement on it. */
  method OneMeasurementStore() returns (store: Store, system: System, m: Measurement)
    ensures fresh(store) && store.Valid()
    ensures store.systems == [system] && store.measurements == [m]
    ensures system.owner == Owner && m.system == system.id
  {
    store := new Store();
    var created := store.CreateSystem(Owner, "Test System", "");
    assert created.Success?;
    system := created.value;
    var added := store.CreateMeasurement(system.id, 7.0, 500, 25.0);
    assert added.Success?;
    m := added.value;
  }

  /** Another user cannot add a measurement to the owner's system: the error is on
      `system`, and the system still has its one measurement. */
  method StrangerCannotAdd() returns (created: Result<Representation>, count: nat)
    ensures created == Failure(ValidationError({"system"}))
    ensures count == 1
  {
    var store, system, m := OneMeasurementStore();
    OwnerOfUnique(store.systems, system);
    var data := Payload(system.id, 7.0, 500, 25.0);
    RejectedMeasurementFieldsByField(data, store.systems, Stranger, false);
    created := CreateMeasurement(store, Some(Stranger), data);
    assert store.measurements == [m];
    assert MeasurementsOf([m], system.id) == [m];
    count := |MeasurementsOf(store.measurements, system.id)|;
  }

  /** Another user does not find the owner's measurement, so cannot update it. */
  method StrangerCannotUpdate() returns (updated: Result<Representation>)
    ensures updated == Failure(NotFound)
  {
    var store, system, m := OneMeasurementStore();
    OwnerOfUnique(store.systems, system);
    var data := Payload(system.id, 7.0, 500, 25.0);
    updated := UpdateMeasurement(store, Some(Stranger), NoParams, m.id, data, false);
  }

  /** Adds `n` measurements to the system `s`. */
  method AddMeasurements(store: Store, s: System, n: nat)
    requires store.Valid() && store.systems == [s] && MeasurementsOf(store.measurements, s.id) == []
    modifies store
    ensures store.Valid() && store.systems == [s]
    ensures |MeasurementsOf(store.measurements, s.id)| == n
  {
    var k := 0;
    while k < n
      invariant 0 <= k <= n
      invariant store.Valid() && store.systems == [s]
      invariant |MeasurementsOf(store.measurements, s.id)| == k
    {
      ghost var before := store.measurements;
      var m := store.CreateMeasurement(s.id, 7.0, 500, 25.0);
      assert m.Success?;
      SelectAppend(before, m.value, OnSystem(s.id));
      k := k + 1;
    }
  }

  /** A system with fifteen measurements is shown with a count of 15 and a list of 10. */
  method FifteenMeasurementsShowTen() returns (view: Result<Representation>)
    ensures view.Success?
    ensures view.value.Keys == SystemFields
    ensures view.value["measurement_count"] == Int(15)
    ensures view.value["latest_measurements"].Items? && |view.value["latest_measurements"].items| == 10
  {
    var store := new Store();
    var system := store.CreateSystem(Owner, "Test System", "");
    assert system.Success?;
    var s := system.value;
    AddMeasurements(store, s, 15);
    assert VisibleSystem([s], Owner, NoSystemFilter, s.id) == Some(s);
    view := RetrieveSystem(store, Some(Owner), NoSystemFilter, s.id);
    SystemViewCountAndList(view.value, s, store.measurements);
  }

  /** A listing of two visible systems with no filter holds both. */
  lemma TwoSystemsListed(a: System, b: System, u: UserId)
    requires a.owner == u && b.owner == u
    ensures |SystemListing([a, b], u, NoSystemFilter, None)| == 2
  {
    var everything := NoSystemFilter;
    SelectAll([a, b], OwnedBy(u));
    SelectAll([a, b], SystemMatchesParams(everything));
    var listing := SystemListing([a, b], u, everything, None);
    assert |listing| == |multiset(listing)| == |multiset([a, b])| == 2;
  }

  /** A store with two systems of the owner. */
  method TwoSystemStore() returns (store: Store, a: System, b: System)
    ensures fresh(store) && store.systems == [a, b] && a.owner == Owner && b.owner == Owner
  {
    store := new Store();
    var first := store.CreateSystem(Owner, "Test System 1", "");
    assert first.Success?;
    var second := store.CreateSystem(Owner, "Test System 2", "");
    assert second.Success?;
    a, b := first.value, second.value;
  }

  /** Two systems of the user are both listed. */
  method ListTwoSystems() returns (r: Result<seq<Representation>>)
    ensures r.Success? && |r.value| == 2
  {
    var store, a, b := TwoSystemStore();
    TwoSystemsListed(a, b, Owner);
    r := ListSystems(store, Some(Owner), NoSystemFilter, None);
  }
}
