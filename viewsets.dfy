/** The requests the two viewsets of hydroponic_manager/views.py serve against the store.
    Every request first checks that the caller is authenticated (`None` is an anonymous
    caller), then looks the object up in the caller's queryset, then validates the input
    with the action's serializer, and only then writes. A request that fails at any step
    leaves the store as it was. */
module ViewSets {
  import opened Common
  import opened Sequences
  import opened Models
  import opened Serializers
  import opened Views

  // HydroponicSystemViewSet

  /** `list`: the caller's systems that match the filter, in the requested order, each
      shown by the system serializer. */
  method ListSystems(store: Store, user: Option<UserId>, filter: SystemFilterParams, ordering: Option<string>)
    returns (r: Result<seq<Representation>>)
    ensures if user.None? then r == Failure(Unauthenticated) else r.Success?
    ensures r.Success? ==>
      var listing := SystemListing(store.systems, user.value, filter, ordering);
      && |r.value| == |listing|
      && forall i :: 0 <= i < |listing| ==> IsSystemView(r.value[i], listing[i], store.measurements)
  {
    if user.None? {
      return Failure(Unauthenticated);
    }
    var listing := SystemListing(store.systems, user.value, filter, ordering);
    var shown: seq<Representation> := [];
    var i := 0;
    while i < |listing|
      invariant 0 <= i <= |listing|
      invariant |shown| == i
      invariant forall k :: 0 <= k < i ==> IsSystemView(shown[k], listing[k], store.measurements)
    {
      var rep := SystemRepresentation(listing[i], store.measurements);
      shown := shown + [rep];
      i := i + 1;
    }
    r := Success(shown);
  }

  /** `retrieve`, and the `details` action, which does the same: the caller's system with
      primary key `id`, shown with its count and its ten newest measurements. */
  method RetrieveSystem(store: Store, user: Option<UserId>, filter: SystemFilterParams, id: nat) returns (r: Result<Representation>)
    ensures user.None? <==> r == Failure(Unauthenticated)
    ensures user.Some? ==> (if VisibleSystem(store.systems, user.value, filter, id).None? then r == Failure(NotFound) else r.Success?)
    ensures r.Success? ==> IsSystemView(r.value, VisibleSystem(store.systems, user.value, filter, id).value, store.measurements)
  {
    if user.None? {
      return Failure(Unauthenticated);
    }
    var target := VisibleSystem(store.systems, user.value, filter, id);
    if target.None? {
      return Failure(NotFound);
    }
    var rep := SystemRepresentation(target.value, store.measurements);
    r := Success(rep);
  }

  /** `create` with `perform_create`: the validated name and description are saved with
      the caller as owner, whatever the input says about `owner`. */
  method CreateSystem(store: Store, user: Option<UserId>, data: Representation) returns (r: Result<Representation>)
    requires store.Valid()
    modifies store
    ensures store.Valid()
    ensures user.None? ==> r == Failure(Unauthenticated)
    ensures user.Some? ==> (r.Success? <==> ValidateSystemData(data, false).Success?)
    ensures user.Some? && r.Failure? ==> r.error == ValidateSystemData(data, false).error
    ensures r.Failure? ==> unchanged(store)
    ensures r.Success? ==>
      && |store.systems| == |old(store.systems)| + 1
      && var s := store.systems[|old(store.systems)|];
      && store.systems == old(store.systems) + [s]
      && store.measurements == old(store.measurements)
      && s.id !in SystemIds(old(store.systems))
      && s.owner == user.value
      && s.name == data["name"].s
      && s.description == (if "description" in data then data["description"].s else "")
      && s.createdAt == s.updatedAt
      && IsSystemView(r.value, s, store.measurements)
    ensures user.Some? ==>
      OthersUnchanged(old(store.systems), old(store.measurements), store.systems, store.measurements, user.value)
  {
    if user.None? {
      return Failure(Unauthenticated);
    }
    var validated := ValidateSystemData(data, false);
    if validated.Failure? {
      return Failure(validated.error);
    }
    var description := if validated.value.description.Some? then validated.value.description.value else "";
    ghost var systems, measurements := store.systems, store.measurements;
    var created := store.CreateSystem(user.value, validated.value.name.value, description);
    assert created.Success?;
    AppendSystemIsolated(systems, measurements, created.value);
    var rep := SystemRepresentation(created.value, store.measurements);
    r := Success(rep);
  }

  /** `update` (a full write) and `partial_update`: the caller's system takes the
      validated writable values; a partial write keeps what it leaves out. The owner and
      the creation time stay; the save refreshes the update time. */
  method UpdateSystem(store: Store, user: Option<UserId>, filter: SystemFilterParams, id: nat, data: Representation, partial: bool)
    returns (r: Result<Representation>)
    requires store.Valid()
    modifies store
    ensures store.Valid()
    ensures user.None? ==> r == Failure(Unauthenticated)
    ensures user.Some? && VisibleSystem(old(store.systems), user.value, filter, id).None? ==> r == Failure(NotFound)
    ensures user.Some? && VisibleSystem(old(store.systems), user.value, filter, id).Some? ==>
      && (r.Success? <==> ValidateSystemData(data, partial).Success?)
      && (r.Failure? ==> r.error == ValidateSystemData(data, partial).error)
    ensures r.Failure? ==> unchanged(store)
    ensures r.Success? ==>
      var before := VisibleSystem(old(store.systems), user.value, filter, id).value;
      var after := UpdateSystemFields(before, ValidateSystemData(data, partial).value).(updatedAt := old(store.clock));
      var i := IndexOf(old(store.systems), HasSystemId(id)).value;
      && old(store.systems)[i] == before
      && store.systems == old(store.systems)[i := after]
      && store.measurements == old(store.measurements)
      && after.updatedAt > before.updatedAt
      && IsSystemView(r.value, after, store.measurements)
    ensures user.Some? ==>
      OthersUnchanged(old(store.systems), old(store.measurements), store.systems, store.measurements, user.value)
  {
    if user.None? {
      return Failure(Unauthenticated);
    }
    var target := VisibleSystem(store.systems, user.value, filter, id);
    if target.None? {
      return Failure(NotFound);
    }
    var validated := ValidateSystemData(data, partial);
    if validated.Failure? {
      return Failure(validated.error);
    }
    var before := target.value;
    var fields := UpdateSystemFields(before, validated.value);
    UpdatedSystemTakesSuppliedValues(data, partial, before);
    ghost var systems, measurements := store.systems, store.measurements;
    FindSystemUnique(systems, before);
    var saved := store.SaveSystem(id, fields.name, fields.description);
    assert saved.Success?;
    ghost var i := IndexOf(systems, HasSystemId(id)).value;
    UpdateSystemIsolated(systems, measurements, i, saved.value);
    var rep := SystemRepresentation(saved.value, store.measurements);
    r := Success(rep);
  }

  /** `destroy`: the caller's system is deleted, and with it its measurements. */
  method DestroySystem(store: Store, user: Option<UserId>, filter: SystemFilterParams, id: nat) returns (r: Result<()>)
    requires store.Valid()
    modifies store
    ensures store.Valid()
    ensures user.None? ==> r == Failure(Unauthenticated)
    ensures user.Some? ==> (if VisibleSystem(old(store.systems), user.value, filter, id).None? then r == Failure(NotFound) else r.Success?)
    ensures r.Failure? ==> unchanged(store)
    ensures r.Success? ==>
      && (forall s :: s in store.systems <==> s in old(store.systems) && s.id != id)
      && (forall m :: m in store.measurements <==> m in old(store.measurements) && m.system != id)
    ensures user.Some? ==>
      OthersUnchanged(old(store.systems), old(store.measurements), store.systems, store.measurements, user.value)
  {
    if user.None? {
      return Failure(Unauthenticated);
    }
    var target := VisibleSystem(store.systems, user.value, filter, id);
    if target.None? {
      return Failure(NotFound);
    }
    OwnerOfUnique(store.systems, target.value);
    RemoveSystemIsolated(store.systems, store.measurements, id, user.value);
    store.DeleteSystem(id);
    r := Success(());
  }

  // MeasurementViewSet

  /** `list`: the caller's measurements that pass the filter, in the requested order,
      each shown by the read serializer. */
  function ListMeasurements(store: Store, user: Option<UserId>, params: map<string, real>, ordering: Option<string>)
    : (r: Result<seq<Representation>>)
    reads store
    ensures if user.None? then r == Failure(Unauthenticated) else r.Success?
    ensures r.Success? ==>
      var listing := MeasurementListing(store.systems, store.measurements, user.value, params, ordering);
      && |r.value| == |listing|
      && (forall i :: 0 <= i < |listing| ==> r.value[i] == Serialize(SerializerFor(ListAction), listing[i]))
      && (forall m :: m in listing <==>
            m in store.measurements && OwnerOf(store.systems, m.system) == Some(user.value) && Matches(m, params))
  {
    if user.None? then Failure(Unauthenticated)
    else
      MeasurementListingContents(store.systems, store.measurements, user.value, params, ordering);
      Success(Representations(MeasurementListing(store.systems, store.measurements, user.value, params, ordering)))
  }

  /** `retrieve`: the caller's measurement with primary key `id`, by the read serializer. */
  function RetrieveMeasurement(store: Store, user: Option<UserId>, params: map<string, real>, id: nat): (r: Result<Representation>)
    reads store
    ensures user.None? <==> r == Failure(Unauthenticated)
    ensures user.Some? ==>
      (if VisibleMeasurement(store.systems, store.measurements, user.value, params, id).None? then r == Failure(NotFound) else r.Success?)
    ensures r.Success? ==>
      var m := VisibleMeasurement(store.systems, store.measurements, user.value, params, id).value;
      && r.value == Serialize(SerializerFor(RetrieveAction), m)
      && r.value.Keys == MeasurementFields && r.value["id"] == Int(id)
  {
    if user.None? then Failure(Unauthenticated)
    else match VisibleMeasurement(store.systems, store.measurements, user.value, params, id)
      case None => Failure(NotFound)
      case Some(m) => Success(Serialize(SerializerFor(RetrieveAction), m))
  }

  /** `create`: a full write through the write serializer, which insists that the named
      system is the caller's; the response shows the write fields. */
  method CreateMeasurement(store: Store, user: Option<UserId>, data: Representation)
    returns (r: Result<Representation>)
    requires store.Valid()
    modifies store
    ensures store.Valid()
    ensures user.None? ==> r == Failure(Unauthenticated)
    ensures user.Some? ==>
      (r.Failure? <==> RejectedMeasurementFields(data, old(store.systems), user.value, false) != {})
    ensures user.Some? && r.Failure? ==>
      r.error == ValidationError(RejectedMeasurementFields(data, old(store.systems), user.value, false))
    ensures r.Failure? ==> unchanged(store)
    ensures r.Success? ==>
      && |store.measurements| == |old(store.measurements)| + 1
      && var m := store.measurements[|old(store.measurements)|];
      && store.measurements == old(store.measurements) + [m]
      && store.systems == old(store.systems)
      && OwnerOf(store.systems, m.system) == Some(user.value)
      && "system" in data && "ph" in data && "tds" in data && "water_temperature" in data
      && data["system"] == Int(m.system)
      && AsNumber(data["ph"]) == Some(m.ph) && data["tds"] == Int(m.tds)
      && AsNumber(data["water_temperature"]) == Some(m.waterTemperature)
      && |MeasurementsOf(store.measurements, m.system)| == |MeasurementsOf(old(store.measurements), m.system)| + 1
      && r.value == Serialize(SerializerFor(CreateAction), m)
    ensures user.Some? ==>
      OthersUnchanged(old(store.systems), old(store.measurements), store.systems, store.measurements, user.value)
  {
    if user.None? {
      return Failure(Unauthenticated);
    }
    var validated := ValidateMeasurementData(data, store.systems, user.value, false);
    if validated.Failure? {
      return Failure(validated.error);
    }
    ValidatedMeasurementData(data, store.systems, user.value, false);
    var d := validated.value;
    ghost var systems, measurements := store.systems, store.measurements;
    var created := store.CreateMeasurement(d.system.value, d.ph.value, d.tds.value, d.waterTemperature.value);
    assert created.Success?;
    var m := created.value;
    SelectAppend(measurements, m, OnSystem(m.system));
    AppendMeasurementIsolated(systems, measurements, m, user.value);
    r := Success(Serialize(SerializerFor(CreateAction), m));
  }

  /** `update` (a full write) and `partial_update` through the write serializer: the
      caller's measurement takes the validated values, a partial write keeps what it
      leaves out, and a move to another user's system is rejected. The key and the
      creation time stay. */
  method UpdateMeasurement(store: Store, user: Option<UserId>, params: map<string, real>, id: nat, data: Representation, partial: bool)
    returns (r: Result<Representation>)
    requires store.Valid()
    modifies store
    ensures store.Valid()
    ensures user.None? ==> r == Failure(Unauthenticated)
    ensures user.Some? && VisibleMeasurement(old(store.systems), old(store.measurements), user.value, params, id).None? ==>
      r == Failure(NotFound)
    ensures user.Some? && VisibleMeasurement(old(store.systems), old(store.measurements), user.value, params, id).Some? ==>
      && (r.Failure? <==> RejectedMeasurementFields(data, old(store.systems), user.value, partial) != {})
      && (r.Failure? ==> r.error == ValidationError(RejectedMeasurementFields(data, old(store.systems), user.value, partial)))
    ensures r.Failure? ==> unchanged(store)
    ensures r.Success? ==>
      var before := VisibleMeasurement(old(store.systems), old(store.measurements), user.value, params, id).value;
      var after := UpdateMeasurementFields(before,
                     ValidateMeasurementData(data, old(store.systems), user.value, partial).value);
      var i := IndexOf(old(store.measurements), HasMeasurementId(id)).value;
      && old(store.measurements)[i] == before
      && store.measurements == old(store.measurements)[i := after]
      && store.systems == old(store.systems)
      && OwnerOf(store.systems, after.system) == Some(user.value)
      && r.value == Serialize(SerializerFor(if partial then PartialUpdateAction else UpdateAction), after)
    ensures user.Some? ==>
      OthersUnchanged(old(store.systems), old(store.measurements), store.systems, store.measurements, user.value)
  {
    if user.None? {
      return Failure(Unauthenticated);
    }
    var target := VisibleMeasurement(store.systems, store.measurements, user.value, params, id);
    if target.None? {
      return Failure(NotFound);
    }
    var validated := ValidateMeasurementData(data, store.systems, user.value, partial);
    if validated.Failure? {
      return Failure(validated.error);
    }
    var before := target.value;
    var after := UpdateMeasurementFields(before, validated.value);
    UpdatedMeasurementTakesSuppliedValues(data, store.systems, user.value, partial, before);
    ghost var systems, measurements := store.systems, store.measurements;
    FindMeasurementUnique(measurements, before);
    var saved := store.SaveMeasurement(id, after.system, after.ph, after.tds, after.waterTemperature);
    assert saved.Success?;
    ghost var i := IndexOf(measurements, HasMeasurementId(id)).value;
    UpdateMeasurementIsolated(systems, measurements, i, saved.value, user.value);
    r := Success(Serialize(SerializerFor(if partial then PartialUpdateAction else UpdateAction), saved.value));
  }

  /** `destroy`: the caller's measurement is deleted; every other row stays. */
  method DestroyMeasurement(store: Store, user: Option<UserId>, params: map<string, real>, id: nat) returns (r: Result<()>)
    requires store.Valid()
    modifies store
    ensures store.Valid()
    ensures user.None? ==> r == Failure(Unauthenticated)
    ensures user.Some? ==>
      (if VisibleMeasurement(old(store.systems), old(store.measurements), user.value, params, id).None? then r == Failure(NotFound) else r.Success?)
    ensures r.Failure? ==> unchanged(store)
    ensures r.Success? ==>
      && store.systems == old(store.systems)
      && store.measurements == Select(old(store.measurements), MeasurementIdIsNot(id))
      && forall m :: m in store.measurements <==> m in old(store.measurements) && m.id != id
    ensures user.Some? ==>
      OthersUnchanged(old(store.systems), old(store.measurements), store.systems, store.measurements, user.value)
  {
    if user.None? {
      return Failure(Unauthenticated);
    }
    var target := VisibleMeasurement(store.systems, store.measurements, user.value, params, id);
    if target.None? {
      return Failure(NotFound);
    }
    RemoveMeasurementIsolated(store.systems, store.measurements, target.value, user.value);
    store.DeleteMeasurement(id);
    r := Success(());
  }
}
